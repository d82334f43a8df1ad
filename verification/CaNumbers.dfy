/** The serial numbers of certificate files over whole histories: the files are written after the `.new`
    files and before the serial file goes live, so a number can be given to two certificates. */
module CaNumbers {
  import opened CaDatabase
  import opened Rotation
  import opened CaRuns
  import opened CaHistories

  // ---- the stored serial never goes back ----

  ghost predicate AlwaysGrows(trace: seq<World>, fs: World, c: Config) {
    forall i :: 0 <= i < |trace| ==> NextOnlyGrows(fs, trace[i], c)
  }

  ghost predicate StageGrows(fs: World, c: Config, out: Outcome<Content>) {
    AlwaysGrows(out.trace, fs, c) && NextOnlyGrows(fs, Final(fs, out), c)
  }

  lemma SameGrows(fs: World, c: Config, out: Outcome<Content>)
    requires AlwaysSame(out.trace, fs, c.serial)
    ensures StageGrows(fs, c, out)
  {
    forall i | 0 <= i < |out.trace|
      ensures NextOnlyGrows(fs, out.trace[i], c)
    {
      assert Same(out.trace[i], fs, c.serial);
    }
  }

  lemma GrowsConcat(fs: World, c: Config, first: Outcome<Content>, second: Outcome<Content>)
    requires StageGrows(fs, c, first) && (first.ok ==> StageGrows(Final(fs, first), c, second))
    ensures StageGrows(fs, c, Then(first, second))
  {
  }

  lemma StoreGrows(fs: World, c: Config, before: seq<Row>, db: Db, s: SaveFaults, f: IndexFaults)
    requires Separate(c) && Live(fs, c, before)
    ensures StageGrows(fs, c, StoreIndex(fs, c, db, s, f))
  {
    hide StoreIndex, AlwaysEither, NextOnlyGrows;
    StoreIndexLive(fs, c, before, db, s, f);
    SameGrows(fs, c, StoreIndex(fs, c, db, s, f));
  }

  lemma RotateGrows(fs: World, c: Config, before: seq<Row>, n: nat, next: nat, serial: Content, sf: SerialFaults)
    requires Separate(c) && Live(fs, c, before) && SerialIs(fs, c, SerialFile(n))
    requires c.serialNew in fs && fs[c.serialNew] == serial && Covers(serial, next) && n <= next
    ensures StageGrows(fs, c, RotateSerial(fs, c.serial, c.serialNew, c.serialOld, sf))
  {
    SerialRotationLive(fs, c, n, serial, sf);
    hide RotateSerial;
  }

  lemma CommitGrows(fs: World, c: Config, before: seq<Row>, n: nat, i: Issued, f: CommitFaults, certsFail: bool)
    requires Separate(c) && Live(fs, c, before) && SerialIs(fs, c, SerialFile(n))
    requires n <= i.next && Covers(Saved(i.next, f.cut), i.next)
    ensures StageGrows(fs, c, Commit(fs, c, i, f, certsFail))
  {
    hide RotateIndex, RotateSerial, SaveBoth, AlwaysEither, NextOnlyGrows, Saved;
    var serial := Saved(i.next, f.cut);
    var saved := SaveBoth(fs, c, i.db, serial, f.serial, f.store.save);
    SaveBothLive(fs, c, i.db, serial, f.serial, f.store.save);
    SameGrows(fs, c, saved);
    if saved.ok && !certsFail {
      var mid := Final(fs, saved);
      var s1 := RotateSerial(mid, c.serial, c.serialNew, c.serialOld, f.rotate);
      RotateGrows(mid, c, before, n, i.next, serial, f.rotate);
      SerialRotationLive(mid, c, n, serial, f.rotate);
      if s1.ok {
        var s2 := RotateIndex(Final(mid, s1), c.index, f.store.rotate);
        RotateIndexLive(Final(mid, s1), c, before, i.db.rows, f.store.rotate);
        SameGrows(Final(mid, s1), c, s2);
        GrowsConcat(mid, c, s1, s2);
      }
      GrowsConcat(fs, c, saved, RotateBoth(mid, c, f.rotate, f.store.rotate));
    }
  }

  lemma NothingGrows(fs: World, c: Config, ok: bool)
    ensures StageGrows(fs, c, Outcome([], ok))
  {
  }

  lemma ExpireGrows(fs: World, c: Config, db: Db, r: Run)
    requires Separate(c) && Live(fs, c, db.rows)
    ensures StageGrows(fs, c, ExpireStage(fs, c, db, r).out)
  {
    hide StoreIndex, StageGrows;
    NothingGrows(fs, c, true);
    if r.expire.Some? {
      var d := db.(rows := ExpireRows(db.rows, r.expire.value));
      StoreGrows(fs, c, db.rows, d, r.expireFaults.save, r.expireFaults.rotate);
    }
  }

  lemma IssueGrows(fs: World, c: Config, db: Db, r: Run)
    requires Separate(c) && Live(fs, c, db.rows) && CommitCovers(fs, c, db, r)
    ensures StageGrows(fs, c, IssueStage(fs, c, db, r).out)
  {
    hide Commit, LoadSerial, IssueAll, StageGrows, Saved;
    NothingGrows(fs, c, true);
    NothingGrows(fs, c, false);
    if r.requests.Some? && c.serial in fs && fs[c.serial].SerialFile? {
      var n := fs[c.serial].next;
      var i := IssueAll(db, n, r.requests.value);
      IssuedNumbers(db, n, r.requests.value);
      if i.done > 0 { CommitGrows(fs, c, db.rows, n, i, r.commitFaults, r.certsFail); }
    }
  }

  lemma RevokeGrows(fs: World, c: Config, db: Db, r: Run, oid: string -> bool)
    requires Separate(c) && Live(fs, c, db.rows)
    ensures StageGrows(fs, c, RevokeStage(fs, c, db, r, oid))
  {
    hide StoreIndex, StageGrows, Revoke;
    NothingGrows(fs, c, true);
    NothingGrows(fs, c, false);
    if r.revoke.Some? {
      var d := Revoke(db, r.revoke.value.0, r.revoke.value.1, oid).0;
      StoreGrows(fs, c, db.rows, d, r.revokeFaults.save, r.revokeFaults.rotate);
    }
  }

  /** No unnoticed short write leaves a smaller serial number to be made live. */
  ghost predicate StagesCover(fs: World, c: Config, db: Db, r: Run) {
    var s1 := ExpireStage(fs, c, db, r);
    s1.out.ok ==> CommitCovers(Final(fs, s1.out), c, s1.db, r)
  }

  ghost predicate Covering(fs: World, c: Config, r: Run, oid: string -> bool) {
    Opens(fs, c, r, oid) ==> StagesCover(fs, c, Opened(fs, c, r), r)
  }

  ghost predicate AllCover(fs: World, c: Config, rs: seq<(Run, nat)>, oid: string -> bool) {
    forall k :: 0 <= k < |rs| ==> Covering(AfterAll(fs, c, rs[..k], oid), c, rs[k].0, oid)
  }

  lemma StagesGrow(fs: World, c: Config, db: Db, r: Run, oid: string -> bool)
    requires Separate(c) && Live(fs, c, db.rows) && StagesCover(fs, c, db, r)
    ensures StageGrows(fs, c, Stages(fs, c, db, r, oid))
  {
    hide ExpireStage, IssueStage, RevokeStage, StageGrows, CommitCovers;
    var s1 := ExpireStage(fs, c, db, r);
    ExpireGrows(fs, c, db, r);
    ExpireKept(fs, c, _ => true, db, r);
    if s1.out.ok {
      var fs1 := Final(fs, s1.out);
      var s2 := IssueStage(fs1, c, s1.db, r);
      IssueGrows(fs1, c, s1.db, r);
      IssueKept(fs1, c, _ => true, s1.db, r);
      if s2.out.ok { RevokeGrows(Final(fs1, s2.out), c, s2.db, r, oid); }
      GrowsConcat(fs1, c, s2.out, RevokeStage(Final(fs1, s2.out), c, s2.db, r, oid));
    }
    GrowsConcat(fs, c, s1.out, LastStages(Final(fs, s1.out), c, s1.db, r, oid));
  }

  lemma AfterGrows(fs: World, c: Config, r: Run, steps: nat, oid: string -> bool)
    requires Separate(c) && Covering(fs, c, r, oid)
    ensures NextOnlyGrows(fs, After(fs, c, r, steps, oid), c)
  {
    hide Stages, StagesCover, Loads, Separate;
    if Opens(fs, c, r, oid) {
      StagesGrow(fs, c, Opened(fs, c, r), r, oid);
    }
  }

  lemma GrowsTransitive(x: World, y: World, z: World, c: Config)
    requires NextOnlyGrows(x, y, c) && NextOnlyGrows(y, z, c)
    ensures NextOnlyGrows(x, z, c)
  {
  }

  /** Between two runs of a history the stored serial does not go back. */
  lemma {:induction false} HistoryGrows(fs: World, c: Config, rs: seq<(Run, nat)>, oid: string -> bool, j: nat, k: nat)
    requires Separate(c) && AllCover(fs, c, rs, oid) && j <= k <= |rs|
    ensures NextOnlyGrows(AfterAll(fs, c, rs[..j], oid), AfterAll(fs, c, rs[..k], oid), c)
  {
    if j < k {
      assert Covering(AfterAll(fs, c, rs[..k - 1], oid), c, rs[k - 1].0, oid);
      assert rs[..k][..k - 1] == rs[..k - 1] && rs[..k][k - 1] == rs[k - 1];
      AfterAllStep(fs, c, rs[..k], oid);
      hide AllCover, Covering, AfterAll, After, NextOnlyGrows, Separate;
      HistoryGrows(fs, c, rs, oid, j, k - 1);
      var mid := AfterAll(fs, c, rs[..k - 1], oid);
      AfterGrows(mid, c, rs[k - 1].0, rs[k - 1].1, oid);
      GrowsTransitive(AfterAll(fs, c, rs[..j], oid), mid, AfterAll(fs, c, rs[..k], oid), c);
    }
  }

  // ---- the certificate files ----

  function Stored(fs: World, c: Config): nat {
    if c.serial in fs && fs[c.serial].SerialFile? then fs[c.serial].next else 0
  }

  /** The requests of a run, issued from the stored serial on. */
  ghost function Batch(fs: World, c: Config, db: Db, r: Run): Issued {
    IssueAll(db, Stored(fs, c), if r.requests.Some? then r.requests.value else [])
  }

  ghost function SavedBoth(fs: World, c: Config, db: Db, r: Run): Outcome<Content> {
    var i := Batch(fs, c, db, r);
    SaveBoth(fs, c, i.db, Saved(i.next, r.commitFaults.cut), r.commitFaults.serial, r.commitFaults.store.save)
  }

  /** The commit gets as far as writing certificate files. */
  ghost predicate Writes(fs: World, c: Config, db: Db, r: Run) {
    && r.requests.Some? && c.serial in fs && fs[c.serial].SerialFile? && LoadSerial(Stored(fs, c)).Some?
    && Batch(fs, c, db, r).ok && Batch(fs, c, db, r).done > 0 && r.confirmed && SavedBoth(fs, c, db, r).ok
  }

  /** The step after which the certificate files are written. */
  ghost function WritesAt(fs: World, c: Config, db: Db, r: Run): nat {
    var s1 := ExpireStage(fs, c, db, r);
    |s1.out.trace| + |SavedBoth(Final(fs, s1.out), c, s1.db, r).trace|
  }

  ghost predicate StagesWrote(fs: World, c: Config, db: Db, r: Run, steps: nat, count: nat) {
    var s1 := ExpireStage(fs, c, db, r); var mid := Final(fs, s1.out); var done := Batch(mid, c, s1.db, r).done;
    && s1.out.ok && Writes(mid, c, s1.db, r) && WritesAt(fs, c, db, r) <= steps && 0 < count <= done
    && (WritesAt(fs, c, db, r) < steps && !r.certsFail ==> count == done)
  }

  /** A run that stopped after `steps` steps may have written `count` certificate files. Their numbers
      are those of IssuedNumbers, from the stored serial on. Once the rotation has begun they are all
      written. */
  ghost predicate Wrote(fs: World, c: Config, r: Run, steps: nat, oid: string -> bool, count: nat) {
    Opens(fs, c, r, oid) && StagesWrote(fs, c, Opened(fs, c, r), r, steps, count)
  }

  predicate Among(n: nat, first: nat, count: nat) { first <= n < first + count }

  ghost predicate Shared(a: nat, countA: nat, b: nat, countB: nat) {
    exists n :: Among(n, a, countA) && Among(n, b, countB)
  }

  lemma SharedIff(a: nat, countA: nat, b: nat, countB: nat)
    requires a <= b && countA > 0 && countB > 0
    ensures Shared(a, countA, b, countB) <==> b < a + countA
  {
    if b < a + countA { assert Among(b, a, countA) && Among(b, b, countB); }
  }

  /** The first number is the one stored when the run starts. */
  lemma ExpireKeepsSerial(fs: World, c: Config, db: Db, r: Run)
    requires Separate(c) && Live(fs, c, db.rows)
    ensures Same(Final(fs, ExpireStage(fs, c, db, r).out), fs, c.serial)
  {
    hide StoreIndex, AlwaysEither;
    if r.expire.Some? {
      var d := db.(rows := ExpireRows(db.rows, r.expire.value));
      StoreIndexLive(fs, c, db.rows, d, r.expireFaults.save, r.expireFaults.rotate);
    }
  }

  lemma WroteFromStored(fs: World, c: Config, r: Run, steps: nat, oid: string -> bool, count: nat)
    requires Separate(c) && Wrote(fs, c, r, steps, oid, count)
    ensures count > 0 && c.serial in fs && fs[c.serial].SerialFile?
  {
    hide Loads, ExpireStage, Batch, SavedBoth, LoadSerial, Separate;
    ExpireKeepsSerial(fs, c, Opened(fs, c, r), r);
  }

  /** Two runs of a history give a number twice exactly when the serial stored when the later one
      starts is still among the numbers the earlier one wrote out: the earlier one stopped before the
      new serial file was live or moved it back, and no run since has got past that number. */
  lemma NumbersSharedIff(fs: World, c: Config, rs: seq<(Run, nat)>, oid: string -> bool, j: nat, k: nat,
                         countJ: nat, countK: nat)
    requires Separate(c) && AllCover(fs, c, rs, oid) && j < k < |rs|
    requires Wrote(AfterAll(fs, c, rs[..j], oid), c, rs[j].0, rs[j].1, oid, countJ)
    requires Wrote(AfterAll(fs, c, rs[..k], oid), c, rs[k].0, rs[k].1, oid, countK)
    ensures var a, b := Stored(AfterAll(fs, c, rs[..j], oid), c), Stored(AfterAll(fs, c, rs[..k], oid), c);
            Shared(a, countJ, b, countK) <==> b < a + countJ
  {
    var x, y := AfterAll(fs, c, rs[..j], oid), AfterAll(fs, c, rs[..k], oid);
    hide AllCover, AfterAll, Wrote, Separate, Shared;
    HistoryGrows(fs, c, rs, oid, j, k);
    WroteFromStored(x, c, rs[j].0, rs[j].1, oid, countJ);
    WroteFromStored(y, c, rs[k].0, rs[k].1, oid, countK);
    SharedIff(Stored(x, c), countJ, Stored(y, c), countK);
  }

  /** So the numbers of a run are never given again once its new serial file is live. */
  lemma LiveSerialNotReused(fs: World, c: Config, rs: seq<(Run, nat)>, oid: string -> bool, j: nat, k: nat,
                            countJ: nat, countK: nat)
    requires Separate(c) && AllCover(fs, c, rs, oid) && j < k < |rs|
    requires Wrote(AfterAll(fs, c, rs[..j], oid), c, rs[j].0, rs[j].1, oid, countJ)
    requires Wrote(AfterAll(fs, c, rs[..k], oid), c, rs[k].0, rs[k].1, oid, countK)
    requires Stored(AfterAll(fs, c, rs[..j], oid), c) + countJ <= Stored(AfterAll(fs, c, rs[..j + 1], oid), c)
    ensures var a, b := Stored(AfterAll(fs, c, rs[..j], oid), c), Stored(AfterAll(fs, c, rs[..k], oid), c);
            !Shared(a, countJ, b, countK)
  {
    hide AllCover, AfterAll, Wrote, Separate, Shared;
    NumbersSharedIff(fs, c, rs, oid, j, k, countJ, countK);
    HistoryGrows(fs, c, rs, oid, j + 1, k);
    WroteFromStored(AfterAll(fs, c, rs[..k], oid), c, rs[k].0, rs[k].1, oid, countK);
  }

  lemma IssueSavesFirst(fs: World, c: Config, db: Db, r: Run)
    requires Writes(fs, c, db, r)
    ensures SavedBoth(fs, c, db, r).trace <= IssueStage(fs, c, db, r).out.trace
  {
    hide IssueAll, LoadSerial, SaveBoth, RotateBoth, Saved;
  }

  lemma ExpiresThenIssues(fs: World, c: Config, db: Db, r: Run, oid: string -> bool)
    requires ExpireStage(fs, c, db, r).out.ok
    ensures var s1 := ExpireStage(fs, c, db, r);
            s1.out.trace + IssueStage(Final(fs, s1.out), c, s1.db, r).out.trace <= Stages(fs, c, db, r, oid).trace
  {
    hide ExpireStage, IssueStage, RevokeStage;
  }

  lemma LastOfMiddle<T>(x: T, a: seq<T>, b: seq<T>, d: seq<T>, t: seq<T>)
    requires b != [] && b <= d && a + d <= t
    ensures |a| + |b| < |[x] + t| && ([x] + t)[|a| + |b|] == b[|b| - 1]
  {
    assert ([x] + t)[|a| + |b|] == t[|a| + |b| - 1] == (a + d)[|a| + |b| - 1] == d[|b| - 1];
  }

  lemma SavedNotEmpty(fs: World, c: Config, db: Db, r: Run)
    ensures SavedBoth(fs, c, db, r).ok ==> SavedBoth(fs, c, db, r).trace != []
  {
    hide SaveIndex, Saved, Batch;
  }

  lemma SavedState(fs: World, c: Config, db: Db, r: Run, oid: string -> bool)
    requires var s1 := ExpireStage(fs, c, db, r); s1.out.ok && Writes(Final(fs, s1.out), c, s1.db, r)
    ensures var s1 := ExpireStage(fs, c, db, r); var mid := Final(fs, s1.out);
            var t, at := [fs] + Stages(fs, c, db, r, oid).trace, WritesAt(fs, c, db, r);
            at < |t| && t[at] == Final(mid, SavedBoth(mid, c, s1.db, r))
  {
    hide ExpireStage, IssueStage, SavedBoth, Stages, Batch, LoadSerial;
    var s1 := ExpireStage(fs, c, db, r); var mid := Final(fs, s1.out);
    SavedNotEmpty(mid, c, s1.db, r);
    ExpiresThenIssues(fs, c, db, r, oid);
    IssueSavesFirst(mid, c, s1.db, r);
    LastOfMiddle(fs, s1.out.trace, SavedBoth(mid, c, s1.db, r).trace, IssueStage(mid, c, s1.db, r).out.trace,
                 Stages(fs, c, db, r, oid).trace);
  }

  /** That does happen: a run that crashes while it writes the certificate files leaves its first number
      to the next run that issues. */
  lemma CrashReusesNumber(fs: World, c: Config, r: Run, oid: string -> bool, steps: nat, count: nat)
    requires Separate(c) && Wrote(fs, c, r, steps, oid, count) && steps == WritesAt(fs, c, Opened(fs, c, r), r)
    ensures Stored(After(fs, c, r, steps, oid), c) == Stored(fs, c)
  {
    var db := Opened(fs, c, r);
    var s1 := ExpireStage(fs, c, db, r);
    SavedState(fs, c, db, r, oid);
    hide Loads, ExpireStage, Batch, Separate, Stages, WritesAt, Writes, SavedBoth;
    ExpireKeepsSerial(fs, c, db, r);
    SavedKeepsSerial(Final(fs, s1.out), c, s1.db, r);
  }

  lemma SavedKeepsSerial(fs: World, c: Config, db: Db, r: Run)
    requires Separate(c)
    ensures Same(Final(fs, SavedBoth(fs, c, db, r)), fs, c.serial)
  {
    hide SaveBoth, Separate, Saved, Batch;
    var i, f := Batch(fs, c, db, r), r.commitFaults;
    SaveBothLive(fs, c, i.db, Saved(i.next, f.cut), f.serial, f.store.save);
  }
}
