/** What every history of runs keeps: the database itself, that it loads again, and that valid subjects
    are unique. Runs may complete, be cancelled, fail or crash at any step. */
module CaHistories {
  import opened Options
  import opened TxtDbFile
  import opened Asn1Time
  import opened FileSystem
  import opened CaDatabase
  import opened Rotation
  import opened CaRuns
  import CaSessions
  import SerialNames

  // ---- what a run keeps ----

  /** The live index, if it is there, has rows as in `p`; otherwise the one kept aside has. */
  ghost predicate Kept(fs: World, c: Config, p: seq<Row> -> bool) {
    if c.index.db in fs then fs[c.index.db].IndexFile? && p(fs[c.index.db].rows)
    else c.index.dbOld in fs && fs[c.index.dbOld].IndexFile? && p(fs[c.index.dbOld].rows)
  }

  ghost predicate AlwaysKept(trace: seq<World>, c: Config, p: seq<Row> -> bool) {
    forall i :: 0 <= i < |trace| ==> Kept(trace[i], c, p)
  }

  /** The databases in memory after each stage that is reached satisfy `p`; that of the revocation only
      matters when it succeeds. */
  ghost predicate StagesYield(fs: World, c: Config, db: Db, r: Run, oid: string -> bool, p: Db -> bool) {
    var s1 := ExpireStage(fs, c, db, r);
    var fs1 := Final(fs, s1.out);
    var s2 := IssueStage(fs1, c, s1.db, r);
    && p(db) && p(s1.db)
    && (s1.out.ok ==> p(s2.db) && (s2.out.ok && r.revoke.Some? ==>
                                     var (d, ok) := Revoke(s2.db, r.revoke.value.0, r.revoke.value.1, oid);
                                     ok ==> p(d)))
  }

  ghost function OnRows(p: seq<Row> -> bool): Db -> bool { (db: Db) => p(db.rows) }

  lemma EitherKept(trace: seq<World>, c: Config, p: seq<Row> -> bool, before: seq<Row>, after: seq<Row>)
    requires AlwaysEither(trace, c, before, after) && p(before) && p(after)
    ensures AlwaysKept(trace, c, p)
  {
    forall i | 0 <= i < |trace|
      ensures Kept(trace[i], c, p)
    {
      assert Held(trace[i], c.index.db, c.index.dbOld, IndexFile(before));
    }
  }

  ghost predicate StageKept(fs: World, c: Config, p: seq<Row> -> bool, db: Db, out: Outcome<Content>) {
    AlwaysKept(out.trace, c, p) && (out.ok ==> Live(Final(fs, out), c, db.rows))
  }

  lemma StoreKept(fs: World, c: Config, p: seq<Row> -> bool, before: seq<Row>, db: Db, s: SaveFaults, f: IndexFaults)
    requires Separate(c) && Live(fs, c, before) && p(before) && p(db.rows)
    ensures StageKept(fs, c, p, db, StoreIndex(fs, c, db, s, f))
  {
    hide StoreIndex, AlwaysEither;
    StoreIndexLive(fs, c, before, db, s, f);
    EitherKept(StoreIndex(fs, c, db, s, f).trace, c, p, before, db.rows);
  }

  lemma ExpireKept(fs: World, c: Config, p: seq<Row> -> bool, db: Db, r: Run)
    requires Separate(c) && Live(fs, c, db.rows) && p(db.rows) && p(ExpireStage(fs, c, db, r).db.rows)
    ensures StageKept(fs, c, p, ExpireStage(fs, c, db, r).db, ExpireStage(fs, c, db, r).out)
  {
    hide StoreIndex;
    if r.expire.Some? {
      var d := db.(rows := ExpireRows(db.rows, r.expire.value));
      if ExpireCount(db.rows, r.expire.value) == 0 {
        NothingExpired(db.rows, r.expire.value);
      } else {
        StoreKept(fs, c, p, db.rows, d, r.expireFaults.save, r.expireFaults.rotate);
      }
    }
  }

  lemma CommitKept(fs: World, c: Config, p: seq<Row> -> bool, before: seq<Row>, n: nat, i: Issued, f: CommitFaults,
                   certsFail: bool)
    requires Separate(c) && Live(fs, c, before) && SerialIs(fs, c, SerialFile(n)) && p(before) && p(i.db.rows)
    ensures StageKept(fs, c, p, i.db, Commit(fs, c, i, f, certsFail))
  {
    hide RotateBoth, SaveBoth, AlwaysEither, Saved;
    var serial := Saved(i.next, f.cut);
    var saved := SaveBoth(fs, c, i.db, serial, f.serial, f.store.save);
    SaveBothLive(fs, c, i.db, serial, f.serial, f.store.save);
    SameEither(saved.trace, fs, c, before, i.db.rows);
    EitherKept(saved.trace, c, p, before, i.db.rows);
    if saved.ok && !certsFail {
      RotateBothKept(Final(fs, saved), c, p, before, n, i.db, serial, f);
    }
  }

  lemma RotateBothKept(fs: World, c: Config, p: seq<Row> -> bool, before: seq<Row>, n: nat, db: Db, serial: Content,
                       f: CommitFaults)
    requires Separate(c) && Live(fs, c, before) && SerialIs(fs, c, SerialFile(n))
    requires c.serialNew in fs && fs[c.serialNew] == serial
    requires c.index.dbNew in fs && fs[c.index.dbNew] == IndexFile(db.rows)
    requires p(before) && p(db.rows)
    ensures StageKept(fs, c, p, db, RotateBoth(fs, c, f.rotate, f.store.rotate))
  {
    hide RotateIndex, RotateSerial, AlwaysEither;
    var s1 := RotateSerial(fs, c.serial, c.serialNew, c.serialOld, f.rotate);
    var mid := Final(fs, s1);
    SerialRotationLive(fs, c, n, serial, f.rotate);
    SameEither(s1.trace, fs, c, before, db.rows);
    EitherKept(s1.trace, c, p, before, db.rows);
    if s1.ok {
      RotateIndexLive(mid, c, before, db.rows, f.store.rotate);
      EitherKept(RotateIndex(mid, c.index, f.store.rotate).trace, c, p, before, db.rows);
    }
  }

  lemma IssueKept(fs: World, c: Config, p: seq<Row> -> bool, db: Db, r: Run)
    requires Separate(c) && Live(fs, c, db.rows) && p(db.rows) && p(IssueStage(fs, c, db, r).db.rows)
    ensures StageKept(fs, c, p, IssueStage(fs, c, db, r).db, IssueStage(fs, c, db, r).out)
  {
    hide Commit, LoadSerial, IssueAll;
    if r.requests.Some? && c.serial in fs && fs[c.serial].SerialFile? && LoadSerial(fs[c.serial].next).Some? {
      var n := fs[c.serial].next;
      var i := IssueAll(db, n, r.requests.value);
      if i.done == 0 {
        NothingIssued(db, n, r.requests.value);
      } else {
        CommitKept(fs, c, p, db.rows, n, i, r.commitFaults, r.certsFail);
      }
    }
  }

  lemma RevokeKept(fs: World, c: Config, p: seq<Row> -> bool, db: Db, r: Run, oid: string -> bool)
    requires Separate(c) && Live(fs, c, db.rows) && p(db.rows)
    requires r.revoke.Some? ==> var (d, ok) := Revoke(db, r.revoke.value.0, r.revoke.value.1, oid); ok ==> p(d.rows)
    ensures AlwaysKept(RevokeStage(fs, c, db, r, oid).trace, c, p)
  {
    hide StoreIndex, Revoke;
    if r.revoke.Some? {
      var (d, ok) := Revoke(db, r.revoke.value.0, r.revoke.value.1, oid);
      if ok { StoreKept(fs, c, p, db.rows, d, r.revokeFaults.save, r.revokeFaults.rotate); }
    }
  }

  lemma StagesKept(fs: World, c: Config, p: seq<Row> -> bool, db: Db, r: Run, oid: string -> bool)
    requires Separate(c) && Live(fs, c, db.rows) && StagesYield(fs, c, db, r, oid, OnRows(p))
    ensures AlwaysKept(Stages(fs, c, db, r, oid).trace, c, p)
  {
    hide ExpireStage, IssueStage, RevokeStage;
    var s1 := ExpireStage(fs, c, db, r);
    ExpireKept(fs, c, p, db, r);
    if s1.out.ok {
      var fs1 := Final(fs, s1.out);
      var s2 := IssueStage(fs1, c, s1.db, r);
      IssueKept(fs1, c, p, s1.db, r);
      if s2.out.ok {
        RevokeKept(Final(fs1, s2.out), c, p, s2.db, r, oid);
      }
    }
  }

  /** If every stage yields rows as in `p`, every state of the run has them, live or kept aside. */
  lemma RunKept(fs: World, c: Config, p: seq<Row> -> bool, r: Run, oid: string -> bool)
    requires Separate(c) && Kept(fs, c, p)
    requires Opens(fs, c, r, oid) ==> StagesYield(fs, c, Opened(fs, c, r), r, oid, OnRows(p))
    ensures AlwaysKept(States(fs, c, r, oid), c, p)
  {
    hide Loads, Stages, StagesYield;
    if Opens(fs, c, r, oid) {
      StagesKept(fs, c, p, Opened(fs, c, r), r, oid);
    }
  }

  lemma AfterKept(fs: World, c: Config, p: seq<Row> -> bool, r: Run, steps: nat, oid: string -> bool)
    requires Separate(c) && Kept(fs, c, p)
    requires Opens(fs, c, r, oid) ==> StagesYield(fs, c, Opened(fs, c, r), r, oid, OnRows(p))
    ensures Kept(After(fs, c, r, steps, oid), c, p)
  {
    RunKept(fs, c, p, r, oid);
    hide States, Kept;
  }

  // ---- rows only evolve ----

  ghost function EvolvedFrom(start: seq<Row>): seq<Row> -> bool { rows => RowsEvolve(start, rows) }

  lemma IssueStageEvolves(fs: World, c: Config, db: Db, r: Run)
    ensures RowsEvolve(db.rows, IssueStage(fs, c, db, r).db.rows)
  {
    hide Commit, LoadSerial, IssueAll, RowsEvolve;
    EvolvesItself(db.rows);
    if r.requests.Some? && c.serial in fs && fs[c.serial].SerialFile? {
      IssueAllEvolves(db, fs[c.serial].next, r.requests.value);
    }
  }

  lemma StagesEvolve(fs: World, c: Config, start: seq<Row>, db: Db, r: Run, oid: string -> bool)
    requires RowsEvolve(start, db.rows)
    ensures StagesYield(fs, c, db, r, oid, OnRows(EvolvedFrom(start)))
  {
    hide StoreIndex, IssueStage, RowsEvolve, Revoke;
    var s1 := ExpireStage(fs, c, db, r);
    if r.expire.Some? {
      ExpireEvolves(db.rows, r.expire.value);
      EvolveTransitive(start, db.rows, s1.db.rows);
    }
    var s2 := IssueStage(Final(fs, s1.out), c, s1.db, r);
    IssueStageEvolves(Final(fs, s1.out), c, s1.db, r);
    EvolveTransitive(start, s1.db.rows, s2.db.rows);
    if r.revoke.Some? {
      var (cert, q) := r.revoke.value;
      RevokeEvolves(s2.db, cert, q, oid);
      EvolveTransitive(start, s2.db.rows, Revoke(s2.db, cert, q, oid).0.rows);
    }
  }

  /** Over any history, with no condition on it, the database is never lost: it is live or kept aside,
      and its rows have only evolved. */
  lemma {:induction false} DatabaseSurvives(fs: World, c: Config, start: seq<Row>, rs: seq<(Run, nat)>,
                                             oid: string -> bool)
    requires Separate(c) && Kept(fs, c, EvolvedFrom(start))
    ensures Kept(AfterAll(fs, c, rs, oid), c, EvolvedFrom(start))
  {
    if rs != [] {
      AfterAllStep(fs, c, rs, oid);
      hide Separate, After, AfterAll, StagesYield, Loads;
      var k := |rs| - 1;
      DatabaseSurvives(fs, c, start, rs[..k], oid);
      var s := AfterAll(fs, c, rs[..k], oid);
      if Opens(s, c, rs[k].0, oid) {
        StagesEvolve(s, c, start, Opened(s, c, rs[k].0), rs[k].0, oid);
      }
      hide Kept, Opens;
      AfterKept(s, c, EvolvedFrom(start), rs[k].0, rs[k].1, oid);
    }
  }

  /** So a certificate that is revoked in the live index stays revoked there, with the same data. */
  lemma RevocationSurvives(fs: World, c: Config, start: seq<Row>, rs: seq<(Run, nat)>, oid: string -> bool, i: nat)
    requires Separate(c) && Live(fs, c, start) && i < |start| && Type(start[i]) == 'R'
    ensures var s := AfterAll(fs, c, rs, oid);
            c.index.db in s ==>
              s[c.index.db].IndexFile? && i < |s[c.index.db].rows|
              && var r := s[c.index.db].rows[i];
                 Type(r) == 'R' && r.serial == start[i].serial && Text(r.rev) == Text(start[i].rev)
  {
    hide AfterAll, Separate;
    DatabaseSurvives(fs, c, start, rs, oid);
    var s := AfterAll(fs, c, rs, oid);
    if c.index.db in s {
      assert Evolves(start[i], s[c.index.db].rows[i]);
    }
  }

  // ---- the database in memory ----

  lemma {:induction false} IssueAllInv(db: Db, next: nat, vs: seq<Verdict>)
    requires Inv(db)
    ensures Inv(IssueAll(db, next, vs).db) && IssueAll(db, next, vs).db.unique == db.unique
  {
    if vs != [] {
      var v, b := vs[|vs| - 1], IssueAll(db, next, vs[..|vs| - 1]);
      IssueAllInv(db, next, vs[..|vs| - 1]);
      hide Inv, SerialNames.SerialText, Insert;
      if v.Certify? { IssueInv(b.db, Cert(SerialNames.SerialText(b.next), v.exp, v.name)); }
    }
  }

  lemma IssueInv(db: Db, cert: Cert)
    requires Inv(db)
    ensures Issue(db, cert).Some? ==> Inv(Issue(db, cert).value) && Issue(db, cert).value.unique == db.unique
  {
    if Issue(db, cert).Some? { InsertInv(db, NewRow(cert)); }
  }

  ghost function InvAs(unique: bool): Db -> bool { db => Inv(db) && db.unique == unique }

  lemma StagesInv(fs: World, c: Config, db: Db, r: Run, oid: string -> bool)
    requires Inv(db)
    ensures StagesYield(fs, c, db, r, oid, InvAs(db.unique))
  {
    hide ExpireStage, IssueStage, Inv, Revoke;
    var s1 := ExpireStage(fs, c, db, r);
    ExpireStageInv(fs, c, db, r, oid);
    var s2 := IssueStage(Final(fs, s1.out), c, s1.db, r);
    IssueStageInv(Final(fs, s1.out), c, s1.db, r);
    if r.revoke.Some? { ApplyInv(s2.db, DoRevoke(r.revoke.value.0, r.revoke.value.1), oid); }
  }

  lemma ExpireStageInv(fs: World, c: Config, db: Db, r: Run, oid: string -> bool)
    requires Inv(db)
    ensures var d := ExpireStage(fs, c, db, r).db; Inv(d) && d.unique == db.unique
  {
    hide StoreIndex, Inv;
    if r.expire.Some? { ApplyInv(db, DoExpire(r.expire.value), oid); }
  }

  lemma IssueStageInv(fs: World, c: Config, db: Db, r: Run)
    requires Inv(db)
    ensures var d := IssueStage(fs, c, db, r).db; Inv(d) && d.unique == db.unique
  {
    hide Commit, IssueAll, LoadSerial, Inv;
    if r.requests.Some? && c.serial in fs && fs[c.serial].SerialFile? {
      IssueAllInv(db, fs[c.serial].next, r.requests.value);
    }
  }

  lemma YieldBoth(fs: World, c: Config, db: Db, r: Run, oid: string -> bool, p: Db -> bool, q: Db -> bool,
                  w: Db -> bool)
    requires StagesYield(fs, c, db, r, oid, p) && StagesYield(fs, c, db, r, oid, q)
    requires forall d :: p(d) && q(d) ==> w(d)
    ensures StagesYield(fs, c, db, r, oid, w)
  {
    hide ExpireStage, IssueStage, Revoke;
    var s1 := ExpireStage(fs, c, db, r);
    var s2 := IssueStage(Final(fs, s1.out), c, s1.db, r);
    assert p(db) && q(db) && p(s1.db) && q(s1.db);
    if s1.out.ok {
      assert p(s2.db) && q(s2.db);
      if s2.out.ok && r.revoke.Some? {
        var (d, ok) := Revoke(s2.db, r.revoke.value.0, r.revoke.value.1, oid);
        assert ok ==> p(d) && q(d);
      }
    }
  }

  // ---- the live index loads again ----

  /** What the certificate library makes of the requests and prints of a certificate to be revoked. */
  ghost predicate PrintedRun(r: Run) {
    && (r.requests.Some? ==> AllPrinted(r.requests.value))
    && (r.revoke.Some? ==> CaSessions.CertText(r.revoke.value.0) && TimeFormat(r.revoke.value.1.now))
  }

  ghost predicate AllPrinted(vs: seq<Verdict>) {
    forall i :: 0 <= i < |vs| && vs[i].Certify? ==> TimeFormat(vs[i].exp) && '\n' !in vs[i].name
  }

  /** A revocation that succeeds has a clock that prints as UTCTime, and the certificate is listed or has
      an accepted expiry text. */
  predicate Reloads(db: Db, cert: Cert, q: Request, oid: string -> bool) {
    Revoke(db, cert, q, oid).1 ==> UtcCheck(q.now) && (Listed(db, cert) || TimeFormat(cert.exp))
  }

  ghost predicate StagesHarmless(fs: World, c: Config, db: Db, r: Run, oid: string -> bool) {
    var s1 := ExpireStage(fs, c, db, r);
    var s2 := IssueStage(Final(fs, s1.out), c, s1.db, r);
    s1.out.ok && s2.out.ok && r.revoke.Some? ==> Reloads(s2.db, r.revoke.value.0, r.revoke.value.1, oid)
  }

  ghost predicate Harmless(fs: World, c: Config, r: Run, oid: string -> bool) {
    PrintedRun(r) && (Opens(fs, c, r, oid) ==> StagesHarmless(fs, c, Opened(fs, c, r), r, oid))
  }

  lemma IssueGood(db: Db, next: nat, v: Verdict, oid: string -> bool)
    requires CaSessions.AllGood(db.rows, oid) && v.Certify? && TimeFormat(v.exp) && '\n' !in v.name
    ensures var d := Issue(db, Cert(SerialNames.SerialText(next), v.exp, v.name));
            d.Some? ==> CaSessions.AllGood(d.value.rows, oid)
  {
    hide CaSessions.AllGood, CaSessions.AllSafe, SerialNames.SerialText, TimeFormat;
    var cert := Cert(SerialNames.SerialText(next), v.exp, v.name);
    assert CaSessions.CertText(cert);
    CaSessions.AllGoodAreSafe(db.rows, oid);
    CaSessions.NewRowSafe(cert);
    CaSessions.NewRowGoodIff(cert, oid);
    CaSessions.AppendKeeps(db.rows, NewRow(cert), oid);
  }

  lemma {:induction false} IssueAllGood(db: Db, next: nat, vs: seq<Verdict>, oid: string -> bool)
    requires CaSessions.AllGood(db.rows, oid) && AllPrinted(vs)
    ensures CaSessions.AllGood(IssueAll(db, next, vs).db.rows, oid)
  {
    if vs != [] {
      var v, b := vs[|vs| - 1], IssueAll(db, next, vs[..|vs| - 1]);
      IssueAllGood(db, next, vs[..|vs| - 1], oid);
      hide CaSessions.AllGood, SerialNames.SerialText, TimeFormat, Issue;
      if v.Certify? { IssueGood(b.db, b.next, v, oid); }
    }
  }

  lemma ExpireGood(db: Db, now: string, oid: string -> bool)
    requires CaSessions.AllGood(db.rows, oid)
    ensures CaSessions.AllGood(ExpireRows(db.rows, now), oid)
  {
    hide CaSessions.AllGood, CaSessions.AllSafe;
    CaSessions.AllGoodAreSafe(db.rows, oid);
    CaSessions.ExpireKeeps(db.rows, now, oid);
  }

  lemma RevokeGood(db: Db, cert: Cert, q: Request, oid: string -> bool)
    requires CaSessions.AllGood(db.rows, oid) && CaSessions.OidText(oid)
    requires CaSessions.CertText(cert) && TimeFormat(q.now) && Reloads(db, cert, q, oid)
    ensures var (d, ok) := Revoke(db, cert, q, oid); ok ==> CaSessions.AllGood(d.rows, oid)
  {
    hide CaSessions.AllGood, CaSessions.AllSafe, CaSessions.CertText, TimeFormat, UtcCheck, Revoke;
    CaSessions.AllGoodAreSafe(db.rows, oid);
    CaSessions.RevokeKeeps(db, cert, q, oid);
  }

  ghost function GoodRows(oid: string -> bool): Db -> bool { (db: Db) => CaSessions.AllGood(db.rows, oid) }

  lemma StagesGood(fs: World, c: Config, db: Db, r: Run, oid: string -> bool)
    requires CaSessions.AllGood(db.rows, oid) && CaSessions.OidText(oid)
    requires PrintedRun(r) && StagesHarmless(fs, c, db, r, oid)
    ensures StagesYield(fs, c, db, r, oid, GoodRows(oid))
  {
    hide StoreIndex, Commit, IssueAll, LoadSerial, Revoke, Reloads, CaSessions.AllGood, CaSessions.CertText, TimeFormat;
    var s1 := ExpireStage(fs, c, db, r);
    if r.expire.Some? { ExpireGood(db, r.expire.value, oid); }
    var fs1 := Final(fs, s1.out);
    var s2 := IssueStage(fs1, c, s1.db, r);
    if r.requests.Some? && c.serial in fs1 && fs1[c.serial].SerialFile? {
      IssueAllGood(s1.db, fs1[c.serial].next, r.requests.value, oid);
    }
    if s1.out.ok && s2.out.ok && r.revoke.Some? { RevokeGood(s2.db, r.revoke.value.0, r.revoke.value.1, oid); }
  }

  ghost function Loadable(oid: string -> bool): seq<Row> -> bool {
    rows => CaSessions.AllGood(rows, oid) && DistinctSerials(rows)
  }

  lemma StagesLoadable(fs: World, c: Config, r: Run, oid: string -> bool)
    requires Opens(fs, c, r, oid) && CaSessions.AllGood(fs[c.index.db].rows, oid) && CaSessions.OidText(oid)
    requires Harmless(fs, c, r, oid)
    ensures StagesYield(fs, c, Opened(fs, c, r), r, oid, OnRows(Loadable(oid)))
  {
    var db := Opened(fs, c, r);
    LoadedInv(fs[c.index.db].rows, db.unique, oid);
    hide Loads, CaSessions.AllGood, DistinctSerials, DistinctValidNames, StagesYield, StagesHarmless, PrintedRun;
    StagesInv(fs, c, db, r, oid);
    StagesGood(fs, c, db, r, oid);
    YieldBoth(fs, c, db, r, oid, InvAs(db.unique), GoodRows(oid), OnRows(Loadable(oid)));
  }

  ghost predicate AllHarmless(fs: World, c: Config, rs: seq<(Run, nat)>, oid: string -> bool) {
    forall k :: 0 <= k < |rs| ==> Harmless(AfterAll(fs, c, rs[..k], oid), c, rs[k].0, oid)
  }

  lemma HarmlessSnoc(fs: World, c: Config, rs: seq<(Run, nat)>, oid: string -> bool)
    requires rs != [] && AllHarmless(fs, c, rs, oid)
    ensures var k := |rs| - 1;
            AllHarmless(fs, c, rs[..k], oid) && Harmless(AfterAll(fs, c, rs[..k], oid), c, rs[k].0, oid)
  {
    hide Harmless, AfterAll;
    var k := |rs| - 1;
    assert forall i :: 0 <= i < k ==> rs[..k][..i] == rs[..i] && rs[..k][i] == rs[i];
  }

  lemma {:induction false} RowsStayLoadable(fs: World, c: Config, rs: seq<(Run, nat)>, oid: string -> bool)
    requires Separate(c) && Kept(fs, c, Loadable(oid)) && CaSessions.OidText(oid) && AllHarmless(fs, c, rs, oid)
    ensures Kept(AfterAll(fs, c, rs, oid), c, Loadable(oid))
  {
    if rs != [] {
      AfterAllStep(fs, c, rs, oid);
      HarmlessSnoc(fs, c, rs, oid);
      hide Separate, After, AfterAll, AllHarmless, Harmless, StagesYield, Loads, CaSessions.OidText, CaSessions.AllGood;
      var k := |rs| - 1;
      RowsStayLoadable(fs, c, rs[..k], oid);
      var s := AfterAll(fs, c, rs[..k], oid);
      if Opens(s, c, rs[k].0, oid) { StagesLoadable(s, c, rs[k].0, oid); }
      hide Kept, Opens;
      AfterKept(s, c, Loadable(oid), rs[k].0, rs[k].1, oid);
    }
  }

  /** Over any history of such runs, crashes and rollbacks included, the live index, whenever it is
      there, is a file that is read back as its rows and passes the load checks. */
  lemma LiveLoads(fs: World, c: Config, rs: seq<(Run, nat)>, oid: string -> bool)
    requires Separate(c) && Kept(fs, c, Loadable(oid)) && CaSessions.OidText(oid) && AllHarmless(fs, c, rs, oid)
    ensures var s := AfterAll(fs, c, rs, oid);
            c.index.db in s ==>
              && s[c.index.db].IndexFile?
              && var text := CaSessions.FileText(s[c.index.db].rows);
                 CaSessions.ReadRows(text) == Some(CaSessions.Reloaded(s[c.index.db].rows))
                 && CaSessions.FileLoads(text, false, oid)
  {
    RowsStayLoadable(fs, c, rs, oid);
    var s := AfterAll(fs, c, rs, oid);
    hide AfterAll, AllHarmless, Separate, DistinctSerials;
    hide CaSessions.FileLoads, CaSessions.ReadRows, CaSessions.FileText, CaSessions.AllGood, CaSessions.AllSafe;
    if c.index.db in s {
      CaSessions.AllGoodAreSafe(s[c.index.db].rows, oid);
      CaSessions.SafeFileLoadsIff(s[c.index.db].rows, false, oid);
    }
  }

  // ---- valid subjects stay unique ----

  /** The attribute files a rotation can make live say yes. */
  ghost predicate SaysYes(fs: World, c: Config) {
    && (c.index.attr in fs ==> fs[c.index.attr] == AttrFile(true))
    && (c.index.attrOld in fs ==> fs[c.index.attrOld] == AttrFile(true))
  }

  ghost predicate AlwaysYes(trace: seq<World>, c: Config) {
    forall i :: 0 <= i < |trace| ==> SaysYes(trace[i], c)
  }

  /** Every state of a stage says yes, the last one included. */
  ghost predicate StageYes(fs: World, c: Config, out: Outcome<Content>) {
    AlwaysYes(out.trace, c) && SaysYes(Final(fs, out), c)
  }

  lemma SameYes(fs: World, c: Config, out: Outcome<Content>)
    requires SaysYes(fs, c) && AlwaysSame(out.trace, fs, c.index.attr) && AlwaysSame(out.trace, fs, c.index.attrOld)
    ensures StageYes(fs, c, out)
  {
    forall i | 0 <= i < |out.trace|
      ensures SaysYes(out.trace[i], c)
    {
      assert Same(out.trace[i], fs, c.index.attr) && Same(out.trace[i], fs, c.index.attrOld);
    }
  }

  lemma SaveYes(fs: World, c: Config, db: Db, f: SaveFaults)
    requires Separate(c) && SaysYes(fs, c) && db.unique
    ensures StageYes(fs, c, SaveIndex(fs, c, db, f))
    ensures SaveIndex(fs, c, db, f).ok ==>
              AttrFilesHold(Final(fs, SaveIndex(fs, c, db, f)), c.index, AttrFile(true))
  {
    var mid := Final(fs, Save(fs, c.index.dbNew, IndexFile(db.rows), f.db));
    var out := SaveIndex(fs, c, db, f);
    forall q | q in {c.index.attr, c.index.attrOld}
      ensures AlwaysSame(out.trace, fs, q)
    {
      hide Save;
      SaveSame(fs, c.index.dbNew, IndexFile(db.rows), f.db, q);
      SaveSame(mid, c.index.attrNew, AttrFile(db.unique), f.attr, q);
    }
    SameYes(fs, c, out);
  }

  lemma RotateYes(fs: World, c: Config, f: IndexFaults)
    requires Separate(c) && AttrFilesHold(fs, c.index, AttrFile(true))
    ensures StageYes(fs, c, RotateIndex(fs, c.index, f))
  {
    IndexHolds(fs, c.index, f, AttrFile(true));
    hide RotateIndex, Separate;
    var trace := RotateIndex(fs, c.index, f).trace;
    assert forall i :: 0 <= i < |trace| ==> AttrFilesHold(trace[i], c.index, AttrFile(true));
  }

  lemma StoreYes(fs: World, c: Config, db: Db, s: SaveFaults, f: IndexFaults)
    requires Separate(c) && SaysYes(fs, c) && db.unique
    ensures StageYes(fs, c, StoreIndex(fs, c, db, s, f))
  {
    hide RotateIndex, SaveIndex, SaysYes, Separate;
    SaveYes(fs, c, db, s);
    var saved := SaveIndex(fs, c, db, s);
    if saved.ok { RotateYes(Final(fs, saved), c, f); }
  }

  lemma SerialForeign(fs: World, c: Config, f: SerialFaults, q: string)
    requires q != c.serial && q != c.serialNew && q != c.serialOld
    ensures AlwaysSame(RotateSerial(fs, c.serial, c.serialNew, c.serialOld, f).trace, fs, q)
  {
  }

  lemma SerialHolds(fs: World, c: Config, f: SerialFaults, a: Content)
    requires Separate(c) && AttrFilesHold(fs, c.index, a)
    ensures AttrFilesHold(Final(fs, RotateSerial(fs, c.serial, c.serialNew, c.serialOld, f)), c.index, a)
  {
    var out := RotateSerial(fs, c.serial, c.serialNew, c.serialOld, f);
    forall q | q in {c.index.attr, c.index.attrNew, c.index.attrOld}
      ensures Same(Final(fs, out), fs, q)
    {
      SerialForeign(fs, c, f, q);
      FinalSame(fs, out, q);
    }
  }

  lemma CommitYes(fs: World, c: Config, i: Issued, f: CommitFaults, certsFail: bool)
    requires Separate(c) && SaysYes(fs, c) && i.db.unique
    ensures StageYes(fs, c, Commit(fs, c, i, f, certsFail))
  {
    hide RotateIndex, RotateSerial, SaveIndex, SaysYes, Saved, AttrFilesHold, Separate;
    var serial := Saved(i.next, f.cut);
    var s0 := SaveSerial(fs, c, serial, f.serial);
    SaveSerialYes(fs, c, serial, f.serial);
    if s0.ok {
      var fs1 := Final(fs, s0);
      SaveYes(fs1, c, i.db, f.store.save);
      var s1 := SaveIndex(fs1, c, i.db, f.store.save);
      if s1.ok && !certsFail { RotateBothYes(Final(fs1, s1), c, f); }
    }
  }

  lemma SaveSerialYes(fs: World, c: Config, serial: Content, fault: WriteFault)
    requires Separate(c) && SaysYes(fs, c)
    ensures StageYes(fs, c, SaveSerial(fs, c, serial, fault))
  {
  }

  lemma RotateBothYes(fs: World, c: Config, f: CommitFaults)
    requires Separate(c) && SaysYes(fs, c) && AttrFilesHold(fs, c.index, AttrFile(true))
    ensures StageYes(fs, c, RotateBoth(fs, c, f.rotate, f.store.rotate))
  {
    var s1 := RotateSerial(fs, c.serial, c.serialNew, c.serialOld, f.rotate);
    SerialForeign(fs, c, f.rotate, c.index.attr);
    SerialForeign(fs, c, f.rotate, c.index.attrOld);
    hide RotateIndex, RotateSerial, SaysYes, AttrFilesHold;
    SameYes(fs, c, s1);
    SerialHolds(fs, c, f.rotate, AttrFile(true));
    if s1.ok { RotateYes(Final(fs, s1), c, f.store.rotate); }
  }

  lemma ExpireYes(fs: World, c: Config, db: Db, r: Run)
    requires Separate(c) && SaysYes(fs, c) && db.unique
    ensures StageYes(fs, c, ExpireStage(fs, c, db, r).out)
  {
    hide StoreIndex, SaysYes, Separate;
    if r.expire.Some? {
      StoreYes(fs, c, db.(rows := ExpireRows(db.rows, r.expire.value)), r.expireFaults.save, r.expireFaults.rotate);
    }
  }

  lemma IssueYes(fs: World, c: Config, db: Db, r: Run)
    requires Separate(c) && SaysYes(fs, c) && IssueStage(fs, c, db, r).db.unique
    ensures StageYes(fs, c, IssueStage(fs, c, db, r).out)
  {
    hide Commit, SaysYes, Separate, IssueAll, LoadSerial;
    if r.requests.Some? && c.serial in fs && fs[c.serial].SerialFile? && LoadSerial(fs[c.serial].next).Some? {
      CommitYes(fs, c, IssueAll(db, fs[c.serial].next, r.requests.value), r.commitFaults, r.certsFail);
    }
  }

  lemma RevokeYes(fs: World, c: Config, db: Db, r: Run, oid: string -> bool)
    requires Separate(c) && SaysYes(fs, c)
    requires r.revoke.Some? ==>
               var (d, ok) := Revoke(db, r.revoke.value.0, r.revoke.value.1, oid); ok ==> d.unique
    ensures StageYes(fs, c, RevokeStage(fs, c, db, r, oid))
  {
    hide StoreIndex, SaysYes, Separate, Revoke;
    if r.revoke.Some? {
      var (d, ok) := Revoke(db, r.revoke.value.0, r.revoke.value.1, oid);
      if ok { StoreYes(fs, c, d, r.revokeFaults.save, r.revokeFaults.rotate); }
    }
  }

  lemma StagesYes(fs: World, c: Config, db: Db, r: Run, oid: string -> bool)
    requires Separate(c) && SaysYes(fs, c) && StagesYield(fs, c, db, r, oid, InvAs(true))
    ensures AlwaysYes(Stages(fs, c, db, r, oid).trace, c)
  {
    hide ExpireStage, IssueStage, RevokeStage, SaysYes, Separate, Inv;
    var s1 := ExpireStage(fs, c, db, r);
    ExpireYes(fs, c, db, r);
    if s1.out.ok {
      var fs1 := Final(fs, s1.out);
      var s2 := IssueStage(fs1, c, s1.db, r);
      IssueYes(fs1, c, s1.db, r);
      if s2.out.ok { RevokeYes(Final(fs1, s2.out), c, s2.db, r, oid); }
    }
  }

  ghost function DistinctNames(): seq<Row> -> bool { rows => DistinctValidNames(rows) }

  /** Without a live attribute file the configuration must say yes. */
  ghost predicate FallsBackToYes(fs: World, c: Config, r: Run) { c.index.attr in fs || r.unique }

  lemma AfterUnique(fs: World, c: Config, r: Run, steps: nat, oid: string -> bool)
    requires Separate(c) && c.attrRead == c.index.attr && SaysYes(fs, c) && Kept(fs, c, DistinctNames())
    requires FallsBackToYes(fs, c, r)
    ensures SaysYes(After(fs, c, r, steps, oid), c) && Kept(After(fs, c, r, steps, oid), c, DistinctNames())
  {
    var s := After(fs, c, r, steps, oid);
    assert SaysYes(s, c) by {
      if Opens(fs, c, r, oid) {
        var db := Opened(fs, c, r);
        LoadedInv(fs[c.index.db].rows, db.unique, oid);
        hide Loads, Stages, StagesYield, Inv, Kept;
        StagesInv(fs, c, db, r, oid);
        StagesYes(fs, c, db, r, oid);
      }
    }
    UniqueKept(fs, c, r, oid);
    hide Opens, Kept, Separate, StagesYield;
    AfterKept(fs, c, DistinctNames(), r, steps, oid);
  }

  lemma UniqueKept(fs: World, c: Config, r: Run, oid: string -> bool)
    requires c.attrRead == c.index.attr && SaysYes(fs, c) && FallsBackToYes(fs, c, r)
    ensures Opens(fs, c, r, oid) ==> StagesYield(fs, c, Opened(fs, c, r), r, oid, OnRows(DistinctNames()))
  {
    if Opens(fs, c, r, oid) {
      var db := Opened(fs, c, r);
      LoadedInv(fs[c.index.db].rows, db.unique, oid);
      hide Loads, StagesYield;
      StagesInv(fs, c, db, r, oid);
      YieldBoth(fs, c, db, r, oid, InvAs(true), InvAs(true), OnRows(DistinctNames()));
    }
  }

  ghost predicate AllFallBackToYes(fs: World, c: Config, rs: seq<(Run, nat)>, oid: string -> bool) {
    forall k :: 0 <= k < |rs| ==> FallsBackToYes(AfterAll(fs, c, rs[..k], oid), c, rs[k].0)
  }

  lemma FallsBackSnoc(fs: World, c: Config, rs: seq<(Run, nat)>, oid: string -> bool)
    requires rs != [] && AllFallBackToYes(fs, c, rs, oid)
    ensures var k := |rs| - 1;
            AllFallBackToYes(fs, c, rs[..k], oid) && FallsBackToYes(AfterAll(fs, c, rs[..k], oid), c, rs[k].0)
  {
    hide FallsBackToYes, AfterAll;
    var k := |rs| - 1;
    assert forall i :: 0 <= i < k ==> rs[..k][..i] == rs[..i] && rs[..k][i] == rs[i];
  }

  /** Valid subjects stay unique over any history in which the attribute files say yes at first and
      every run that starts without a live one has yes in its configuration. */
  lemma {:induction false} UniqueSurvives(fs: World, c: Config, rs: seq<(Run, nat)>, oid: string -> bool)
    requires Separate(c) && c.attrRead == c.index.attr && SaysYes(fs, c) && Kept(fs, c, DistinctNames())
    requires AllFallBackToYes(fs, c, rs, oid)
    ensures var s := AfterAll(fs, c, rs, oid); SaysYes(s, c) && Kept(s, c, DistinctNames())
  {
    if rs != [] {
      AfterAllStep(fs, c, rs, oid);
      FallsBackSnoc(fs, c, rs, oid);
      hide Separate, After, AfterAll, Kept, SaysYes, AllFallBackToYes, FallsBackToYes;
      var k := |rs| - 1;
      UniqueSurvives(fs, c, rs[..k], oid);
      AfterUnique(AfterAll(fs, c, rs[..k], oid), c, rs[k].0, rs[k].1, oid);
    }
  }

  /** So after any history that meets both conditions every next run that finds the live index gets past
      loading it. */
  lemma NextRunOpens(fs: World, c: Config, rs: seq<(Run, nat)>, r: Run, oid: string -> bool)
    requires Separate(c) && c.attrRead == c.index.attr && CaSessions.OidText(oid)
    requires Kept(fs, c, Loadable(oid)) && AllHarmless(fs, c, rs, oid)
    requires SaysYes(fs, c) && Kept(fs, c, DistinctNames()) && AllFallBackToYes(fs, c, rs, oid)
    ensures var s := AfterAll(fs, c, rs, oid); c.index.db in s <==> Opens(s, c, r, oid)
  {
    RowsStayLoadable(fs, c, rs, oid);
    UniqueSurvives(fs, c, rs, oid);
    hide AfterAll, AllHarmless, AllFallBackToYes, Separate, DistinctSerials, DistinctValidNames, RowLoads;
    hide CaSessions.CleanRow;
  }

  /** The condition is needed: without a live attribute file, as after a crash between the attribute
      renames, and with no in the configuration, a subject that is valid already can be issued again. */
  lemma DuplicateIssued(fs: World, c: Config, r: Run, oid: string -> bool, exp: string, k: nat)
    requires Separate(c) && Opens(fs, c, r, oid) && c.attrRead !in fs && !r.unique && r.expire.None?
    requires k < |fs[c.index.db].rows| && Type(fs[c.index.db].rows[k]) == 'V'
    requires r.requests == Some([Certify(exp, fs[c.index.db].rows[k].name)])
    requires var out := IssueStage(fs, c, Opened(fs, c, r), r).out; out.ok && out.trace != []
    ensures var s := Final(fs, IssueStage(fs, c, Opened(fs, c, r), r).out);
            c.index.db in s && s[c.index.db].IndexFile? && !DistinctValidNames(s[c.index.db].rows)
  {
    var db, n, v := Opened(fs, c, r), fs[c.serial].next, Certify(exp, fs[c.index.db].rows[k].name);
    OneRequest(db, n, v);
    var i := IssueAll(db, n, [v]);
    hide Commit, LoadSerial, IssueAll, IssueOne, SerialNames.SerialText, Loads, DistinctValidNames;
    CommitEnds(fs, c, db.rows, n, i, r.commitFaults, r.certsFail);
    SubjectTwice(db.rows, k, NewRow(Cert(SerialNames.SerialText(n), exp, v.name)));
  }

  lemma OneRequest(db: Db, next: nat, v: Verdict)
    requires v.Certify? && !db.unique
    ensures var i := IssueAll(db, next, [v]);
            i.ok && i.done > 0 ==> i.db.rows == db.rows + [NewRow(Cert(SerialNames.SerialText(next), v.exp, v.name))]
  {
    hide SerialNames.SerialText;
    assert [v][..0] == [] && IssueAll(db, next, []) == Issued(db, next, 0, true);
  }

  lemma SubjectTwice(rows: seq<Row>, k: nat, r: Row)
    requires k < |rows| && Type(rows[k]) == 'V' && Type(r) == 'V' && rows[k].name == r.name
    ensures !DistinctValidNames(rows + [r])
  {
    var out := rows + [r];
    assert out[k] == rows[k] && out[|rows|] == r;
  }
}
