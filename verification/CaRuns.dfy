/** Whole runs of the tool against the serial file and the database file: what MAIN saves and rotates,
    in which order, with any call failing and a crash between any two steps. */
module CaRuns {
  import opened Options
  import opened FileSystem
  import opened CaDatabase
  import opened Positions
  import opened Rotation
  import CaSessions
  import SerialNames
  import SerialNumberFile
  import Revocation

  /** `Partial` is a file whose writing was interrupted. */
  datatype Content = SerialFile(next: nat) | IndexFile(rows: seq<Row>) | AttrFile(unique: bool) | Partial

  type World = map<string, Content>

  /** The names of the files, whether they pass the length tests of saving and rotating, and the name
      that load_index gives the attribute file, which is cut off instead. */
  datatype Config = Config(
    serial: string, serialNew: string, serialOld: string, index: Paths, serialFits: bool, indexFits: bool,
    attrRead: string)

  ghost predicate Separate(c: Config) {
    && Distinct(c.index)
    && c.serial != c.serialNew && c.serial != c.serialOld && c.serialNew != c.serialOld
    && Foreign(c.index, c.serial) && Foreign(c.index, c.serialNew) && Foreign(c.index, c.serialOld)
  }

  // ---- one run ----

  /** What do_body returns for one request: 1 with the certificate, 0, or -1. */
  datatype Verdict = Certify(exp: string, name: string) | Decline | Fail

  datatype Issued = Issued(db: Db, next: nat, done: nat, ok: bool)

  /** The request loop: every success takes the next serial number, a failure stops it. */
  function IssueAll(db: Db, next: nat, vs: seq<Verdict>): Issued {
    if vs == [] then Issued(db, next, 0, true)
    else IssueOne(IssueAll(db, next, vs[..|vs| - 1]), vs[|vs| - 1])
  }

  function IssueOne(b: Issued, v: Verdict): Issued {
    if !b.ok || v.Fail? then b.(ok := false)
    else if v.Decline? then b
    else
      var d := Issue(b.db, Cert(SerialNames.SerialText(b.next), v.exp, v.name));
      if d.None? then b.(ok := false) else Issued(d.value, b.next + 1, b.done + 1, true)
  }

  lemma IssueAllStep(db: Db, next: nat, vs: seq<Verdict>, k: nat)
    requires k < |vs|
    ensures IssueAll(db, next, vs[..k + 1]) == IssueOne(IssueAll(db, next, vs[..k]), vs[k])
  {
    assert vs[..k + 1][..k] == vs[..k];
  }

  function Save(fs: World, p: string, c: Content, fault: WriteFault): Outcome<Content> {
    match fault
    case Completed => Outcome([fs[p := Partial], fs[p := c]], true)
    case Refused => Outcome([], false)
    case Interrupted => Outcome([fs[p := Partial]], false)
  }

  /** One stage after another: the second runs only if the first succeeded. */
  function Then<T>(first: Outcome<T>, second: Outcome<T>): Outcome<T> {
    if first.ok then Outcome(first.trace + second.trace, second.ok) else first
  }

  datatype SaveFaults = SaveFaults(db: WriteFault, attr: WriteFault)

  function SaveIndex(fs: World, c: Config, db: Db, f: SaveFaults): Outcome<Content> {
    if !c.indexFits then Outcome([], false)
    else
      var first := Save(fs, c.index.dbNew, IndexFile(db.rows), f.db);
      Then(first, Save(Final(fs, first), c.index.attrNew, AttrFile(db.unique), f.attr))
  }

  /** save_index and rotate_index. */
  function StoreIndex(fs: World, c: Config, db: Db, s: SaveFaults, f: IndexFaults): Outcome<Content> {
    var saved := SaveIndex(fs, c, db, s);
    Then(saved, RotateIndex(Final(fs, saved), c.index, f))
  }

  datatype StoreFaults = StoreFaults(save: SaveFaults, rotate: IndexFaults)

  /** The serial file after save_serial, which does not notice when only `cut` characters got written:
      what matters is the number these are read as. */
  function Saved(next: nat, cut: Option<nat>): Content {
    if cut.None? then SerialFile(next)
    else
      var n := SerialNumberFile.Load(SerialNumberFile.CutShort(next, cut.value));
      if n.Some? then SerialFile(n.value) else Partial
  }

  function SaveSerial(fs: World, c: Config, serial: Content, fault: WriteFault): Outcome<Content> {
    if !c.serialFits then Outcome([], false) else Save(fs, c.serialNew, serial, fault)
  }

  /** Both `.new` files, the serial's first. */
  function SaveBoth(fs: World, c: Config, db: Db, serial: Content, serialFault: WriteFault, f: SaveFaults)
    : Outcome<Content>
  {
    var s1 := SaveSerial(fs, c, serial, serialFault);
    Then(s1, SaveIndex(Final(fs, s1), c, db, f))
  }

  /** The serial file is rotated before the database. */
  function RotateBoth(fs: World, c: Config, sf: SerialFaults, f: IndexFaults): Outcome<Content> {
    var s1 := RotateSerial(fs, c.serial, c.serialNew, c.serialOld, sf);
    Then(s1, RotateIndex(Final(fs, s1), c.index, f))
  }

  datatype CommitFaults = CommitFaults(serial: WriteFault, cut: Option<nat>, rotate: SerialFaults, store: StoreFaults)

  /** The commit after the requests: save, write the certificates, rotate. */
  function Commit(fs: World, c: Config, i: Issued, f: CommitFaults, certsFail: bool): Outcome<Content> {
    var saved := SaveBoth(fs, c, i.db, Saved(i.next, f.cut), f.serial, f.store.save);
    if certsFail then Outcome(saved.trace, false)
    else Then(saved, RotateBoth(Final(fs, saved), c, f.rotate, f.store.rotate))
  }

  /** The command line, the configuration and everything outside the program's control. */
  datatype Run = Run(
    unique: bool,
    expire: Option<string>, expireFaults: StoreFaults,
    requests: Option<seq<Verdict>>, confirmed: bool, certsFail: bool, commitFaults: CommitFaults,
    revoke: Option<(Cert, Request)>, revokeFaults: StoreFaults)

  /** The database in memory after a stage, with the stage's outcome. */
  datatype Stage = Stage(db: Db, out: Outcome<Content>)

  function ExpireStage(fs: World, c: Config, db: Db, r: Run): Stage {
    if r.expire.None? then Stage(db, Outcome([], true))
    else
      var d := db.(rows := ExpireRows(db.rows, r.expire.value));
      if ExpireCount(db.rows, r.expire.value) == 0 then Stage(d, Outcome([], true))
      else Stage(d, StoreIndex(fs, c, d, r.expireFaults.save, r.expireFaults.rotate))
  }

  /** The number read from the text of a serial file; too long a number cannot be read. */
  function LoadSerial(next: nat): (n: Option<nat>)
    ensures n.Some? ==> n.value == next
  {
    SerialNumberFile.RoundTripIff(next);
    SerialNumberFile.Load(SerialNumberFile.Written(next))
  }

  function IssueStage(fs: World, c: Config, db: Db, r: Run): Stage {
    if r.requests.None? then Stage(db, Outcome([], true))
    else if c.serial !in fs || !fs[c.serial].SerialFile? then Stage(db, Outcome([], false))
    else if LoadSerial(fs[c.serial].next).None? then Stage(db, Outcome([], false))
    else
      var i := IssueAll(db, LoadSerial(fs[c.serial].next).value, r.requests.value);
      if !i.ok then Stage(i.db, Outcome([], false))
      else if i.done == 0 then Stage(i.db, Outcome([], true))
      else if !r.confirmed then Stage(i.db, Outcome([], false))
      else Stage(i.db, Commit(fs, c, i, r.commitFaults, r.certsFail))
  }

  function RevokeStage(fs: World, c: Config, db: Db, r: Run, oid: string -> bool): Outcome<Content> {
    if r.revoke.None? then Outcome([], true)
    else
      var (d, ok) := Revoke(db, r.revoke.value.0, r.revoke.value.1, oid);
      if !ok then Outcome([], false) else StoreIndex(fs, c, d, r.revokeFaults.save, r.revokeFaults.rotate)
  }

  function LastStages(fs: World, c: Config, db: Db, r: Run, oid: string -> bool): Outcome<Content> {
    var s := IssueStage(fs, c, db, r);
    Then(s.out, RevokeStage(Final(fs, s.out), c, s.db, r, oid))
  }

  /** The stages after loading, each only if the one before succeeded. */
  function Stages(fs: World, c: Config, db: Db, r: Run, oid: string -> bool): Outcome<Content> {
    var s := ExpireStage(fs, c, db, r);
    Then(s.out, LastStages(Final(fs, s.out), c, s.db, r, oid))
  }

  /** unique_subject: what the attribute file says, and without one what the configuration says. A file
      that cannot be parsed stops the run. */
  function Attribute(fs: World, c: Config, r: Run): Option<bool> {
    if c.attrRead !in fs then Some(r.unique)
    else if fs[c.attrRead].AttrFile? then Some(fs[c.attrRead].unique)
    else None
  }

  predicate HasIndex(fs: World, c: Config) { c.index.db in fs && fs[c.index.db].IndexFile? }

  /** The database in memory after loading. */
  function Opened(fs: World, c: Config, r: Run): Db
    requires HasIndex(fs, c) && Attribute(fs, c, r).Some?
  {
    Loaded(fs[c.index.db].rows, Attribute(fs, c, r).value)
  }

  ghost predicate Opens(fs: World, c: Config, r: Run, oid: string -> bool) {
    HasIndex(fs, c) && Attribute(fs, c, r).Some? && Loads(fs[c.index.db].rows, Attribute(fs, c, r).value, oid)
  }

  /** One run: nothing happens unless the database file is there and passes the load checks. It is ok
      when it gets to its end; a cancelled run does not, although its exit status is 0. */
  ghost function RunOutcome(fs: World, c: Config, r: Run, oid: string -> bool): Outcome<Content> {
    if Opens(fs, c, r, oid) then Stages(fs, c, Opened(fs, c, r), r, oid) else Outcome([], false)
  }

  /** Every state the files are in during one run. */
  ghost function States(fs: World, c: Config, r: Run, oid: string -> bool): seq<World> {
    [fs] + RunOutcome(fs, c, r, oid).trace
  }

  // ---- what the live files hold on the way ----

  ghost predicate Live(fs: World, c: Config, rows: seq<Row>) {
    c.index.db in fs && fs[c.index.db] == IndexFile(rows)
  }

  ghost predicate SerialIs(fs: World, c: Config, serial: Content) {
    c.serial in fs && fs[c.serial] == serial
  }

  /** The live index is the previous or the next one, if anything, and while it is not the previous
      one, that one is kept aside. */
  ghost predicate AlwaysEither(trace: seq<World>, c: Config, before: seq<Row>, after: seq<Row>) {
    && AlwaysOneOf(trace, c.index.db, IndexFile(before), IndexFile(after))
    && AlwaysHeld(trace, c.index.db, c.index.dbOld, IndexFile(before))
  }

  lemma EitherConcat(t: seq<World>, u: seq<World>, c: Config, before: seq<Row>, after: seq<Row>)
    requires AlwaysEither(t, c, before, after) && AlwaysEither(u, c, before, after)
    ensures AlwaysEither(t + u, c, before, after)
  {
  }

  lemma SameEither(trace: seq<World>, fs: World, c: Config, before: seq<Row>, after: seq<Row>)
    requires Live(fs, c, before) && AlwaysSame(trace, fs, c.index.db)
    ensures AlwaysEither(trace, c, before, after)
  {
  }

  lemma SaveIndexLive(fs: World, c: Config, db: Db, f: SaveFaults)
    requires Separate(c)
    ensures var r := SaveIndex(fs, c, db, f); var s := Final(fs, r);
            && AlwaysSame(r.trace, fs, c.serial) && AlwaysSame(r.trace, fs, c.index.db)
            && Same(s, fs, c.serial) && Same(s, fs, c.index.db) && Same(s, fs, c.serialNew)
            && (r.ok ==> c.index.dbNew in s && s[c.index.dbNew] == IndexFile(db.rows))
  {
    var mid := Final(fs, Save(fs, c.index.dbNew, IndexFile(db.rows), f.db));
    forall q | q in {c.serial, c.serialNew, c.index.db}
      ensures var r := SaveIndex(fs, c, db, f); AlwaysSame(r.trace, fs, q) && Same(Final(fs, r), fs, q)
    {
      hide Save;
      SaveSame(fs, c.index.dbNew, IndexFile(db.rows), f.db, q);
      SaveSame(mid, c.index.attrNew, AttrFile(db.unique), f.attr, q);
    }
    SaveSame(mid, c.index.attrNew, AttrFile(db.unique), f.attr, c.index.dbNew);
  }

  lemma SaveSame(fs: World, p: string, c: Content, fault: WriteFault, q: string)
    requires p != q
    ensures var r := Save(fs, p, c, fault); AlwaysSame(r.trace, fs, q) && Same(Final(fs, r), fs, q)
  {
  }

  lemma RotateIndexLive(fs: World, c: Config, before: seq<Row>, after: seq<Row>, f: IndexFaults)
    requires Separate(c) && Live(fs, c, before) && c.index.dbNew in fs && fs[c.index.dbNew] == IndexFile(after)
    ensures var r := RotateIndex(fs, c.index, f); var s := Final(fs, r);
            && AlwaysEither(r.trace, c, before, after) && AlwaysSame(r.trace, fs, c.serial) && Same(s, fs, c.serial)
            && (r.ok ==> Live(s, c, after))
  {
    IndexLive(fs, c.index, f, c.serial);
    OldNeverLost(fs, c.index, f);
    FinalSame(fs, RotateIndex(fs, c.index, f), c.serial);
  }

  /** While the database is saved and rotated, the serial file stays as it is. */
  lemma StoreIndexLive(fs: World, c: Config, before: seq<Row>, db: Db, s: SaveFaults, f: IndexFaults)
    requires Separate(c) && Live(fs, c, before)
    ensures var r := StoreIndex(fs, c, db, s, f); var s := Final(fs, r);
            && AlwaysEither(r.trace, c, before, db.rows) && AlwaysSame(r.trace, fs, c.serial) && Same(s, fs, c.serial)
            && (r.ok ==> Live(s, c, db.rows))
  {
    hide RotateIndex, SaveIndex, AlwaysEither;
    var saved := SaveIndex(fs, c, db, s);
    var mid := Final(fs, saved);
    SaveIndexLive(fs, c, db, s);
    SameEither(saved.trace, fs, c, before, db.rows);
    if saved.ok {
      RotateIndexLive(mid, c, before, db.rows, f);
      EitherConcat(saved.trace, RotateIndex(mid, c.index, f).trace, c, before, db.rows);
    }
  }

  lemma SaveBothLive(fs: World, c: Config, db: Db, serial: Content, serialFault: WriteFault, f: SaveFaults)
    requires Separate(c)
    ensures var r := SaveBoth(fs, c, db, serial, serialFault, f); var s := Final(fs, r);
            && AlwaysSame(r.trace, fs, c.serial) && AlwaysSame(r.trace, fs, c.index.db)
            && Same(s, fs, c.serial) && Same(s, fs, c.index.db)
            && (r.ok ==> c.serialNew in s && s[c.serialNew] == serial
                         && c.index.dbNew in s && s[c.index.dbNew] == IndexFile(db.rows))
  {
    hide SaveIndex;
    var s1 := SaveSerial(fs, c, serial, serialFault);
    SaveIndexLive(Final(fs, s1), c, db, f);
  }

  /** The serial rotation leaves the database files alone. */
  lemma SerialRotationLive(fs: World, c: Config, n: nat, serial: Content, sf: SerialFaults)
    requires Separate(c) && SerialIs(fs, c, SerialFile(n)) && c.serialNew in fs && fs[c.serialNew] == serial
    ensures var r := RotateSerial(fs, c.serial, c.serialNew, c.serialOld, sf); var s := Final(fs, r);
            && AlwaysOneOf(r.trace, c.serial, SerialFile(n), serial) && AlwaysSame(r.trace, fs, c.index.db)
            && Same(s, fs, c.index.db) && Same(s, fs, c.index.dbNew) && (r.ok ==> SerialIs(s, c, serial))
  {
    SerialLive(fs, c.serial, c.serialNew, c.serialOld, sf, c.index.db);
    SerialLive(fs, c.serial, c.serialNew, c.serialOld, sf, c.index.dbNew);
  }

  // ---- serial safety ----

  ghost predicate Below(rows: seq<Row>, next: int) {
    forall i :: 0 <= i < |rows| ==> CaSessions.Number(rows[i].serial) < next
  }

  /** Whenever both live files are there, the stored next serial exceeds every serial in the index. */
  ghost predicate Safe(fs: World, c: Config) {
    c.serial in fs && fs[c.serial].SerialFile? && c.index.db in fs && fs[c.index.db].IndexFile? ==>
      Below(fs[c.index.db].rows, fs[c.serial].next)
  }

  ghost predicate AlwaysSafe(trace: seq<World>, c: Config) {
    forall i :: 0 <= i < |trace| ==> Safe(trace[i], c)
  }

  /** What a state of the files must satisfy for the rows that may become live. */
  ghost predicate Room(fs: World, c: Config, rows: seq<Row>) {
    c.serial in fs && fs[c.serial].SerialFile? ==> Below(rows, fs[c.serial].next)
  }

  lemma EitherSafe(trace: seq<World>, fs: World, c: Config, before: seq<Row>, after: seq<Row>)
    requires AlwaysEither(trace, c, before, after) && AlwaysSame(trace, fs, c.serial)
    requires Room(fs, c, before) && Room(fs, c, after)
    ensures AlwaysSafe(trace, c)
  {
    forall i | 0 <= i < |trace|
      ensures Safe(trace[i], c)
    {
      assert Same(trace[i], fs, c.serial);
    }
  }

  lemma StoreIndexSafe(fs: World, c: Config, before: seq<Row>, db: Db, s: SaveFaults, f: IndexFaults)
    requires Separate(c) && Live(fs, c, before) && Room(fs, c, before) && Room(fs, c, db.rows)
    ensures var r := StoreIndex(fs, c, db, s, f);
            AlwaysSafe(r.trace, c) && (r.ok ==> Live(Final(fs, r), c, db.rows) && Same(Final(fs, r), fs, c.serial))
  {
    hide StoreIndex, AlwaysEither;
    StoreIndexLive(fs, c, before, db, s, f);
    EitherSafe(StoreIndex(fs, c, db, s, f).trace, fs, c, before, db.rows);
  }

  /** What save_serial leaves is unreadable or not below the next number. */
  predicate Covers(serial: Content, next: nat) { serial.SerialFile? ==> next <= serial.next }

  /** The commit: while the serial file is being rotated the live index is still the old one, and once
      it may change the stored serial is already past every new row. */
  lemma CommitSafe(fs: World, c: Config, before: seq<Row>, n: nat, i: Issued, f: CommitFaults, certsFail: bool)
    requires Separate(c) && Live(fs, c, before) && SerialIs(fs, c, SerialFile(n))
    requires Below(before, n) && n <= i.next && Below(i.db.rows, i.next) && Covers(Saved(i.next, f.cut), i.next)
    ensures var r := Commit(fs, c, i, f, certsFail); var s := Final(fs, r);
            AlwaysSafe(r.trace, c) && (r.ok ==> Live(s, c, i.db.rows) && SerialIs(s, c, Saved(i.next, f.cut)))
  {
    hide RotateBoth, SaveBoth, Saved;
    var serial := Saved(i.next, f.cut);
    var saved := SaveBoth(fs, c, i.db, serial, f.serial, f.store.save);
    SaveBothLive(fs, c, i.db, serial, f.serial, f.store.save);
    SameEither(saved.trace, fs, c, before, before);
    EitherSafe(saved.trace, fs, c, before, before);
    if saved.ok && !certsFail {
      RotateBothSafe(Final(fs, saved), c, before, n, i.db.rows, i.next, serial, f.rotate, f.store.rotate);
    }
  }

  lemma RotateBothSafe(fs: World, c: Config, before: seq<Row>, n: nat, after: seq<Row>, next: nat, serial: Content,
                       sf: SerialFaults, f: IndexFaults)
    requires Separate(c) && Live(fs, c, before) && SerialIs(fs, c, SerialFile(n))
    requires c.serialNew in fs && fs[c.serialNew] == serial
    requires c.index.dbNew in fs && fs[c.index.dbNew] == IndexFile(after)
    requires Below(before, n) && n <= next && Below(after, next) && Covers(serial, next)
    ensures var r := RotateBoth(fs, c, sf, f); var s := Final(fs, r);
            AlwaysSafe(r.trace, c) && (r.ok ==> Live(s, c, after) && SerialIs(s, c, serial))
  {
    hide RotateIndex, RotateSerial, AlwaysEither;
    var s1 := RotateSerial(fs, c.serial, c.serialNew, c.serialOld, sf);
    var mid := Final(fs, s1);
    SerialRotationLive(fs, c, n, serial, sf);
    SerialRotationSafe(s1.trace, fs, c, before, n, serial);
    if s1.ok {
      RotateIndexLive(mid, c, before, after, f);
      EitherSafe(RotateIndex(mid, c.index, f).trace, mid, c, before, after);
    }
  }

  lemma SerialRotationSafe(trace: seq<World>, fs: World, c: Config, before: seq<Row>, n: nat, serial: Content)
    requires Live(fs, c, before) && AlwaysSame(trace, fs, c.index.db) && Below(before, n) && Covers(serial, n)
    requires AlwaysOneOf(trace, c.serial, SerialFile(n), serial)
    ensures AlwaysSafe(trace, c)
  {
    forall i | 0 <= i < |trace|
      ensures Safe(trace[i], c)
    {
      assert Same(trace[i], fs, c.index.db);
    }
  }

  // ---- the rows each stage produces ----

  lemma AppendBelow(rows: seq<Row>, r: Row, next: int)
    requires Below(rows, next) && CaSessions.Number(r.serial) < next
    ensures Below(rows + [r], next)
  {
  }

  /** Every success uses up one serial number, and no row reaches the next one. */
  lemma {:induction false} IssueAllBelow(db: Db, next: nat, vs: seq<Verdict>)
    requires Below(db.rows, next)
    ensures var i := IssueAll(db, next, vs);
            i.next == next + i.done && Below(i.db.rows, i.next) && |i.db.rows| == |db.rows| + i.done
  {
    if vs != [] {
      var v, b := vs[|vs| - 1], IssueAll(db, next, vs[..|vs| - 1]);
      IssueAllBelow(db, next, vs[..|vs| - 1]);
      if v.Certify? {
        IssueBelow(b.db, b.next, v);
      }
    }
  }

  lemma IssueBelow(db: Db, next: nat, v: Verdict)
    requires Below(db.rows, next) && v.Certify?
    ensures var d := Issue(db, Cert(SerialNames.SerialText(next), v.exp, v.name));
            d.Some? ==> Below(d.value.rows, next + 1) && |d.value.rows| == |db.rows| + 1
  {
    hide CaSessions.Number, SerialNames.SerialText;
    CaSessions.NumberOfSerialText(next);
    AppendBelow(db.rows, NewRow(Cert(SerialNames.SerialText(next), v.exp, v.name)), next + 1);
  }

  // ---- which requests are issued ----

  ghost predicate AllLoad(rows: seq<Row>) { forall i :: 0 <= i < |rows| ==> SerialLoads(rows[i].serial) }

  /** The next number is in no row yet. */
  lemma NextIsNew(rows: seq<Row>, next: nat, i: nat)
    requires AllLoad(rows) && Below(rows, next) && i < |rows|
    ensures SerialNames.Key(rows[i].serial) != SerialNames.Key(SerialNames.SerialText(next))
  {
    hide SerialNames.Key, SerialNames.SerialText, CaSessions.Number, SerialLoads;
    CaSessions.NumberOfSerialText(next);
    CaSessions.SerialTextLoads(next);
    if SerialNames.Key(rows[i].serial) == SerialNames.Key(SerialNames.SerialText(next)) {
      CaSessions.SameKeySameNumber(rows[i].serial, SerialNames.SerialText(next));
    }
  }

  /** So with the next number a certificate is issued exactly when its subject is free. */
  lemma IssueNextIff(db: Db, next: nat, exp: string, name: string)
    requires AllLoad(db.rows) && Below(db.rows, next)
    ensures var d := Issue(db, Cert(SerialNames.SerialText(next), exp, name));
            && (d.Some? <==> (db.unique ==> name !in db.names))
            && (d.Some? ==>
                  && d.value.rows == db.rows + [Row("V", exp, None, SerialNames.SerialText(next), "unknown", name)]
                  && d.value.unique == db.unique && d.value.names == db.names + (if db.unique then {name} else {}))
            && (d.Some? ==> AllLoad(d.value.rows) && Below(d.value.rows, next + 1))
  {
    IssueIff(db, Cert(SerialNames.SerialText(next), exp, name));
    forall i | 0 <= i < |db.rows|
      ensures SerialNames.Key(db.rows[i].serial) != SerialNames.Key(SerialNames.SerialText(next))
    {
      NextIsNew(db.rows, next, i);
    }
    hide SerialNames.Key, SerialNames.SerialText, CaSessions.Number, SerialLoads, Issue;
    CaSessions.NumberOfSerialText(next);
    CaSessions.SerialTextLoads(next);
  }

  function IsCertify(): Verdict -> bool { (v: Verdict) => v.Certify? }

  /** The subjects of the certificates are free, and no two of them are the same. */
  ghost predicate FreeNames(vs: seq<Verdict>, taken: set<string>) {
    && (forall i :: 0 <= i < |vs| && vs[i].Certify? ==> vs[i].name !in taken)
    && (forall i, j :: 0 <= i < j < |vs| && vs[i].Certify? && vs[j].Certify? ==> vs[i].name != vs[j].name)
  }

  /** No request failed, and every one that was certified found its subject free. */
  ghost predicate Issuable(vs: seq<Verdict>, unique: bool, taken: set<string>) {
    (forall i :: 0 <= i < |vs| ==> !vs[i].Fail?) && (unique ==> FreeNames(vs, taken))
  }

  /** Behind `before` there is one row for each of these requests. */
  ghost predicate RowsFor(rows: seq<Row>, before: seq<Row>, next: nat, vs: seq<Verdict>, at: seq<nat>) {
    && |rows| == |before| + |at| && rows[..|before|] == before
    && forall k :: 0 <= k < |at| ==>
         && at[k] < |vs| && vs[at[k]].Certify?
         && rows[|before| + k]
            == Row("V", vs[at[k]].exp, None, SerialNames.SerialText(next + k), "unknown", vs[at[k]].name)
  }

  function NamesOf(vs: seq<Verdict>): set<string> {
    set i | 0 <= i < |vs| && vs[i].Certify? :: vs[i].name
  }

  /** What IssueAll has done after requests that were all issued or declined. */
  ghost predicate Done(db: Db, next: nat, vs: seq<Verdict>, i: Issued, at: seq<nat>) {
    && i.ok && Lists(at, |vs|, Where(vs, IsCertify())) && i.done == |at| && i.next == next + i.done
    && RowsFor(i.db.rows, db.rows, next, vs, at)
    && i.db.unique == db.unique && i.db.names == db.names + (if db.unique then NamesOf(vs) else {})
    && AllLoad(i.db.rows) && Below(i.db.rows, i.next)
  }

  lemma DoneNothing(db: Db, next: nat)
    requires AllLoad(db.rows) && Below(db.rows, next)
    ensures Done(db, next, [], IssueAll(db, next, []), []) && Issuable([], db.unique, db.names)
  {
    assert NamesOf([]) == {} && db.names + {} == db.names && db.names + NamesOf([]) == db.names;
  }

  lemma IssuableSnoc(init: seq<Verdict>, v: Verdict, unique: bool, taken: set<string>)
    ensures Issuable(init + [v], unique, taken) <==>
            && Issuable(init, unique, taken) && !v.Fail?
            && (v.Certify? && unique ==> v.name !in taken + NamesOf(init))
  {
    var vs := init + [v];
    assert vs[|init|] == v && forall i :: 0 <= i < |init| ==> vs[i] == init[i];
  }

  lemma NamesSnoc(init: seq<Verdict>, v: Verdict)
    ensures NamesOf(init + [v]) == NamesOf(init) + if v.Certify? then {v.name} else {}
  {
    var vs := init + [v];
    assert vs[|init|] == v && forall i :: 0 <= i < |init| ==> vs[i] == init[i];
  }

  lemma RowsForSnoc(rows: seq<Row>, before: seq<Row>, next: nat, init: seq<Verdict>, at: seq<nat>, v: Verdict)
    requires RowsFor(rows, before, next, init, at)
    ensures RowsFor(rows, before, next, init + [v], at)
    ensures v.Certify? ==>
              var r := Row("V", v.exp, None, SerialNames.SerialText(next + |at|), "unknown", v.name);
              RowsFor(rows + [r], before, next, init + [v], at + [|init|])
  {
    hide SerialNames.SerialText;
    assert (init + [v])[|init|] == v && forall i :: 0 <= i < |init| ==> (init + [v])[i] == init[i];
  }

  lemma DoneDeclined(db: Db, next: nat, init: seq<Verdict>, v: Verdict, b: Issued, at: seq<nat>)
    requires Done(db, next, init, b, at) && v.Decline?
    ensures Done(db, next, init + [v], IssueOne(b, v), at)
  {
    hide RowsFor, Lists, AllLoad, Below;
    NamesSnoc(init, v);
    assert NamesOf(init) + {} == NamesOf(init);
    RowsForSnoc(b.db.rows, db.rows, next, init, at, v);
    ListsSnoc(at, |init|, Where(init, IsCertify()), Where(init + [v], IsCertify()));
  }

  lemma DoneCertified(db: Db, next: nat, init: seq<Verdict>, v: Verdict, b: Issued, at: seq<nat>)
    requires Done(db, next, init, b, at) && v.Certify? && (db.unique ==> v.name !in b.db.names)
    ensures Done(db, next, init + [v], IssueOne(b, v), at + [|init|])
  {
    hide RowsFor, Lists, AllLoad, Below, Issue, SerialNames.SerialText;
    IssueNextIff(b.db, b.next, v.exp, v.name);
    NamesSnoc(init, v);
    assert db.unique ==> db.names + NamesOf(init) + {v.name} == db.names + NamesOf(init + [v]);
    assert db.names + {} + {} == db.names + {};
    RowsForSnoc(b.db.rows, db.rows, next, init, at, v);
    ListsSnoc(at, |init|, Where(init, IsCertify()), Where(init + [v], IsCertify()));
  }

  lemma DoneSnoc(db: Db, next: nat, init: seq<Verdict>, v: Verdict, b: Issued, at: seq<nat>)
    requires Done(db, next, init, b, at) && Issuable(init + [v], db.unique, db.names)
    ensures Done(db, next, init + [v], IssueOne(b, v), if v.Certify? then at + [|init|] else at)
  {
    IssuableSnoc(init, v, db.unique, db.names);
    hide RowsFor, Lists, AllLoad, Below, Issuable, IssueOne, NamesOf;
    if v.Certify? { DoneCertified(db, next, init, v, b, at); } else { DoneDeclined(db, next, init, v, b, at); }
  }

  /** IssueOne fails on what is not issuable. */
  lemma NotDone(db: Db, next: nat, init: seq<Verdict>, v: Verdict, b: Issued, at: seq<nat>)
    requires Done(db, next, init, b, at) && Issuable(init, db.unique, db.names)
    requires !Issuable(init + [v], db.unique, db.names)
    ensures !IssueOne(b, v).ok
  {
    hide SerialNames.SerialText, Issue, SerialLoads, CaSessions.Number;
    IssuableSnoc(init, v, db.unique, db.names);
    hide RowsFor, Lists, AllLoad, Below, Issuable;
    if v.Certify? { IssueNextIff(b.db, b.next, v.exp, v.name); }
  }

  lemma {:induction false} IssueAllDone(db: Db, next: nat, vs: seq<Verdict>) returns (at: seq<nat>)
    requires AllLoad(db.rows) && Below(db.rows, next)
    ensures IssueAll(db, next, vs).ok <==> Issuable(vs, db.unique, db.names)
    ensures IssueAll(db, next, vs).ok ==> Done(db, next, vs, IssueAll(db, next, vs), at)
  {
    hide Issuable, Done, AllLoad, Below, Issue, IssueOne;
    if vs == [] {
      at := [];
      DoneNothing(db, next);
    } else {
      var init, v := vs[..|vs| - 1], vs[|vs| - 1];
      assert vs == init + [v];
      at := IssueAllDone(db, next, init);
      var b := IssueAll(db, next, init);
      IssuableInit(init, v, db.unique, db.names);
      StaysFailed(b, v);
      if b.ok && Issuable(vs, db.unique, db.names) {
        DoneSnoc(db, next, init, v, b, at);
        at := if v.Certify? then at + [|init|] else at;
        DoneOk(db, next, vs, IssueOne(b, v), at);
      } else if b.ok {
        NotDone(db, next, init, v, b, at);
      }
    }
  }

  lemma StaysFailed(b: Issued, v: Verdict)
    ensures !b.ok ==> !IssueOne(b, v).ok
  {
  }

  /** The request loop gets to its end exactly when no request failed and every subject was free. Then
      each certified request, in order, has got the next serial number and a V row with it. */
  lemma IssueAllIff(db: Db, next: nat, vs: seq<Verdict>)
    requires AllLoad(db.rows) && Below(db.rows, next)
    ensures var i := IssueAll(db, next, vs);
            && (i.ok <==> Issuable(vs, db.unique, db.names))
            && (i.ok ==> exists at: seq<nat> :: Lists(at, |vs|, Where(vs, IsCertify())) && i.done == |at|
                                                && i.next == next + |at| && RowsFor(i.db.rows, db.rows, next, vs, at))
  {
    hide Issuable, AllLoad, Below, IssueAll, Lists, RowsFor;
    var at := IssueAllDone(db, next, vs);
  }

  lemma DoneOk(db: Db, next: nat, vs: seq<Verdict>, i: Issued, at: seq<nat>)
    requires Done(db, next, vs, i, at)
    ensures i.ok
  {
  }

  lemma IssuableInit(init: seq<Verdict>, v: Verdict, unique: bool, taken: set<string>)
    ensures Issuable(init + [v], unique, taken) ==> Issuable(init, unique, taken)
  {
    IssuableSnoc(init, v, unique, taken);
  }

  lemma {:induction false} NothingIssued(db: Db, next: nat, vs: seq<Verdict>)
    requires IssueAll(db, next, vs).done == 0
    ensures IssueAll(db, next, vs).db == db && IssueAll(db, next, vs).next == next
  {
    if vs != [] { NothingIssued(db, next, vs[..|vs| - 1]); }
  }

  lemma NothingExpired(rows: seq<Row>, now: string)
    requires ExpireCount(rows, now) == 0
    ensures ExpireRows(rows, now) == rows
  {
    CountIsChanged(rows, now);
    forall i | 0 <= i < |rows|
      ensures ExpireRows(rows, now)[i] == rows[i]
    {
      assert i !in Changed(rows, now);
    }
  }

  /** A listed certificate adds no row, so only an unlisted one has to have a serial already used up. */
  lemma RevokeBelow(db: Db, cert: Cert, q: Request, oid: string -> bool, next: int)
    requires Below(db.rows, next) && (!Listed(db, cert) ==> CaSessions.Number(cert.serial) < next)
    ensures Below(Revoke(db, cert, q, oid).0.rows, next)
  {
    hide CaSessions.Number, Revocation.Field;
    if !Listed(db, cert) { AppendBelow(db.rows, NewRow(cert), next); }
  }

  /** And a listed one always has: its number is that of the row found. */
  lemma ListedIsBelow(db: Db, cert: Cert, next: int)
    requires Below(db.rows, next) && Listed(db, cert) && SerialLoads(cert.serial)
    requires forall i :: 0 <= i < |db.rows| ==> SerialLoads(db.rows[i].serial)
    ensures CaSessions.Number(cert.serial) < next
  {
    hide CaSessions.Number, SerialLoads, SerialNames.Key;
    var k := Find(db.rows, SerialNames.Key(cert.serial));
    CaSessions.SameKeySameNumber(cert.serial, db.rows[k].serial);
  }

  // ---- the stages ----

  /** A stage leaves the files safe at every step; on success the database in memory is the live one
      and there is still room in the serial file. */
  ghost predicate StageSafe(fs: World, c: Config, db: Db, out: Outcome<Content>) {
    && AlwaysSafe(out.trace, c)
    && (out.ok ==> Room(Final(fs, out), c, db.rows) && Live(Final(fs, out), c, db.rows))
  }

  lemma ExpireSafe(fs: World, c: Config, db: Db, r: Run)
    requires Separate(c) && Live(fs, c, db.rows) && Room(fs, c, db.rows)
    ensures StageSafe(fs, c, ExpireStage(fs, c, db, r).db, ExpireStage(fs, c, db, r).out)
    ensures ExpireStage(fs, c, db, r).out.ok ==> Same(Final(fs, ExpireStage(fs, c, db, r).out), fs, c.serial)
  {
    hide StoreIndex, CaSessions.Number;
    if r.expire.Some? {
      var d := db.(rows := ExpireRows(db.rows, r.expire.value));
      if ExpireCount(db.rows, r.expire.value) == 0 {
        NothingExpired(db.rows, r.expire.value);
      } else {
        StoreIndexSafe(fs, c, db.rows, d, r.expireFaults.save, r.expireFaults.rotate);
      }
    }
  }

  ghost predicate NextOnlyGrows(a: World, b: World, c: Config) {
    c.serial in b && b[c.serial].SerialFile? ==>
      c.serial in a && a[c.serial].SerialFile? && a[c.serial].next <= b[c.serial].next
  }

  /** What a commit would make the live serial file covers the rows it adds. */
  ghost predicate CommitCovers(fs: World, c: Config, db: Db, r: Run) {
    r.requests.Some? && c.serial in fs && fs[c.serial].SerialFile? ==>
      var i := IssueAll(db, fs[c.serial].next, r.requests.value);
      i.done > 0 ==> Covers(Saved(i.next, r.commitFaults.cut), i.next)
  }

  lemma IssueSafe(fs: World, c: Config, db: Db, r: Run)
    requires Separate(c) && Live(fs, c, db.rows) && Room(fs, c, db.rows) && CommitCovers(fs, c, db, r)
    ensures StageSafe(fs, c, IssueStage(fs, c, db, r).db, IssueStage(fs, c, db, r).out)
    ensures IssueStage(fs, c, db, r).out.ok ==> NextOnlyGrows(fs, Final(fs, IssueStage(fs, c, db, r).out), c)
  {
    hide Commit, CaSessions.Number, Issue, LoadSerial;
    if r.requests.Some? && c.serial in fs && fs[c.serial].SerialFile? && LoadSerial(fs[c.serial].next).Some? {
      var n := fs[c.serial].next;
      var i := IssueAll(db, n, r.requests.value);
      IssueAllBelow(db, n, r.requests.value);
      if i.done == 0 {
        assert |i.db.rows| == |db.rows|;
        NothingIssued(db, n, r.requests.value);
      } else {
        CommitSafe(fs, c, db.rows, n, i, r.commitFaults, r.certsFail);
      }
    }
  }

  /** An unlisted certificate with a serial that is still to come is the one thing that breaks safety. */
  ghost predicate MayRevoke(fs: World, c: Config, db: Db, r: Run) {
    r.revoke.Some? && !Listed(db, r.revoke.value.0) && c.serial in fs && fs[c.serial].SerialFile? ==>
      CaSessions.Number(r.revoke.value.0.serial) < fs[c.serial].next
  }

  lemma RevokeSafe(fs: World, c: Config, db: Db, r: Run, oid: string -> bool)
    requires Separate(c) && Live(fs, c, db.rows) && Room(fs, c, db.rows) && MayRevoke(fs, c, db, r)
    ensures AlwaysSafe(RevokeStage(fs, c, db, r, oid).trace, c)
  {
    hide StoreIndex, CaSessions.Number, Revoke, Listed;
    if r.revoke.Some? {
      var (cert, q) := r.revoke.value;
      var (d, ok) := Revoke(db, cert, q, oid);
      if c.serial in fs && fs[c.serial].SerialFile? {
        RevokeBelow(db, cert, q, oid, fs[c.serial].next);
      }
      StoreIndexSafe(fs, c, db.rows, d, r.revokeFaults.save, r.revokeFaults.rotate);
    }
  }

  /** If the run gets to the commit or the revocation, this holds with the files and the database of that
      moment. */
  ghost predicate StagesCareful(fs: World, c: Config, db: Db, r: Run) {
    var s1 := ExpireStage(fs, c, db, r);
    var fs1 := Final(fs, s1.out);
    var s2 := IssueStage(fs1, c, s1.db, r);
    s1.out.ok ==> CommitCovers(fs1, c, s1.db, r) && (s2.out.ok ==> MayRevoke(Final(fs1, s2.out), c, s2.db, r))
  }

  lemma StagesSafe(fs: World, c: Config, db: Db, r: Run, oid: string -> bool)
    requires Separate(c) && Live(fs, c, db.rows) && Room(fs, c, db.rows) && StagesCareful(fs, c, db, r)
    ensures AlwaysSafe(Stages(fs, c, db, r, oid).trace, c)
  {
    hide CaSessions.Number, ExpireStage, IssueStage, RevokeStage, MayRevoke, CommitCovers;
    var s1 := ExpireStage(fs, c, db, r);
    ExpireSafe(fs, c, db, r);
    if s1.out.ok {
      var fs1 := Final(fs, s1.out);
      var s2 := IssueStage(fs1, c, s1.db, r);
      IssueSafe(fs1, c, s1.db, r);
      if s2.out.ok {
        RevokeSafe(Final(fs1, s2.out), c, s2.db, r, oid);
      }
    }
  }

  ghost predicate Careful(fs: World, c: Config, r: Run, oid: string -> bool) {
    Opens(fs, c, r, oid) ==> StagesCareful(fs, c, Opened(fs, c, r), r)
  }

  /** Every state of a run that starts safe is safe. */
  lemma RunSafe(fs: World, c: Config, r: Run, oid: string -> bool)
    requires Separate(c) && Safe(fs, c) && Careful(fs, c, r, oid)
    ensures AlwaysSafe(States(fs, c, r, oid), c)
  {
    hide Loads, CaSessions.Number, Stages, StagesCareful;
    if Opens(fs, c, r, oid) {
      StagesSafe(fs, c, Opened(fs, c, r), r, oid);
    }
  }

  // ---- the rows over whole runs ----

  lemma {:induction false} IssueAllEvolves(db: Db, next: nat, vs: seq<Verdict>)
    ensures RowsEvolve(db.rows, IssueAll(db, next, vs).db.rows)
  {
    if vs != [] {
      var v, b := vs[|vs| - 1], IssueAll(db, next, vs[..|vs| - 1]);
      IssueAllEvolves(db, next, vs[..|vs| - 1]);
      IssueOneEvolves(b, v);
      EvolveTransitive(db.rows, b.db.rows, IssueOne(b, v).db.rows);
    }
  }

  lemma IssueOneEvolves(b: Issued, v: Verdict)
    ensures RowsEvolve(b.db.rows, IssueOne(b, v).db.rows)
  {
    hide SerialNames.SerialText;
  }

  /** A commit that gets to its end. */
  lemma CommitEnds(fs: World, c: Config, before: seq<Row>, n: nat, i: Issued, f: CommitFaults, certsFail: bool)
    requires Separate(c) && Live(fs, c, before) && SerialIs(fs, c, SerialFile(n))
    ensures var r := Commit(fs, c, i, f, certsFail); var s := Final(fs, r);
            r.ok ==> Live(s, c, i.db.rows) && SerialIs(s, c, Saved(i.next, f.cut))
  {
    hide RotateIndex, RotateSerial, SaveBoth, AlwaysEither, Saved;
    var serial := Saved(i.next, f.cut);
    var saved := SaveBoth(fs, c, i.db, serial, f.serial, f.store.save);
    var mid := Final(fs, saved);
    SaveBothLive(fs, c, i.db, serial, f.serial, f.store.save);
    if saved.ok {
      SerialRotationLive(mid, c, n, serial, f.rotate);
      var s1 := RotateSerial(mid, c.serial, c.serialNew, c.serialOld, f.rotate);
      if s1.ok { RotateIndexLive(Final(mid, s1), c, before, i.db.rows, f.store.rotate); }
    }
  }

  lemma ExpireEvolves(rows: seq<Row>, now: string)
    ensures RowsEvolve(rows, ExpireRows(rows, now))
  {
  }

  // ---- many runs ----

  /** What a run leaves behind: its last state, or an earlier one when it crashes after `steps` steps. */
  ghost function After(fs: World, c: Config, r: Run, steps: nat, oid: string -> bool): World {
    var t := States(fs, c, r, oid);
    if steps < |t| then t[steps] else t[|t| - 1]
  }

  ghost function AfterAll(fs: World, c: Config, rs: seq<(Run, nat)>, oid: string -> bool): World {
    if rs == [] then fs
    else After(AfterAll(fs, c, rs[..|rs| - 1], oid), c, rs[|rs| - 1].0, rs[|rs| - 1].1, oid)
  }

  lemma AfterAllStep(fs: World, c: Config, rs: seq<(Run, nat)>, oid: string -> bool)
    requires rs != []
    ensures var k := |rs| - 1;
            AfterAll(fs, c, rs, oid) == After(AfterAll(fs, c, rs[..k], oid), c, rs[k].0, rs[k].1, oid)
  {
  }

  lemma AfterSafe(fs: World, c: Config, r: Run, steps: nat, oid: string -> bool)
    requires Separate(c) && Safe(fs, c) && Careful(fs, c, r, oid)
    ensures Safe(After(fs, c, r, steps, oid), c)
  {
    RunSafe(fs, c, r, oid);
    hide States, Safe;
  }

  ghost predicate AllCareful(fs: World, c: Config, rs: seq<(Run, nat)>, oid: string -> bool) {
    forall k :: 0 <= k < |rs| ==> Careful(AfterAll(fs, c, rs[..k], oid), c, rs[k].0, oid)
  }

  lemma CarefulSnoc(fs: World, c: Config, rs: seq<(Run, nat)>, oid: string -> bool)
    requires rs != [] && AllCareful(fs, c, rs, oid)
    ensures var k := |rs| - 1;
            AllCareful(fs, c, rs[..k], oid) && Careful(AfterAll(fs, c, rs[..k], oid), c, rs[k].0, oid)
  {
    hide Careful, AfterAll;
    var k := |rs| - 1;
    assert forall i :: 0 <= i < k ==> rs[..k][..i] == rs[..i] && rs[..k][i] == rs[i];
  }

  /** Over any history of runs, completed, cancelled, failed or crashed at any step, the stored next
      serial exceeds every serial in the live index; with RunSafe also in every state of the next run. */
  lemma {:induction false} SerialSafety(fs: World, c: Config, rs: seq<(Run, nat)>, oid: string -> bool)
    requires Separate(c) && Safe(fs, c) && AllCareful(fs, c, rs, oid)
    ensures Safe(AfterAll(fs, c, rs, oid), c)
  {
    if rs != [] {
      AfterAllStep(fs, c, rs, oid);
      hide AllCareful, Careful, Safe, Separate, After, AfterAll;
      var k := |rs| - 1;
      CarefulSnoc(fs, c, rs, oid);
      SerialSafety(fs, c, rs[..k], oid);
      AfterSafe(AfterAll(fs, c, rs[..k], oid), c, rs[k].0, rs[k].1, oid);
    }
  }

  // ---- what the condition on revocations is needed for ----

  /** Where all writes that are not reported as failed are complete, a caller can check it before the
      run: the certificate is in the live index, or its number is below the stored one. */
  lemma CheckedBeforehand(fs: World, c: Config, r: Run, oid: string -> bool)
    requires Separate(c) && Safe(fs, c) && r.commitFaults.cut.None?
    requires r.revoke.Some? && HasIndex(fs, c) && Attribute(fs, c, r).Some? ==> MayRevoke(fs, c, Opened(fs, c, r), r)
    ensures Careful(fs, c, r, oid)
  {
    hide Loads, CaSessions.Number, ExpireStage, IssueStage, IssueAll;
    if HasIndex(fs, c) && Attribute(fs, c, r).Some? && r.revoke.Some? {
      var db := Opened(fs, c, r);
      var s1 := ExpireStage(fs, c, db, r);
      ExpireSafe(fs, c, db, r);
      if s1.out.ok {
        hide Listed;
        var fs1 := Final(fs, s1.out);
        IssueSafe(fs1, c, s1.db, r);
        StillListed(fs, c, db, r);
      }
    }
  }

  lemma StillListed(fs: World, c: Config, db: Db, r: Run)
    requires r.revoke.Some?
    ensures var s1 := ExpireStage(fs, c, db, r); var s2 := IssueStage(Final(fs, s1.out), c, s1.db, r);
            Listed(db, r.revoke.value.0) ==> Listed(s2.db, r.revoke.value.0)
  {
    hide StoreIndex, Commit, IssueAll, LoadSerial, RowsEvolve, Listed;
    var cert := r.revoke.value.0;
    var s1 := ExpireStage(fs, c, db, r);
    var fs1 := Final(fs, s1.out);
    if r.expire.Some? {
      ExpireEvolves(db.rows, r.expire.value);
      ListedEvolves(db, s1.db, cert);
    }
    if r.requests.Some? && c.serial in fs1 && fs1[c.serial].SerialFile? {
      IssueAllEvolves(s1.db, fs1[c.serial].next, r.requests.value);
      ListedEvolves(s1.db, IssueAll(s1.db, fs1[c.serial].next, r.requests.value).db, cert);
    }
  }

  lemma ListedEvolves(a: Db, b: Db, cert: Cert)
    requires RowsEvolve(a.rows, b.rows)
    ensures Listed(a, cert) ==> Listed(b, cert)
  {
    hide SerialNames.Key;
    if Listed(a, cert) {
      var k := Find(a.rows, SerialNames.Key(cert.serial));
      assert Evolves(a.rows[k], b.rows[k]);
    }
  }

  /** Revoking an unlisted certificate keeps safety exactly when its serial was already used up. */
  lemma UnlistedRevokeSafeIff(fs: World, c: Config, db: Db, cert: Cert, q: Request, oid: string -> bool,
                              s: SaveFaults, f: IndexFaults)
    requires Separate(c) && Live(fs, c, db.rows) && c.serial in fs && fs[c.serial].SerialFile?
    requires Below(db.rows, fs[c.serial].next) && !Listed(db, cert) && Revoke(db, cert, q, oid).1
    requires StoreIndex(fs, c, Revoke(db, cert, q, oid).0, s, f).ok
    ensures Safe(Final(fs, StoreIndex(fs, c, Revoke(db, cert, q, oid).0, s, f)), c) <==>
            CaSessions.Number(cert.serial) < fs[c.serial].next
  {
    hide StoreIndex, CaSessions.Number, Revoke, Revocation.Field, AlwaysEither;
    var d := Revoke(db, cert, q, oid).0;
    StoreIndexLive(fs, c, db.rows, d, s, f);
    RevokeUnlisted(db, cert, q, oid);
    if CaSessions.Number(cert.serial) < fs[c.serial].next {
      RevokeBelow(db, cert, q, oid, fs[c.serial].next);
    } else {
      assert d.rows[|db.rows|].serial == cert.serial;
    }
  }

  /** With an empty index and 01 as the next serial, certificate 05 can be revoked, and then 05 is in
      the index while 01 is still the next serial. */
  lemma UnlistedRevokeExample(c: Config, oid: string -> bool)
    requires Separate(c) && c.indexFits
    ensures var fs := map[c.serial := SerialFile(1), c.index.db := IndexFile([])];
            var d := Revoke(Db([], false, {}), Cert("05", "", ""), Request("", Revocation.RevNone, ""), oid).0;
            var none := IndexFaults(false, false, false, false, false, false, false, false, false);
            Safe(fs, c) && !Safe(Final(fs, StoreIndex(fs, c, d, SaveFaults(Completed, Completed), none)), c)
  {
    var fs: World := map[c.serial := SerialFile(1), c.index.db := IndexFile([])];
    var db, cert, q := Db([], false, {}), Cert("05", "", ""), Request("", Revocation.RevNone, "");
    var none := IndexFaults(false, false, false, false, false, false, false, false, false);
    var d := Revoke(db, cert, q, oid).0;
    NumberFive();
    RevokesUnlisted(cert, oid);
    hide StoreIndex, CaSessions.Number, Revoke, Listed, Separate;
    StoreWorks(fs, c, d);
    assert c.serial != c.index.db && c.index.attr !in fs by { NamesDiffer(c); }
    UnlistedRevokeSafeIff(fs, c, db, cert, q, oid, SaveFaults(Completed, Completed), none);
  }

  lemma NamesDiffer(c: Config)
    requires Separate(c)
    ensures c.serial != c.index.db && c.serial != c.index.attr && c.index.db != c.index.attr
  {
  }

  lemma RevokesUnlisted(cert: Cert, oid: string -> bool)
    ensures var db, q := Db([], false, {}), Request("", Revocation.RevNone, "");
            !Listed(db, cert) && Revoke(db, cert, q, oid).1
  {
    RevokeSucceedsIff(Db([], false, {}), cert, Request("", Revocation.RevNone, ""), oid);
  }

  lemma NumberFive()
    ensures CaSessions.Number("05") == 5
  {
    var s := "05";
    CaSessions.NumberOfNumeral(s);
    assert SerialNames.IsHex(s) && Digits(s) == s && s[..1] == "0" && "0"[..0] == "";
    assert SerialNames.Value("0") == 0 && SerialNames.Value(s) == 5;
  }

  lemma StoreWorks(fs: World, c: Config, db: Db)
    requires Separate(c) && c.indexFits && c.index.db in fs && c.index.attr !in fs
    ensures var none := IndexFaults(false, false, false, false, false, false, false, false, false);
            StoreIndex(fs, c, db, SaveFaults(Completed, Completed), none).ok
  {
    var none := IndexFaults(false, false, false, false, false, false, false, false, false);
    var s := Final(fs, SaveIndex(fs, c, db, SaveFaults(Completed, Completed)));
    assert c.index.db in s && c.index.dbNew in s && c.index.attrNew in s && c.index.attr !in s;
    DbRotated(s, c.index, none);
    var r := RotateSerial(s, c.index.db, c.index.dbNew, c.index.dbOld, SerialFaults(false, false, false, false));
    var mid := Final(s, r);
    assert Same(r.trace[|r.trace| - 1], s, c.index.attrNew);
    assert c.index.attrNew in mid && c.index.attr !in mid && RotateAttr(mid, c.index, none).ok;
  }

  // ---- an unnoticed short write of the serial file ----

  /** The rows added have the numbers from the stored one up to the next one, in order. */
  lemma {:induction false} IssuedNumbers(db: Db, next: nat, vs: seq<Verdict>)
    ensures var i := IssueAll(db, next, vs);
            && i.next == next + i.done && |i.db.rows| == |db.rows| + i.done
            && forall k :: |db.rows| <= k < |i.db.rows| ==>
                             CaSessions.Number(i.db.rows[k].serial) == next + (k - |db.rows|)
  {
    hide CaSessions.Number, SerialNames.SerialText;
    if vs != [] {
      var v, b := vs[|vs| - 1], IssueAll(db, next, vs[..|vs| - 1]);
      IssuedNumbers(db, next, vs[..|vs| - 1]);
      CaSessions.NumberOfSerialText(b.next);
    }
  }

  /** What is left of the serial file covers the new rows exactly when it cannot be read or all of its
      digits got written. */
  lemma CoversIff(next: nat, cut: nat)
    requires next > 0
    ensures Covers(Saved(next, Some(cut)), next) <==>
            || cut >= 2 * |SerialNames.Bytes(next)|
            || cut == 0 || cut % 2 == 1 || cut > 2 * SerialNumberFile.LINE_BYTES
  {
    SerialNumberFile.CutShortLoads(next, cut);
    hide SerialNumberFile.Load, SerialNumberFile.CutShort, SerialNames.Bytes;
    if SerialNumberFile.Load(SerialNumberFile.CutShort(next, cut)).Some? {
      SerialNumberFile.CutShortIsSmaller(next, cut);
    }
  }

  /** A commit that gets to its end keeps safety exactly in that case. */
  lemma ShortWriteSafeIff(fs: World, c: Config, db: Db, n: nat, vs: seq<Verdict>, f: CommitFaults)
    requires Separate(c) && Live(fs, c, db.rows) && SerialIs(fs, c, SerialFile(n)) && Below(db.rows, n)
    requires IssueAll(db, n, vs).done > 0 && Commit(fs, c, IssueAll(db, n, vs), f, false).ok
    ensures var i := IssueAll(db, n, vs);
            Safe(Final(fs, Commit(fs, c, i, f, false)), c) <==> Covers(Saved(i.next, f.cut), i.next)
  {
    var i := IssueAll(db, n, vs);
    hide Commit, CaSessions.Number, Saved, IssueAll;
    CommitEnds(fs, c, db.rows, n, i, f, false);
    IssueAllBelow(db, n, vs);
    IssuedNumbers(db, n, vs);
    assert CaSessions.Number(i.db.rows[|i.db.rows| - 1].serial) == i.next - 1;
  }
}
