/** The part of MAIN that works on the database: load, expire, issue, commit, revoke. Each method passes
    through exactly the states of CaRuns. */
module CaMain {
  import opened CStrings
  import opened Options
  import opened FileSystem
  import opened CaDatabase
  import opened Rotation
  import opened CaRuns
  import CaObjects
  import SerialNames

  /** The names of the files. The length test of saving is that of rotating. */
  function ConfigOf(serialfile: string, dbfile: string): Config {
    Config(serialfile, serialfile + "." + "new", serialfile + "." + "old", FullPaths(dbfile, "new", "old"),
           |serialfile| + 3 + 1 < BSIZE, !TooLong(dbfile, "new", "old"), Snprintf(dbfile + ".attr"))
  }

  /** The serial file and the database keep out of each other's way exactly when neither has one of
      the names rotating the other uses. */
  lemma SeparateIff(serialfile: string, dbfile: string)
    ensures Separate(ConfigOf(serialfile, dbfile)) <==>
            Foreign(FullPaths(dbfile, "new", "old"), serialfile)
            && dbfile != serialfile + ".new" && dbfile != serialfile + ".old"
  {
    var s, d := serialfile, dbfile;
    PathsDistinctIff(d, "new", "old");
    hide Distinct, TooLong;
    assert s + "." + "new" == s + ".new" && s + "." + "old" == s + ".old";
    assert d + ("." + "new") == d + ".new" && d + ("." + "old") == d + ".old";
    assert d + (".attr." + "new") == (d + ".attr") + ".new" && d + (".attr." + "old") == (d + ".attr") + ".old";
    SuffixesDiffer(s, d);
    SuffixesDiffer(s, d + ".attr");
    Suffixed(s, ".new");
    Suffixed(s, ".old");
    Suffixed(d, ".attr");
    SameFront(s, d, ".new");
    SameFront(s, d, ".old");
    SameFront(s, d + ".attr", ".new");
    SameFront(s, d + ".attr", ".old");
  }

  lemma SuffixesDiffer(a: string, b: string)
    ensures a + ".new" != b + ".old" && a + ".old" != b + ".new" && a + ".new" != a + ".old"
  {
    Suffixed(a, ".new");
    Suffixed(a, ".old");
    Suffixed(b, ".new");
    Suffixed(b, ".old");
  }

  /** A name with a suffix is another name, and ends like the suffix. */
  lemma Suffixed(a: string, suffix: string)
    requires suffix != ""
    ensures |a + suffix| > |a| && (a + suffix)[|a + suffix| - 1] == suffix[|suffix| - 1]
  {}

  lemma SameFront(a: string, b: string, suffix: string)
    ensures a + suffix == b + suffix <==> a == b
  {
    if a + suffix == b + suffix { assert a == (a + suffix)[..|a|] == (b + suffix)[..|b|] == b; }
  }

  /** The disk went through the states of `out` and ends in the last one. */
  twostate predicate Passed(disk: Disk<Content>, out: Outcome<Content>)
    reads disk
  {
    disk.files == Final(old(disk.files), out) && disk.history == old(disk.history) + out.trace
  }

  /** save_serial; `cut` is a short write, which goes unnoticed. */
  method SaveSerialFile(disk: Disk<Content>, serialfile: string, ghost dbfile: string, serial: nat, fault: WriteFault,
                        cut: Option<nat>)
    returns (ok: bool)
    modifies disk
    ensures var out := SaveSerial(old(disk.files), ConfigOf(serialfile, dbfile), Saved(serial, cut), fault);
            ok == out.ok && Passed(disk, out)
  {
    if |serialfile| + 3 + 1 >= BSIZE {
      return false;
    }
    hide Saved;
    ok := disk.Write(Snprintf(serialfile + "." + "new"), Partial, Saved(serial, cut), fault);
  }

  /** save_index. */
  method SaveIndexFiles(disk: Disk<Content>, serialfile: string, dbfile: string, db: CaObjects.TxtDb, f: SaveFaults)
    returns (ok: bool)
    requires db.Valid()
    modifies disk
    ensures var out := SaveIndex(old(disk.files), ConfigOf(serialfile, dbfile), db.Contents(), f);
            ok == out.ok && Passed(disk, out)
  {
    if |dbfile| + 3 + 6 >= BSIZE {
      return false;
    }
    NotCut(dbfile, "new", "old");
    var p := IndexPaths(dbfile, "new", "old");
    ok := disk.Write(p.dbNew, Partial, IndexFile(CaObjects.Values(db.data)), f.db);
    if ok {
      ok := disk.Write(p.attrNew, Partial, AttrFile(db.unique), f.attr);
    }
  }

  method StoreIndexFiles(disk: Disk<Content>, serialfile: string, dbfile: string, db: CaObjects.TxtDb, f: StoreFaults)
    returns (ok: bool)
    requires db.Valid()
    modifies disk
    ensures var out := StoreIndex(old(disk.files), ConfigOf(serialfile, dbfile), db.Contents(), f.save, f.rotate);
            ok == out.ok && Passed(disk, out)
  {
    hide RotateIndex, SaveIndex, IndexPaths, ConfigOf, TooLong;
    SavedFits(disk.files, ConfigOf(serialfile, dbfile), db.Contents(), f.save);
    IndexFits(serialfile, dbfile);
    ok := SaveIndexFiles(disk, serialfile, dbfile, db, f.save);
    if ok {
      ok := DoRotateIndex(disk, dbfile, "new", "old", f.rotate);
    }
  }

  lemma IndexFits(serialfile: string, dbfile: string)
    ensures var c := ConfigOf(serialfile, dbfile);
            c.indexFits ==>
              && !TooLong(dbfile, "new", "old")
              && c.index == IndexPaths(dbfile, "new", "old") && c.attrRead == c.index.attr
  {
    if !TooLong(dbfile, "new", "old") { NotCut(dbfile, "new", "old"); }
  }

  lemma SavedFits(fs: World, c: Config, db: Db, f: SaveFaults)
    ensures SaveIndex(fs, c, db, f).ok ==> c.indexFits
  {
  }

  /** The request loop of MAIN: the serial number is incremented once for every success. */
  method IssueRequests(db: CaObjects.TxtDb, next: nat, vs: seq<Verdict>) returns (serial: nat, done: nat, ok: bool)
    requires db.Valid()
    modifies db.Repr
    ensures db.Valid() && fresh(db.Repr - old(db.Repr))
    ensures Issued(db.Contents(), serial, done, ok) == IssueAll(old(db.Contents()), next, vs)
  {
    ghost var start := db.Contents();
    serial, done, ok := next, 0, true;
    assert IssueAll(start, next, []) == Issued(start, next, 0, true);
    hide IssueAll, IssueOne;
    for k := 0 to |vs|
      invariant db.Valid() && fresh(db.Repr - old(db.Repr))
      invariant ok && Issued(db.Contents(), serial, done, ok) == IssueAll(start, next, vs[..k])
    {
      IssueAllStep(start, next, vs, k);
      serial, done, ok := IssueRequest(db, serial, done, vs[k]);
      if !ok {
        StopsThere(start, next, vs, k + 1);
        return;
      }
    }
    assert vs[..|vs|] == vs;
  }

  method IssueRequest(db: CaObjects.TxtDb, serial0: nat, done0: nat, v: Verdict)
    returns (serial: nat, done: nat, ok: bool)
    requires db.Valid()
    modifies db.Repr
    ensures db.Valid() && fresh(db.Repr - old(db.Repr))
    ensures Issued(db.Contents(), serial, done, ok) == IssueOne(Issued(old(db.Contents()), serial0, done0, true), v)
  {
    hide Issue, SerialNames.SerialText;
    serial, done, ok := serial0, done0, true;
    match v {
      case Fail =>
        ok := false;
      case Decline =>
      case Certify(exp, name) =>
        ok := db.Issue(Cert(SerialNames.SerialText(serial), exp, name));
        if ok {
          serial, done := serial + 1, done + 1;
        }
    }
  }

  /** After the first failure nothing more happens. */
  lemma {:induction false} StopsThere(db: Db, next: nat, vs: seq<Verdict>, k: nat)
    requires k <= |vs| && !IssueAll(db, next, vs[..k]).ok
    ensures IssueAll(db, next, vs) == IssueAll(db, next, vs[..k])
    decreases |vs| - k
  {
    if k < |vs| {
      IssueAllStep(db, next, vs, k);
      StopsThere(db, next, vs, k + 1);
    } else {
      assert vs[..k] == vs;
    }
  }

  /** Everything is saved under `.new` first; then the serial file goes live before the database. */
  method CommitRun(disk: Disk<Content>, serialfile: string, dbfile: string, db: CaObjects.TxtDb, serial: nat,
                   ghost done: nat, f: CommitFaults, certsFail: bool) returns (ok: bool)
    requires db.Valid()
    modifies disk
    ensures var i := Issued(db.Contents(), serial, done, true);
            var out := Commit(old(disk.files), ConfigOf(serialfile, dbfile), i, f, certsFail);
            ok == out.ok && Passed(disk, out)
  {
    hide RotateBoth, SaveBoth, ConfigOf, Saved;
    BothSavedFit(disk.files, ConfigOf(serialfile, dbfile), db.Contents(), Saved(serial, f.cut), f.serial, f.store.save);
    ok := SaveFiles(disk, serialfile, dbfile, db, serial, f.serial, f.cut, f.store.save);
    if certsFail {
      return false;
    }
    if ok {
      ok := RotateFiles(disk, serialfile, dbfile, f.rotate, f.store.rotate);
    }
  }

  lemma BothSavedFit(fs: World, c: Config, db: Db, serial: Content, serialFault: WriteFault, f: SaveFaults)
    ensures SaveBoth(fs, c, db, serial, serialFault, f).ok ==> c.serialFits && c.indexFits
  {
  }

  method SaveFiles(disk: Disk<Content>, serialfile: string, dbfile: string, db: CaObjects.TxtDb, serial: nat,
                   serialFault: WriteFault, cut: Option<nat>, f: SaveFaults) returns (ok: bool)
    requires db.Valid()
    modifies disk
    ensures var out := SaveBoth(old(disk.files), ConfigOf(serialfile, dbfile), db.Contents(), Saved(serial, cut),
                                serialFault, f);
            ok == out.ok && Passed(disk, out)
  {
    hide SaveIndex, SaveSerial, ConfigOf, Saved;
    ok := SaveSerialFile(disk, serialfile, dbfile, serial, serialFault, cut);
    if ok {
      ok := SaveIndexFiles(disk, serialfile, dbfile, db, f);
    }
  }

  method RotateFiles(disk: Disk<Content>, serialfile: string, dbfile: string, sf: SerialFaults, f: IndexFaults)
    returns (ok: bool)
    requires ConfigOf(serialfile, dbfile).serialFits && ConfigOf(serialfile, dbfile).indexFits
    modifies disk
    ensures var out := RotateBoth(old(disk.files), ConfigOf(serialfile, dbfile), sf, f);
            ok == out.ok && Passed(disk, out)
  {
    hide RotateIndex, RotateSerial, IndexPaths, FullPaths;
    IndexFits(serialfile, dbfile);
    ok := DoRotateSerial(disk, serialfile, "new", "old", sf);
    if ok {
      ok := DoRotateIndex(disk, dbfile, "new", "old", f);
    }
  }

  /** The request part of MAIN. */
  method IssueRun(disk: Disk<Content>, serialfile: string, dbfile: string, db: CaObjects.TxtDb, r: Run)
    returns (ok: bool)
    requires db.Valid() && disk !in db.Repr
    modifies disk, db.Repr
    ensures db.Valid() && fresh(db.Repr - old(db.Repr))
    ensures var s := IssueStage(old(disk.files), ConfigOf(serialfile, dbfile), old(db.Contents()), r);
            ok == s.out.ok && Passed(disk, s.out) && db.Contents() == s.db
  {
    hide Commit, IssueAll, LoadSerial;
    if r.requests.None? {
      return true;
    }
    if serialfile !in disk.files || !disk.files[serialfile].SerialFile? {
      return false;
    }
    var loaded := LoadSerial(disk.files[serialfile].next);
    if loaded.None? {
      return false;
    }
    var serial, done;
    serial, done, ok := IssueRequests(db, loaded.value, r.requests.value);
    if !ok || done == 0 {
      return;
    }
    if !r.confirmed {
      return false;
    }
    ok := CommitRun(disk, serialfile, dbfile, db, serial, done, r.commitFaults, r.certsFail);
  }

  /** The update part of MAIN: nothing is written when no row expired. */
  method ExpireRun(disk: Disk<Content>, serialfile: string, dbfile: string, db: CaObjects.TxtDb, r: Run)
    returns (ok: bool)
    requires db.Valid() && disk !in db.Repr
    modifies disk, db.Repr
    ensures db.Valid() && db.Repr == old(db.Repr)
    ensures var s := ExpireStage(old(disk.files), ConfigOf(serialfile, dbfile), old(db.Contents()), r);
            ok == s.out.ok && Passed(disk, s.out) && db.Contents() == s.db
  {
    hide StoreIndex, ConfigOf;
    if r.expire.None? {
      return true;
    }
    var count := db.DoUpdateDb(r.expire.value);
    ok := true;
    if count > 0 {
      ok := StoreIndexFiles(disk, serialfile, dbfile, db, r.expireFaults);
    }
  }

  /** The revocation part of MAIN. */
  method RevokeRun(disk: Disk<Content>, serialfile: string, dbfile: string, db: CaObjects.TxtDb, r: Run,
                   oid: string -> bool) returns (ok: bool)
    requires db.Valid() && disk !in db.Repr
    modifies disk, db.Repr
    ensures var out := RevokeStage(old(disk.files), ConfigOf(serialfile, dbfile), old(db.Contents()), r, oid);
            ok == out.ok && Passed(disk, out)
  {
    hide StoreIndex, ConfigOf, Revoke;
    if r.revoke.None? {
      return true;
    }
    ok := db.DoRevoke(r.revoke.value.0, r.revoke.value.1, oid);
    if ok {
      ok := StoreIndexFiles(disk, serialfile, dbfile, db, r.revokeFaults);
    }
  }

  /** The checks MAIN makes on every row it loaded. */
  method CheckRows(rows: seq<Row>, oid: string -> bool) returns (ok: bool)
    ensures ok <==> forall i :: 0 <= i < |rows| ==> RowLoads(rows[i], oid)
  {
    hide RowLoads;
    for i := 0 to |rows|
      invariant forall k :: 0 <= k < i ==> RowLoads(rows[k], oid)
    {
      if !RowLoads(rows[i], oid) {
        return false;
      }
    }
    return true;
  }

  /** load_index, the row checks and index_index. */
  method LoadIndex(rows: seq<Row>, unique: bool, oid: string -> bool) returns (db: CaObjects.TxtDb?)
    ensures db != null <==> Loads(rows, unique, oid)
    ensures db != null ==> fresh(db.Repr) && db.Valid() && db.Contents() == Loaded(rows, unique)
  {
    hide RowLoads, DistinctSerials, DistinctValidNames, Loaded;
    db := null;
    var ok := CheckRows(rows, oid);
    if ok {
      var d := new CaObjects.TxtDb(rows, unique);
      ok := d.CreateIndexes();
      if ok {
        db := d;
      }
    }
  }

  method RunStages(disk: Disk<Content>, serialfile: string, dbfile: string, db: CaObjects.TxtDb, r: Run,
                   oid: string -> bool)
    returns (ok: bool)
    requires db.Valid() && disk !in db.Repr
    modifies disk, db.Repr
    ensures var out := Stages(old(disk.files), ConfigOf(serialfile, dbfile), old(db.Contents()), r, oid);
            ok == out.ok && Passed(disk, out)
  {
    hide ExpireStage, LastStages, ConfigOf;
    ok := ExpireRun(disk, serialfile, dbfile, db, r);
    if ok {
      ok := RunLastStages(disk, serialfile, dbfile, db, r, oid);
    }
  }

  method RunLastStages(disk: Disk<Content>, serialfile: string, dbfile: string, db: CaObjects.TxtDb, r: Run,
                       oid: string -> bool)
    returns (ok: bool)
    requires db.Valid() && disk !in db.Repr
    modifies disk, db.Repr
    ensures var out := LastStages(old(disk.files), ConfigOf(serialfile, dbfile), old(db.Contents()), r, oid);
            ok == out.ok && Passed(disk, out)
  {
    hide IssueStage, RevokeStage, ConfigOf;
    ok := IssueRun(disk, serialfile, dbfile, db, r);
    if ok {
      ok := RevokeRun(disk, serialfile, dbfile, db, r, oid);
    }
  }

  /** One run of the tool passes through exactly the states of the run model. */
  method RunTool(disk: Disk<Content>, serialfile: string, dbfile: string, r: Run, oid: string -> bool)
    returns (ok: bool)
    modifies disk
    ensures var out := RunOutcome(old(disk.files), ConfigOf(serialfile, dbfile), r, oid);
            ok == out.ok && Passed(disk, out)
  {
    hide Stages, Loads, Loaded;
    if dbfile !in disk.files || !disk.files[dbfile].IndexFile? {
      return false;
    }
    var unique := r.unique;
    var attr := Snprintf(dbfile + ".attr");
    if attr in disk.files {
      if !disk.files[attr].AttrFile? {
        return false;
      }
      unique := disk.files[attr].unique;
    }
    var db := LoadIndex(disk.files[dbfile].rows, unique, oid);
    ok := db != null;
    if ok {
      ok := RunStages(disk, serialfile, dbfile, db, r, oid);
    }
  }
}
