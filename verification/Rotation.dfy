/** rotate_serial and rotate_index: the new file is renamed into place, the old one kept aside, and
    failures are rolled back by further renames. Any rename may be refused, those of the rollback
    included, and a crash may happen between any two. */
module Rotation {
  import opened CStrings
  import opened FileSystem

  // ---- the paths ----

  /** BIO_snprintf into a buffer of BSIZE characters. */
  function Snprintf(s: string): string {
    if |s| < BSIZE then s else s[..BSIZE - 1]
  }

  /** The six paths of one rotation. */
  datatype Paths = Paths(db: string, dbNew: string, dbOld: string, attr: string, attrNew: string, attrOld: string)

  function IndexPaths(db: string, n: string, o: string): Paths {
    Paths(db, Snprintf(db + "." + n), Snprintf(db + "." + o), Snprintf(db + ".attr"),
          Snprintf(db + ".attr." + n), Snprintf(db + ".attr." + o))
  }

  function Longer(a: nat, b: nat): nat { if a > b then a else b }

  predicate TooLong(db: string, n: string, o: string) {
    Longer(|db| + |o|, |db| + |n|) + 6 >= BSIZE
  }

  predicate Distinct(p: Paths) {
    && p.db != p.dbNew && p.db != p.dbOld && p.db != p.attr && p.db != p.attrNew && p.db != p.attrOld
    && p.dbNew != p.dbOld && p.dbNew != p.attr && p.dbNew != p.attrNew && p.dbNew != p.attrOld
    && p.dbOld != p.attr && p.dbOld != p.attrNew && p.dbOld != p.attrOld
    && p.attr != p.attrNew && p.attr != p.attrOld && p.attrNew != p.attrOld
  }

  lemma SameTail(p: string, a: string, b: string)
    ensures p + a == p + b <==> a == b
  {
    assert (p + a)[|p|..] == a && (p + b)[|p|..] == b;
  }

  /** The paths before they are cut to the size of a buffer. */
  function FullPaths(db: string, n: string, o: string): Paths {
    Paths(db, db + ("." + n), db + ("." + o), db + ".attr", db + (".attr." + n), db + (".attr." + o))
  }

  /** Names that pass the length test are not cut off. */
  lemma NotCut(db: string, n: string, o: string)
    requires !TooLong(db, n, o)
    ensures IndexPaths(db, n, o) == FullPaths(db, n, o)
  {
    assert db + "." + n == db + ("." + n) && db + "." + o == db + ("." + o);
    assert db + ".attr." + n == db + (".attr." + n) && db + ".attr." + o == db + (".attr." + o);
  }

  /** The six paths are pairwise different exactly when the suffixes do not clash with each other or
      with the attribute file; `new` and `old`, which MAIN passes, do not. */
  lemma PathsDistinctIff(db: string, n: string, o: string)
    ensures Distinct(FullPaths(db, n, o)) <==>
            n != o && n != "attr" && o != "attr" && n != "attr." + o && o != "attr." + n
  {
    SameTail(db, "." + n, "." + o);
    SameTail(".", n, o);
    SameTail(db, "." + n, ".attr");
    SameTail(".", n, "attr");
    assert ".attr" == "." + "attr";
    SameTail(db, "." + o, ".attr");
    SameTail(".", o, "attr");
    SameTail(db, "." + n, ".attr." + o);
    SameTail(".", n, "attr." + o);
    assert ".attr." + o == "." + ("attr." + o) && ".attr." + n == "." + ("attr." + n);
    SameTail(db, "." + o, ".attr." + n);
    SameTail(".", o, "attr." + n);
    SameTail(db, ".attr." + n, ".attr." + o);
    SameTail(".attr.", n, o);
  }

  // ---- what the calls do ----

  /** The rollback after a failed database rename: its result is ignored. */
  function UndoDb<T>(fs: map<string, T>, a: string, b: string, refused: bool): seq<map<string, T>> {
    [Moved(fs, a, b, refused).0]
  }

  /** The rollback after a failed attribute rename: the new database back out, the old one back in. */
  function UndoBoth<T>(fs: map<string, T>, p: Paths, f: IndexFaults): seq<map<string, T>> {
    var s := Moved(fs, p.db, p.dbNew, f.backNew).0;
    [s] + UndoDb(s, p.dbOld, p.db, f.backDb)
  }

  function UndoAll<T>(fs: map<string, T>, p: Paths, f: IndexFaults): seq<map<string, T>> {
    var s := Moved(fs, p.attrOld, p.attr, f.backAttr).0;
    [s] + UndoBoth(s, p, f)
  }

  /** The states a call passes through, one for each rename, and its return value. */
  datatype Outcome<T> = Outcome(trace: seq<map<string, T>>, ok: bool)

  function Final<T>(fs: map<string, T>, r: Outcome<T>): map<string, T> {
    if r.trace == [] then fs else r.trace[|r.trace| - 1]
  }

  /** Which calls the system refuses. A refused stat reports an error other than `no such file`. */
  datatype SerialFaults = SerialFaults(statSerial: bool, toOld: bool, toLive: bool, back: bool)

  datatype IndexFaults = IndexFaults(
    statDb: bool, dbToOld: bool, newToDb: bool,
    statAttr: bool, attrToOld: bool, newToAttr: bool,
    backAttr: bool, backNew: bool, backDb: bool)

  function RotateSerial<T>(fs: map<string, T>, live: string, new_: string, old_: string, f: SerialFaults): Outcome<T> {
    if f.statSerial then Outcome([], false)
    else
      var (s1, ok1) := if live in fs then Moved(fs, live, old_, f.toOld) else (fs, true);
      var t1 := if live in fs then [s1] else [];
      if !ok1 then Outcome(t1, false)
      else
        var (s2, ok2) := Moved(s1, new_, live, f.toLive);
        if !ok2 then Outcome(t1 + [s2] + UndoDb(s2, old_, live, f.back), false)
        else Outcome(t1 + [s2], true)
  }

  /** The second half of rotate_index, from the attribute file on. */
  function RotateAttr<T>(fs: map<string, T>, p: Paths, f: IndexFaults): Outcome<T> {
    if f.statAttr then Outcome([], false)
    else
      var (s3, ok3) := if p.attr in fs then Moved(fs, p.attr, p.attrOld, f.attrToOld) else (fs, true);
      var t3 := if p.attr in fs then [s3] else [];
      if !ok3 then
        Outcome(t3 + UndoBoth(s3, p, f), false)
      else
        var (s4, ok4) := Moved(s3, p.attrNew, p.attr, f.newToAttr);
        if !ok4 then Outcome(t3 + [s4] + UndoAll(s4, p, f), false) else Outcome(t3 + [s4], true)
  }

  function RotateIndex<T>(fs: map<string, T>, p: Paths, f: IndexFaults): Outcome<T> {
    var first := RotateSerial(fs, p.db, p.dbNew, p.dbOld, SerialFaults(f.statDb, f.dbToOld, f.newToDb, f.backDb));
    if !first.ok then first
    else
      var second := RotateAttr(Final(fs, first), p, f);
      Outcome(first.trace + second.trace, second.ok)
  }

  // ---- the methods ----

  method DoRotateSerial<T>(disk: Disk<T>, serialfile: string, new_: string, old_: string, f: SerialFaults)
    returns (ok: bool)
    modifies disk
    ensures Longer(|serialfile| + |old_|, |serialfile| + |new_|) + 1 >= BSIZE ==>
              !ok && disk.files == old(disk.files) && disk.history == old(disk.history)
    ensures Longer(|serialfile| + |old_|, |serialfile| + |new_|) + 1 < BSIZE ==>
              var r := RotateSerial(old(disk.files), serialfile, serialfile + "." + new_, serialfile + "." + old_, f);
              ok == r.ok && disk.files == Final(old(disk.files), r) && disk.history == old(disk.history) + r.trace
  {
    if Longer(|serialfile| + |old_|, |serialfile| + |new_|) + 1 >= BSIZE {
      return false;
    }
    var buf0, buf1 := Snprintf(serialfile + "." + new_), Snprintf(serialfile + "." + old_);
    ok := RenameSerial(disk, serialfile, buf0, buf1, f);
  }

  method RenameSerial<T>(disk: Disk<T>, live: string, new_: string, old_: string, f: SerialFaults) returns (ok: bool)
    modifies disk
    ensures var r := RotateSerial(old(disk.files), live, new_, old_, f);
            ok == r.ok && disk.files == Final(old(disk.files), r) && disk.history == old(disk.history) + r.trace
  {
    if f.statSerial {
      return false;
    }
    if live in disk.files {
      ok := disk.Rename(live, old_, f.toOld);
      if !ok {
        return;
      }
    }
    ok := disk.Rename(new_, live, f.toLive);
    if !ok {
      var ignored := disk.Rename(old_, live, f.back);
    }
  }

  /** The first renames of rotate_index are those of rotate_serial on the database file. */
  method DoRotateIndex<T>(disk: Disk<T>, dbfile: string, new_: string, old_: string, f: IndexFaults) returns (ok: bool)
    modifies disk
    ensures TooLong(dbfile, new_, old_) ==> !ok && disk.files == old(disk.files) && disk.history == old(disk.history)
    ensures !TooLong(dbfile, new_, old_) ==>
              var r := RotateIndex(old(disk.files), IndexPaths(dbfile, new_, old_), f);
              ok == r.ok && disk.files == Final(old(disk.files), r) && disk.history == old(disk.history) + r.trace
  {
    hide RotateSerial, RotateAttr, IndexPaths;
    if TooLong(dbfile, new_, old_) {
      return false;
    }
    var p := IndexPaths(dbfile, new_, old_);
    ok := RenameSerial(disk, p.db, p.dbNew, p.dbOld, SerialFaults(f.statDb, f.dbToOld, f.newToDb, f.backDb));
    if ok {
      ok := RenameAttr(disk, p, f);
    }
  }

  method RenameAttr<T>(disk: Disk<T>, p: Paths, f: IndexFaults) returns (ok: bool)
    modifies disk
    ensures var r := RotateAttr(old(disk.files), p, f);
            ok == r.ok && disk.files == Final(old(disk.files), r) && disk.history == old(disk.history) + r.trace
  {
    hide UndoBoth, UndoAll, Moved;
    if f.statAttr {
      return false;
    }
    if p.attr in disk.files {
      ok := disk.Rename(p.attr, p.attrOld, f.attrToOld);
      if !ok {
        RollBackBoth(disk, p, f);
        return;
      }
    }
    ok := disk.Rename(p.attrNew, p.attr, f.newToAttr);
    if !ok {
      RollBackAll(disk, p, f);
    }
  }

  method RollBackBoth<T>(disk: Disk<T>, p: Paths, f: IndexFaults)
    modifies disk
    ensures var t := UndoBoth(old(disk.files), p, f);
            |t| > 0 && disk.files == t[|t| - 1] && disk.history == old(disk.history) + t
  {
    var ignored := disk.Rename(p.db, p.dbNew, f.backNew);
    ignored := disk.Rename(p.dbOld, p.db, f.backDb);
  }

  method RollBackAll<T>(disk: Disk<T>, p: Paths, f: IndexFaults)
    modifies disk
    ensures var t := UndoAll(old(disk.files), p, f);
            |t| > 0 && disk.files == t[|t| - 1] && disk.history == old(disk.history) + t
  {
    var ignored := disk.Rename(p.attrOld, p.attr, f.backAttr);
    RollBackBoth(disk, p, f);
  }

  // ---- no data is lost ----

  predicate Same<T(==)>(a: map<string, T>, b: map<string, T>, p: string) {
    (p in a <==> p in b) && (p in a ==> a[p] == b[p])
  }

  /** The contents `c` are under one of two names. */
  predicate Held<T(==)>(fs: map<string, T>, a: string, b: string, c: T) {
    (a in fs && fs[a] == c) || (b in fs && fs[b] == c)
  }

  ghost predicate AlwaysHeld<T>(trace: seq<map<string, T>>, a: string, b: string, c: T) {
    forall i :: 0 <= i < |trace| ==> Held(trace[i], a, b, c)
  }

  /** The serial rotation: in every state the previous serial is live or `.old`, and the new one is
      `.new` or live, whatever fails. */
  lemma SerialNeverLost<T>(fs: map<string, T>, live: string, new_: string, old_: string, f: SerialFaults)
    requires live != new_ && live != old_ && new_ != old_
    requires live in fs && new_ in fs
    ensures var r := RotateSerial(fs, live, new_, old_, f);
            AlwaysHeld(r.trace, live, old_, fs[live]) && AlwaysHeld(r.trace, new_, live, fs[new_])
  {
  }

  /** Where the first half leaves things when it succeeds. */
  lemma DbRotated<T>(fs: map<string, T>, p: Paths, f: IndexFaults)
    requires Distinct(p) && p.db in fs && p.dbNew in fs
    ensures var r := RotateSerial(fs, p.db, p.dbNew, p.dbOld, SerialFaults(f.statDb, f.dbToOld, f.newToDb, f.backDb));
            && (r.ok <==> !f.statDb && !f.dbToOld && !f.newToDb)
            && (r.ok ==> var s := Final(fs, r);
                         && p.db in s && s[p.db] == fs[p.dbNew] && p.dbNew !in s
                         && p.dbOld in s && s[p.dbOld] == fs[p.db]
                         && Same(s, fs, p.attr) && Same(s, fs, p.attrNew) && Same(s, fs, p.attrOld))
            && AlwaysSame(r.trace, fs, p.attr) && AlwaysSame(r.trace, fs, p.attrNew)
  {
  }

  ghost predicate AlwaysSame<T>(trace: seq<map<string, T>>, fs: map<string, T>, q: string) {
    forall i :: 0 <= i < |trace| ==> Same(trace[i], fs, q)
  }

  lemma UndoKeepsOldDb<T>(s: map<string, T>, p: Paths, f: IndexFaults, c: T)
    requires Distinct(p) && p.dbOld in s && s[p.dbOld] == c
    ensures AlwaysHeld(UndoBoth(s, p, f), p.db, p.dbOld, c)
  {
  }

  /** From there on the previous database stays where it is until the very last rename. */
  lemma AttrKeepsOldDb<T>(s: map<string, T>, p: Paths, f: IndexFaults, c: T)
    requires Distinct(p) && p.dbOld in s && s[p.dbOld] == c
    ensures AlwaysHeld(RotateAttr(s, p, f).trace, p.db, p.dbOld, c)
  {
    hide UndoBoth;
    var s3 := if p.attr in s then Moved(s, p.attr, p.attrOld, f.attrToOld).0 else s;
    var s4 := Moved(s3, p.attrNew, p.attr, f.newToAttr).0;
    UndoKeepsOldDb(s3, p, f, c);
    UndoKeepsOldDb(Moved(s4, p.attrOld, p.attr, f.backAttr).0, p, f, c);
  }

  /** The rollback of the database does not touch the attribute files. */
  lemma UndoKeepsAttr<T>(s: map<string, T>, p: Paths, f: IndexFaults)
    requires Distinct(p)
    ensures AlwaysSame(UndoBoth(s, p, f), s, p.attr) && AlwaysSame(UndoBoth(s, p, f), s, p.attrNew)
    ensures AlwaysSame(UndoBoth(s, p, f), s, p.attrOld)
  {
  }

  lemma AttrKeepsAttr<T>(s: map<string, T>, p: Paths, f: IndexFaults, c: T)
    requires Distinct(p)
    ensures p.attr in s && s[p.attr] == c ==> AlwaysHeld(RotateAttr(s, p, f).trace, p.attr, p.attrOld, c)
    ensures p.attrNew in s && s[p.attrNew] == c ==> AlwaysHeld(RotateAttr(s, p, f).trace, p.attrNew, p.attr, c)
  {
    hide UndoBoth;
    var s3 := if p.attr in s then Moved(s, p.attr, p.attrOld, f.attrToOld).0 else s;
    var s4 := Moved(s3, p.attrNew, p.attr, f.newToAttr).0;
    var s5 := Moved(s4, p.attrOld, p.attr, f.backAttr).0;
    UndoKeepsAttr(s3, p, f);
    UndoKeepsAttr(s5, p, f);
  }

  /** The previous database, the previous attribute file if there is one, and the new attribute file
      are in every state under one of their two names. */
  lemma OldNeverLost<T>(fs: map<string, T>, p: Paths, f: IndexFaults)
    requires Distinct(p) && p.db in fs && p.dbNew in fs
    ensures AlwaysHeld(RotateIndex(fs, p, f).trace, p.db, p.dbOld, fs[p.db])
    ensures p.attr in fs ==> AlwaysHeld(RotateIndex(fs, p, f).trace, p.attr, p.attrOld, fs[p.attr])
    ensures p.attrNew in fs ==> AlwaysHeld(RotateIndex(fs, p, f).trace, p.attrNew, p.attr, fs[p.attrNew])
  {
    var sf := SerialFaults(f.statDb, f.dbToOld, f.newToDb, f.backDb);
    var first := RotateSerial(fs, p.db, p.dbNew, p.dbOld, sf);
    SerialNeverLost(fs, p.db, p.dbNew, p.dbOld, sf);
    DbRotated(fs, p, f);
    if first.ok {
      AttrKeepsOldDb(Final(fs, first), p, f, fs[p.db]);
      if p.attr in fs { AttrKeepsAttr(Final(fs, first), p, f, fs[p.attr]); }
      if p.attrNew in fs { AttrKeepsAttr(Final(fs, first), p, f, fs[p.attrNew]); }
    }
  }

  /** The rollback that overwrites the new database: the attribute renames failed after the database
      was rotated, moving the new database back out is refused, and moving the old one back in works. */
  predicate Overwrites<T>(fs: map<string, T>, p: Paths, f: IndexFaults) {
    && !f.statDb && !f.dbToOld && !f.newToDb && !f.statAttr
    && ((p.attr in fs && f.attrToOld) || p.attrNew !in fs || f.newToAttr)
    && f.backNew && !f.backDb
  }

  lemma UndoLosesNewIff<T>(s: map<string, T>, p: Paths, f: IndexFaults, c: T)
    requires Distinct(p) && p.db in s && s[p.db] == c && p.dbNew !in s && p.dbOld in s && s[p.dbOld] != c
    ensures AlwaysHeld(UndoBoth(s, p, f), p.dbNew, p.db, c) <==> !(f.backNew && !f.backDb)
  {
    var t := UndoBoth(s, p, f);
    assert Held(t[0], p.dbNew, p.db, c);
    assert Held(t[1], p.dbNew, p.db, c) <==> !(f.backNew && !f.backDb);
  }

  lemma HeldConcat<T>(t: seq<map<string, T>>, u: seq<map<string, T>>, a: string, b: string, c: T)
    ensures AlwaysHeld(t + u, a, b, c) <==> AlwaysHeld(t, a, b, c) && AlwaysHeld(u, a, b, c)
  {
    if AlwaysHeld(t + u, a, b, c) {
      assert forall i :: 0 <= i < |t| ==> (t + u)[i] == t[i];
      assert forall i :: 0 <= i < |u| ==> (t + u)[|t| + i] == u[i];
    }
  }

  lemma HeldOne<T>(s: map<string, T>, a: string, b: string, c: T)
    ensures AlwaysHeld([], a, b, c) && (AlwaysHeld([s], a, b, c) <==> Held(s, a, b, c))
  {
    if AlwaysHeld([s], a, b, c) { assert Held([s][0], a, b, c); }
  }

  lemma AttrLosesNewIff<T>(s: map<string, T>, p: Paths, f: IndexFaults, c: T)
    requires Distinct(p) && p.db in s && s[p.db] == c && p.dbNew !in s && p.dbOld in s && s[p.dbOld] != c
    ensures AlwaysHeld(RotateAttr(s, p, f).trace, p.dbNew, p.db, c) <==>
            !(!f.statAttr && ((p.attr in s && f.attrToOld) || p.attrNew !in s || f.newToAttr) && f.backNew && !f.backDb)
  {
    hide Moved, UndoBoth, AlwaysHeld;
    HeldOne(s, p.dbNew, p.db, c);
    if !f.statAttr {
      var (s3, ok3) := if p.attr in s then Moved(s, p.attr, p.attrOld, f.attrToOld) else (s, true);
      var t3 := if p.attr in s then [s3] else [];
      HeldOne(s3, p.dbNew, p.db, c);
      UndoLosesNewIff(s3, p, f, c);
      HeldConcat(t3, UndoBoth(s3, p, f), p.dbNew, p.db, c);
      if ok3 {
        var s4 := Moved(s3, p.attrNew, p.attr, f.newToAttr).0;
        var s5 := Moved(s4, p.attrOld, p.attr, f.backAttr).0;
        UndoLosesNewIff(s5, p, f, c);
        HeldOne(s4, p.dbNew, p.db, c);
        HeldOne(s5, p.dbNew, p.db, c);
        HeldConcat(t3 + [s4], UndoAll(s4, p, f), p.dbNew, p.db, c);
        HeldConcat([s5], UndoBoth(s5, p, f), p.dbNew, p.db, c);
        HeldConcat(t3, [s4], p.dbNew, p.db, c);
      }
    }
  }

  /** The new database is in every state under `.new` or live, except in that rollback. */
  lemma NewLostIff<T>(fs: map<string, T>, p: Paths, f: IndexFaults)
    requires Distinct(p) && p.db in fs && p.dbNew in fs && fs[p.db] != fs[p.dbNew]
    ensures AlwaysHeld(RotateIndex(fs, p, f).trace, p.dbNew, p.db, fs[p.dbNew]) <==> !Overwrites(fs, p, f)
  {
    var sf := SerialFaults(f.statDb, f.dbToOld, f.newToDb, f.backDb);
    var first := RotateSerial(fs, p.db, p.dbNew, p.dbOld, sf);
    SerialNeverLost(fs, p.db, p.dbNew, p.dbOld, sf);
    DbRotated(fs, p, f);
    if first.ok {
      var mid := Final(fs, first);
      AttrLosesNewIff(mid, p, f, fs[p.dbNew]);
      HeldConcat(first.trace, RotateAttr(mid, p, f).trace, p.dbNew, p.db, fs[p.dbNew]);
    }
  }

  /** The loss is real: with the attribute rename and the first rollback rename refused, no file holds
      the new database any more. */
  lemma NewLostExample()
    ensures var p := Paths("i", "i.new", "i.old", "i.attr", "i.attr.new", "i.attr.old");
            var fs := map["i" := 1, "i.new" := 2, "i.attr" := 3, "i.attr.new" := 4];
            var f := IndexFaults(false, false, false, false, true, false, false, true, false);
            Distinct(p) && 2 !in Final(fs, RotateIndex(fs, p, f)).Values
  {
    var p := Paths("i", "i.new", "i.old", "i.attr", "i.attr.new", "i.attr.old");
    var fs := map["i" := 1, "i.new" := 2, "i.attr" := 3, "i.attr.new" := 4];
    var f := IndexFaults(false, false, false, false, true, false, false, true, false);
    assert Final(fs, RotateIndex(fs, p, f)) == map["i" := 1, "i.attr" := 3, "i.attr.new" := 4];
  }

  // ---- all or nothing ----

  predicate NoRollbackFault(f: IndexFaults) { !f.backAttr && !f.backNew && !f.backDb }

  /** On success both live files hold the new contents and both `.old` files the previous ones. */
  lemma CommitComplete<T>(fs: map<string, T>, p: Paths, f: IndexFaults)
    requires Distinct(p) && p.db in fs && RotateIndex(fs, p, f).ok
    ensures p.dbNew in fs && p.attrNew in fs
    ensures var s := Final(fs, RotateIndex(fs, p, f));
            && p.db in s && s[p.db] == fs[p.dbNew] && p.dbOld in s && s[p.dbOld] == fs[p.db]
            && p.attr in s && s[p.attr] == fs[p.attrNew]
            && (p.attr in fs ==> p.attrOld in s && s[p.attrOld] == fs[p.attr])
            && p.dbNew !in s && p.attrNew !in s
  {
  }

  /** When the rollback renames work, a failed rotation leaves both live files and both `.new` files
      as they were, except when the attribute file could not be examined (there is no rollback then)
      or did not exist while a stale `.attr.old` did (the rollback puts that one in its place). */
  lemma FailureUndoneIff<T>(fs: map<string, T>, p: Paths, f: IndexFaults)
    requires Distinct(p) && p.db in fs && p.dbNew in fs && p.attrNew in fs
    requires !RotateIndex(fs, p, f).ok && NoRollbackFault(f)
    ensures var s := Final(fs, RotateIndex(fs, p, f));
            (Same(s, fs, p.db) && Same(s, fs, p.dbNew) && Same(s, fs, p.attr) && Same(s, fs, p.attrNew))
            <==>
            (f.statDb || f.dbToOld || f.newToDb || (!f.statAttr && (p.attr in fs || p.attrOld !in fs)))
  {
    hide RotateSerial, RotateAttr;
    var sf := SerialFaults(f.statDb, f.dbToOld, f.newToDb, f.backDb);
    var first := RotateSerial(fs, p.db, p.dbNew, p.dbOld, sf);
    DbRotated(fs, p, f);
    if first.ok {
      AttrUndoneIff(Final(fs, first), p, f);
    } else {
      SerialFailureUndone(fs, p.db, p.dbNew, p.dbOld, sf);
      FinalSame(fs, first, p.attr);
      FinalSame(fs, first, p.attrNew);
    }
  }

  /** The failed second half: without a rollback nothing changed, otherwise the database is back. */
  lemma AttrUndoneIff<T>(s: map<string, T>, p: Paths, f: IndexFaults)
    requires Distinct(p) && p.db in s && p.dbNew !in s && p.dbOld in s && p.attrNew in s
    requires !RotateAttr(s, p, f).ok && NoRollbackFault(f)
    ensures var e := Final(s, RotateAttr(s, p, f));
            if f.statAttr then e == s
            else
              && p.db in e && e[p.db] == s[p.dbOld] && p.dbNew in e && e[p.dbNew] == s[p.db] && Same(e, s, p.attrNew)
              && (Same(e, s, p.attr) <==> p.attr in s || p.attrOld !in s)
  {
  }

  /** Such a failure: with no attribute file, a stale `.attr.old` and the last rename refused, the call
      fails and leaves the stale file as the live attribute file. */
  lemma FailureNotUndoneExample()
    ensures var p := Paths("i", "i.new", "i.old", "i.attr", "i.attr.new", "i.attr.old");
            var fs := map["i" := 1, "i.new" := 2, "i.attr.new" := 4, "i.attr.old" := 5];
            var f := IndexFaults(false, false, false, false, false, true, false, false, false);
            var r := RotateIndex(fs, p, f); var s := Final(fs, r);
            Distinct(p) && !r.ok && NoRollbackFault(f) && "i.attr" in s && s["i.attr"] == 5
  {
  }

  lemma SerialFailureUndone<T>(fs: map<string, T>, live: string, new_: string, old_: string, f: SerialFaults)
    requires live != new_ && live != old_ && new_ != old_ && live in fs && new_ in fs
    requires !f.back
    ensures var r := RotateSerial(fs, live, new_, old_, f); var s := Final(fs, r);
            if r.ok then live in s && s[live] == fs[new_] && old_ in s && s[old_] == fs[live]
            else Same(s, fs, live) && Same(s, fs, new_)
  {
  }

  // ---- what the live file can hold on the way ----

  /** The live name is free or holds one of two contents. */
  ghost predicate AlwaysOneOf<T>(trace: seq<map<string, T>>, live: string, a: T, b: T) {
    forall i :: 0 <= i < |trace| ==> live in trace[i] ==> trace[i][live] == a || trace[i][live] == b
  }

  lemma SerialLive<T>(fs: map<string, T>, live: string, new_: string, old_: string, f: SerialFaults, q: string)
    requires live != new_ && live != old_ && new_ != old_ && live in fs && new_ in fs
    requires q != live && q != new_ && q != old_
    ensures var r := RotateSerial(fs, live, new_, old_, f);
            && AlwaysOneOf(r.trace, live, fs[live], fs[new_]) && AlwaysSame(r.trace, fs, q)
            && (r.ok ==> live in Final(fs, r) && Final(fs, r)[live] == fs[new_])
            && Same(Final(fs, r), fs, q)
  {
  }

  lemma UndoLive<T>(s: map<string, T>, p: Paths, f: IndexFaults, a: T, b: T)
    requires Distinct(p) && p.db in s && s[p.db] == b && p.dbOld in s && s[p.dbOld] == a
    ensures AlwaysOneOf(UndoBoth(s, p, f), p.db, a, b)
  {
  }

  lemma AttrLive<T>(s: map<string, T>, p: Paths, f: IndexFaults, a: T, b: T)
    requires Distinct(p) && p.db in s && s[p.db] == b && p.dbOld in s && s[p.dbOld] == a
    ensures AlwaysOneOf(RotateAttr(s, p, f).trace, p.db, a, b)
    ensures RotateAttr(s, p, f).ok ==> p.db in Final(s, RotateAttr(s, p, f)) && Final(s, RotateAttr(s, p, f))[p.db] == b
  {
    hide UndoBoth;
    var s3 := if p.attr in s then Moved(s, p.attr, p.attrOld, f.attrToOld).0 else s;
    var s4 := Moved(s3, p.attrNew, p.attr, f.newToAttr).0;
    UndoLive(s3, p, f, a, b);
    UndoLive(Moved(s4, p.attrOld, p.attr, f.backAttr).0, p, f, a, b);
  }

  ghost predicate Foreign(p: Paths, q: string) {
    q != p.db && q != p.dbNew && q != p.dbOld && q != p.attr && q != p.attrNew && q != p.attrOld
  }

  lemma AttrForeign<T>(s: map<string, T>, p: Paths, f: IndexFaults, q: string)
    requires Foreign(p, q)
    ensures AlwaysSame(RotateAttr(s, p, f).trace, s, q)
  {
    hide UndoBoth, Moved;
    var s3 := if p.attr in s then Moved(s, p.attr, p.attrOld, f.attrToOld).0 else s;
    var s4 := Moved(s3, p.attrNew, p.attr, f.newToAttr).0;
    UndoForeign(s3, p, f, q);
    UndoForeign(Moved(s4, p.attrOld, p.attr, f.backAttr).0, p, f, q);
  }

  lemma UndoForeign<T>(s: map<string, T>, p: Paths, f: IndexFaults, q: string)
    requires Foreign(p, q)
    ensures AlwaysSame(UndoBoth(s, p, f), s, q)
  {
  }

  lemma FinalSame<T>(fs: map<string, T>, r: Outcome<T>, q: string)
    requires AlwaysSame(r.trace, fs, q)
    ensures Same(Final(fs, r), fs, q)
  {
  }

  /** Throughout a rotation of the database the live name holds the previous or the new database, if
      anything, and no other file is touched; after success it holds the new one. */
  lemma IndexLive<T>(fs: map<string, T>, p: Paths, f: IndexFaults, q: string)
    requires Distinct(p) && p.db in fs && p.dbNew in fs && Foreign(p, q)
    ensures var r := RotateIndex(fs, p, f);
            && AlwaysOneOf(r.trace, p.db, fs[p.db], fs[p.dbNew]) && AlwaysSame(r.trace, fs, q)
            && (r.ok ==> p.db in Final(fs, r) && Final(fs, r)[p.db] == fs[p.dbNew])
  {
    var sf := SerialFaults(f.statDb, f.dbToOld, f.newToDb, f.backDb);
    var first := RotateSerial(fs, p.db, p.dbNew, p.dbOld, sf);
    SerialLive(fs, p.db, p.dbNew, p.dbOld, sf, q);
    DbRotated(fs, p, f);
    if first.ok {
      AttrLive(Final(fs, first), p, f, fs[p.db], fs[p.dbNew]);
      AttrForeign(Final(fs, first), p, f, q);
    }
  }

  // ---- what the attribute files can hold on the way ----

  /** Whatever attribute files there are hold `a`. */
  ghost predicate AttrFilesHold<T>(fs: map<string, T>, p: Paths, a: T) {
    forall q :: q in {p.attr, p.attrNew, p.attrOld} && q in fs ==> fs[q] == a
  }

  ghost predicate AlwaysHold<T>(trace: seq<map<string, T>>, p: Paths, a: T) {
    forall i :: 0 <= i < |trace| ==> AttrFilesHold(trace[i], p, a)
  }

  /** A rename within the attribute files or outside them. */
  lemma RenameHolds<T>(fs: map<string, T>, p: Paths, from: string, to: string, refused: bool, a: T)
    requires AttrFilesHold(fs, p, a)
    requires from in {p.attr, p.attrNew, p.attrOld} <==> to in {p.attr, p.attrNew, p.attrOld}
    ensures AttrFilesHold(Moved(fs, from, to, refused).0, p, a)
  {
  }

  lemma UndoHolds<T>(s: map<string, T>, p: Paths, f: IndexFaults, a: T)
    requires Distinct(p) && AttrFilesHold(s, p, a)
    ensures AlwaysHold(UndoBoth(s, p, f), p, a)
  {
    hide AttrFilesHold, Moved;
    var s1 := Moved(s, p.db, p.dbNew, f.backNew).0;
    RenameHolds(s, p, p.db, p.dbNew, f.backNew, a);
    RenameHolds(s1, p, p.dbOld, p.db, f.backDb, a);
  }

  lemma AttrHolds<T>(s: map<string, T>, p: Paths, f: IndexFaults, a: T)
    requires Distinct(p) && AttrFilesHold(s, p, a)
    ensures AlwaysHold(RotateAttr(s, p, f).trace, p, a)
  {
    hide AttrFilesHold, Moved, UndoBoth, Distinct;
    var s3 := if p.attr in s then Moved(s, p.attr, p.attrOld, f.attrToOld).0 else s;
    var s4 := Moved(s3, p.attrNew, p.attr, f.newToAttr).0;
    var s5 := Moved(s4, p.attrOld, p.attr, f.backAttr).0;
    RenameHolds(s, p, p.attr, p.attrOld, f.attrToOld, a);
    RenameHolds(s3, p, p.attrNew, p.attr, f.newToAttr, a);
    RenameHolds(s4, p, p.attrOld, p.attr, f.backAttr, a);
    UndoHolds(s3, p, f, a);
    UndoHolds(s5, p, f, a);
  }

  lemma DbHolds<T>(fs: map<string, T>, p: Paths, f: SerialFaults, a: T)
    requires Distinct(p) && AttrFilesHold(fs, p, a)
    ensures AlwaysHold(RotateSerial(fs, p.db, p.dbNew, p.dbOld, f).trace, p, a)
  {
    hide AttrFilesHold, Moved;
    var s1 := if p.db in fs then Moved(fs, p.db, p.dbOld, f.toOld).0 else fs;
    var s2 := Moved(s1, p.dbNew, p.db, f.toLive).0;
    RenameHolds(fs, p, p.db, p.dbOld, f.toOld, a);
    RenameHolds(s1, p, p.dbNew, p.db, f.toLive, a);
    RenameHolds(s2, p, p.dbOld, p.db, f.back, a);
  }

  /** When all attribute files agree before a rotation, they do in each of its states. */
  lemma IndexHolds<T>(fs: map<string, T>, p: Paths, f: IndexFaults, a: T)
    requires Distinct(p) && AttrFilesHold(fs, p, a)
    ensures AlwaysHold(RotateIndex(fs, p, f).trace, p, a)
  {
    hide AttrFilesHold, RotateSerial, RotateAttr, Distinct;
    var sf := SerialFaults(f.statDb, f.dbToOld, f.newToDb, f.backDb);
    DbHolds(fs, p, sf, a);
    var first := RotateSerial(fs, p.db, p.dbNew, p.dbOld, sf);
    if first.ok { AttrHolds(Final(fs, first), p, f, a); }
  }

  /** Between the attribute renames the new database is live and no attribute file is. */
  lemma NoAttrInBetween<T>(fs: map<string, T>, p: Paths, f: IndexFaults)
    requires Distinct(p) && p.db in fs && p.attr in fs && RotateIndex(fs, p, f).ok
    ensures var t := RotateIndex(fs, p, f).trace;
            |t| == 4 && p.dbNew in fs && p.db in t[2] && t[2][p.db] == fs[p.dbNew] && p.attr !in t[2]
  {
  }

  // ---- when a rotation succeeds ----

  /** rotate_serial returns 1 exactly when the live file can be examined, moved aside if it is there, and
      replaced by a new file that is there. */
  lemma SerialOkIff<T>(fs: map<string, T>, live: string, new_: string, old_: string, f: SerialFaults)
    requires live != new_ && live != old_ && new_ != old_
    ensures var r := RotateSerial(fs, live, new_, old_, f); var s := Final(fs, r);
            && (r.ok <==> !f.statSerial && !(live in fs && f.toOld) && new_ in fs && !f.toLive)
            && (r.ok ==> live in s && s[live] == fs[new_] && new_ !in s
                         && (live in fs ==> old_ in s && s[old_] == fs[live]))
  {
  }

  lemma AttrOkIff<T>(s: map<string, T>, p: Paths, f: IndexFaults)
    requires Distinct(p)
    ensures RotateAttr(s, p, f).ok <==>
            !f.statAttr && !(p.attr in s && f.attrToOld) && p.attrNew in s && !f.newToAttr
  {
    hide UndoBoth, UndoAll;
  }

  lemma SerialKeeps<T>(fs: map<string, T>, live: string, new_: string, old_: string, f: SerialFaults, q: string)
    requires q != live && q != new_ && q != old_
    ensures Same(Final(fs, RotateSerial(fs, live, new_, old_, f)), fs, q)
  {
  }

  /** rotate_index returns 1 exactly when this holds of both files, whatever the rollback could do. */
  lemma IndexOkIff<T>(fs: map<string, T>, p: Paths, f: IndexFaults)
    requires Distinct(p)
    ensures RotateIndex(fs, p, f).ok <==>
            && !f.statDb && !(p.db in fs && f.dbToOld) && p.dbNew in fs && !f.newToDb
            && !f.statAttr && !(p.attr in fs && f.attrToOld) && p.attrNew in fs && !f.newToAttr
  {
    var sf := SerialFaults(f.statDb, f.dbToOld, f.newToDb, f.backDb);
    var first := RotateSerial(fs, p.db, p.dbNew, p.dbOld, sf);
    SerialOkIff(fs, p.db, p.dbNew, p.dbOld, sf);
    SerialKeeps(fs, p.db, p.dbNew, p.dbOld, sf, p.attr);
    SerialKeeps(fs, p.db, p.dbNew, p.dbOld, sf, p.attrNew);
    hide RotateSerial, RotateAttr;
    if first.ok { AttrOkIff(Final(fs, first), p, f); }
  }
}
