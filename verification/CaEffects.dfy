/** What a run that gets to its end has done to the files, and when it gets there. */
module CaEffects {
  import opened Options
  import opened TxtDbFile
  import opened FileSystem
  import opened CaDatabase
  import opened Rotation
  import opened Positions
  import opened CaRuns
  import opened CaHistories
  import CaSessions
  import SerialNames
  import SerialNumberFile
  import Expiry
  import Revocation

  // ---- saving and rotating the database ----

  ghost predicate AttrIs(fs: World, c: Config, unique: bool) {
    c.index.attr in fs && fs[c.index.attr] == AttrFile(unique)
  }

  /** The writes and renames that have to work; a rollback does not count. */
  predicate Forward(f: StoreFaults) {
    && f.save.db.Completed? && f.save.attr.Completed?
    && !f.rotate.statDb && !f.rotate.dbToOld && !f.rotate.newToDb
    && !f.rotate.statAttr && !f.rotate.attrToOld && !f.rotate.newToAttr
  }

  lemma SaveIndexEnds(fs: World, c: Config, db: Db, f: SaveFaults)
    requires Separate(c)
    ensures var r := SaveIndex(fs, c, db, f); var s := Final(fs, r);
            && (r.ok <==> c.indexFits && f.db.Completed? && f.attr.Completed?)
            && (r.ok ==> && c.index.dbNew in s && s[c.index.dbNew] == IndexFile(db.rows)
                         && c.index.attrNew in s && s[c.index.attrNew] == AttrFile(db.unique))
  {
  }

  /** Saving and rotating gets to its end when the name fits and nothing fails, and then database and
      attribute file are live and the previous database is kept aside. */
  lemma StoreEnds(fs: World, c: Config, before: seq<Row>, db: Db, f: StoreFaults)
    requires Separate(c) && Live(fs, c, before)
    ensures var r := StoreIndex(fs, c, db, f.save, f.rotate); var s := Final(fs, r);
            && (r.ok ==> c.indexFits && Live(s, c, db.rows) && AttrIs(s, c, db.unique)
                         && c.index.dbOld in s && s[c.index.dbOld] == IndexFile(before) && r.trace != [])
            && (c.indexFits && Forward(f) ==> r.ok)
  {
    hide RotateIndex, SaveIndex;
    var saved := SaveIndex(fs, c, db, f.save);
    var mid := Final(fs, saved);
    SaveIndexLive(fs, c, db, f.save);
    SaveIndexEnds(fs, c, db, f.save);
    if saved.ok {
      IndexOkIff(mid, c.index, f.rotate);
      if RotateIndex(mid, c.index, f.rotate).ok {
        CommitComplete(mid, c.index, f.rotate);
        RotationNotEmpty(mid, c.index, f.rotate);
      }
    }
  }

  lemma RotationNotEmpty(fs: World, p: Paths, f: IndexFaults)
    ensures RotateIndex(fs, p, f).ok ==> RotateIndex(fs, p, f).trace != []
  {
    hide RotateSerial;
  }

  // ---- the commit ----

  predicate ForwardCommit(f: CommitFaults) {
    && f.serial.Completed? && !f.rotate.statSerial && !f.rotate.toOld && !f.rotate.toLive
    && Forward(f.store)
  }

  lemma SaveBothEnds(fs: World, c: Config, db: Db, serial: Content, serialFault: WriteFault, f: SaveFaults)
    requires Separate(c)
    ensures var r := SaveBoth(fs, c, db, serial, serialFault, f); var s := Final(fs, r);
            && (r.ok <==> c.serialFits && c.indexFits && serialFault.Completed? && f.db.Completed? && f.attr.Completed?)
            && (r.ok ==> && c.serialNew in s && s[c.serialNew] == serial
                         && c.index.dbNew in s && s[c.index.dbNew] == IndexFile(db.rows)
                         && c.index.attrNew in s && s[c.index.attrNew] == AttrFile(db.unique)
                         && Same(s, fs, c.serial) && Same(s, fs, c.index.db) && r.trace != [])
  {
    hide SaveIndex;
    var s1 := SaveSerial(fs, c, serial, serialFault);
    SaveIndexEnds(Final(fs, s1), c, db, f);
    SaveBothLive(fs, c, db, serial, serialFault, f);
  }

  /** Both files are rotated, the serial file first. */
  lemma RotateBothEnds(fs: World, c: Config, before: seq<Row>, n: nat, serial: Content, db: Db, f: CommitFaults)
    requires Separate(c) && Live(fs, c, before) && SerialIs(fs, c, SerialFile(n))
    requires c.serialNew in fs && fs[c.serialNew] == serial
    requires c.index.dbNew in fs && fs[c.index.dbNew] == IndexFile(db.rows)
    requires c.index.attrNew in fs && fs[c.index.attrNew] == AttrFile(db.unique)
    ensures var r := RotateBoth(fs, c, f.rotate, f.store.rotate); var s := Final(fs, r);
            && (r.ok ==> Live(s, c, db.rows) && AttrIs(s, c, db.unique) && SerialIs(s, c, serial))
            && (ForwardCommit(f) ==> r.ok)
  {
    var s1 := RotateSerial(fs, c.serial, c.serialNew, c.serialOld, f.rotate);
    var mid := Final(fs, s1);
    SerialOkIff(fs, c.serial, c.serialNew, c.serialOld, f.rotate);
    SerialKeeps(fs, c.serial, c.serialNew, c.serialOld, f.rotate, c.index.db);
    SerialKeeps(fs, c.serial, c.serialNew, c.serialOld, f.rotate, c.index.dbNew);
    SerialKeeps(fs, c.serial, c.serialNew, c.serialOld, f.rotate, c.index.attrNew);
    hide RotateSerial, RotateIndex;
    if s1.ok {
      IndexOkIff(mid, c.index, f.store.rotate);
      RotateIndexLive(mid, c, before, db.rows, f.store.rotate);
      if RotateIndex(mid, c.index, f.store.rotate).ok { CommitComplete(mid, c.index, f.store.rotate); }
    }
  }

  lemma CommitStores(fs: World, c: Config, before: seq<Row>, n: nat, i: Issued, f: CommitFaults, certsFail: bool)
    requires Separate(c) && Live(fs, c, before) && SerialIs(fs, c, SerialFile(n))
    ensures var r := Commit(fs, c, i, f, certsFail); var s := Final(fs, r);
            && (r.ok ==> c.serialFits && c.indexFits && !certsFail && Live(s, c, i.db.rows)
                         && AttrIs(s, c, i.db.unique) && SerialIs(s, c, Saved(i.next, f.cut)) && r.trace != [])
            && (c.serialFits && c.indexFits && !certsFail && ForwardCommit(f) ==> r.ok)
  {
    hide SaveBoth, RotateBoth, Saved;
    var serial := Saved(i.next, f.cut);
    var saved := SaveBoth(fs, c, i.db, serial, f.serial, f.store.save);
    SaveBothEnds(fs, c, i.db, serial, f.serial, f.store.save);
    if saved.ok { RotateBothEnds(Final(fs, saved), c, before, n, serial, i.db, f); }
  }

  // ---- the stages ----

  /** A stage that has written nothing has left the files alone, one that has stored the database. */
  ghost predicate Stored(fs: World, c: Config, db: Db, out: Outcome<Content>) {
    Live(Final(fs, out), c, db.rows) && (out.trace != [] ==> c.indexFits && AttrIs(Final(fs, out), c, db.unique))
  }

  lemma StoredThen(fs: World, c: Config, a: Db, b: Db, first: Outcome<Content>, second: Outcome<Content>)
    requires first.ok && Stored(fs, c, a, first) && Stored(Final(fs, first), c, b, second) && a.unique == b.unique
    ensures Stored(fs, c, b, Then(first, second))
    ensures Final(fs, Then(first, second)) == Final(Final(fs, first), second)
  {
  }

  ghost function ExpiredDb(db: Db, r: Run): Db {
    if r.expire.None? then db else db.(rows := ExpireRows(db.rows, r.expire.value))
  }

  /** The name has to fit when there is something to store. */
  predicate MayStore(c: Config, db: Db, r: Run) {
    r.expire.Some? && ExpireCount(db.rows, r.expire.value) > 0 ==> c.indexFits
  }

  lemma ExpireEnds(fs: World, c: Config, db: Db, r: Run)
    requires Separate(c) && Live(fs, c, db.rows)
    ensures var s := ExpireStage(fs, c, db, r);
            && s.db == ExpiredDb(db, r) && (s.out.ok ==> Stored(fs, c, s.db, s.out))
            && Same(Final(fs, s.out), fs, c.serial)
            && (s.out.ok ==> MayStore(c, db, r))
            && (MayStore(c, db, r) && Forward(r.expireFaults) ==> s.out.ok)
  {
    hide StoreIndex, AlwaysEither;
    if r.expire.Some? {
      var d := ExpiredDb(db, r);
      StoreIndexLive(fs, c, db.rows, d, r.expireFaults.save, r.expireFaults.rotate);
      StoreEnds(fs, c, db.rows, d, r.expireFaults);
      if ExpireCount(db.rows, r.expire.value) == 0 { NothingExpired(db.rows, r.expire.value); }
    }
  }

  /** The database after the requests, issued from the stored serial on. */
  ghost function IssuedBy(fs: World, c: Config, db: Db, r: Run): Issued {
    if r.requests.None? then Issued(db, SerialOf(fs, c), 0, true) else IssueAll(db, SerialOf(fs, c), r.requests.value)
  }

  ghost function SerialOf(fs: World, c: Config): nat {
    if c.serial in fs && fs[c.serial].SerialFile? then fs[c.serial].next else 0
  }

  /** The serial file can be loaded. */
  ghost predicate SerialReads(fs: World, c: Config) {
    c.serial in fs && fs[c.serial].SerialFile? && |SerialNames.Bytes(SerialOf(fs, c))| <= SerialNumberFile.LINE_BYTES
  }

  lemma LoadSerialIff(next: nat)
    ensures LoadSerial(next).Some? <==> |SerialNames.Bytes(next)| <= SerialNumberFile.LINE_BYTES
  {
    SerialNumberFile.RoundTripIff(next);
  }

  /** What the request part of a run needs besides working files. */
  ghost predicate MayCommit(fs: World, c: Config, db: Db, r: Run) {
    r.requests.Some? ==>
      && SerialReads(fs, c) && IssuedBy(fs, c, db, r).ok
      && (IssuedBy(fs, c, db, r).done > 0 ==> r.confirmed && !r.certsFail && c.serialFits && c.indexFits)
  }

  lemma IssueEnds(fs: World, c: Config, db: Db, r: Run)
    requires Separate(c) && Live(fs, c, db.rows)
    ensures var s, i := IssueStage(fs, c, db, r), IssuedBy(fs, c, db, r);
            && (s.out.ok ==> && MayCommit(fs, c, db, r) && s.db == i.db && Stored(fs, c, s.db, s.out)
                             && (if i.done == 0 then s.out.trace == [] && i.db == db
                                 else SerialIs(Final(fs, s.out), c, Saved(i.next, r.commitFaults.cut))))
            && (MayCommit(fs, c, db, r) && ForwardCommit(r.commitFaults) ==> s.out.ok)
  {
    hide Commit, LoadSerial, IssueAll, Saved;
    if r.requests.Some? && c.serial in fs && fs[c.serial].SerialFile? {
      var n := fs[c.serial].next;
      var i := IssueAll(db, n, r.requests.value);
      LoadSerialIff(n);
      CommitStores(fs, c, db.rows, n, i, r.commitFaults, r.certsFail);
      if i.done == 0 { NothingIssued(db, n, r.requests.value); }
    }
  }

  ghost function RevokedDb(db: Db, r: Run, oid: string -> bool): (Db, bool) {
    if r.revoke.None? then (db, true) else Revoke(db, r.revoke.value.0, r.revoke.value.1, oid)
  }

  ghost predicate MayRevokeAndStore(c: Config, db: Db, r: Run, oid: string -> bool) {
    r.revoke.Some? ==> c.indexFits && RevokedDb(db, r, oid).1
  }

  lemma RevokeEnds(fs: World, c: Config, db: Db, r: Run, oid: string -> bool)
    requires Separate(c) && Live(fs, c, db.rows)
    ensures var out, d := RevokeStage(fs, c, db, r, oid), RevokedDb(db, r, oid).0;
            && Same(Final(fs, out), fs, c.serial) && d.unique == db.unique
            && (out.ok ==> MayRevokeAndStore(c, db, r, oid) && Stored(fs, c, d, out))
            && (MayRevokeAndStore(c, db, r, oid) && Forward(r.revokeFaults) ==> out.ok)
  {
    hide StoreIndex, Revoke, AlwaysEither;
    if r.revoke.Some? {
      var d := RevokedDb(db, r, oid).0;
      StoreIndexLive(fs, c, db.rows, d, r.revokeFaults.save, r.revokeFaults.rotate);
      StoreEnds(fs, c, db.rows, d, r.revokeFaults);
      RevokeEvolves(db, r.revoke.value.0, r.revoke.value.1, oid);
    }
  }

  // ---- whole runs ----

  /** Nothing fails on the way; rollbacks and writes that go unnoticed do not matter. */
  predicate ForwardRun(r: Run) {
    Forward(r.expireFaults) && ForwardCommit(r.commitFaults) && Forward(r.revokeFaults)
  }

  ghost predicate SerialMoved(fs: World, s: World, c: Config, i: Issued, r: Run) {
    if i.done == 0 then Same(s, fs, c.serial) else SerialIs(s, c, Saved(i.next, r.commitFaults.cut))
  }

  lemma SameSerial(fs: World, mid: World, c: Config, db: Db, r: Run)
    requires Same(mid, fs, c.serial)
    ensures SerialOf(mid, c) == SerialOf(fs, c) && IssuedBy(mid, c, db, r) == IssuedBy(fs, c, db, r)
    ensures MayCommit(mid, c, db, r) <==> MayCommit(fs, c, db, r)
  {
  }

  lemma LastStagesEnd(fs: World, c: Config, db: Db, r: Run, oid: string -> bool)
    requires Separate(c) && Live(fs, c, db.rows) && IssuedBy(fs, c, db, r).db.unique == db.unique
    ensures var out, i := LastStages(fs, c, db, r, oid), IssuedBy(fs, c, db, r);
            && (out.ok ==> && MayCommit(fs, c, db, r) && MayRevokeAndStore(c, i.db, r, oid)
                           && Stored(fs, c, RevokedDb(i.db, r, oid).0, out)
                           && RevokedDb(i.db, r, oid).0.unique == db.unique && SerialMoved(fs, Final(fs, out), c, i, r))
            && (MayCommit(fs, c, db, r) && MayRevokeAndStore(c, i.db, r, oid) && ForwardRun(r) ==> out.ok)
  {
    hide IssueStage, RevokeStage, IssuedBy, MayCommit, MayRevokeAndStore, RevokedDb, Saved, Separate, Stored;
    hide Forward, ForwardCommit;
    var s1 := IssueStage(fs, c, db, r);
    var mid := Final(fs, s1.out);
    IssueEnds(fs, c, db, r);
    if s1.out.ok {
      StoredLive(fs, c, s1.db, s1.out);
      RevokeEnds(mid, c, s1.db, r, oid);
      var second := RevokeStage(mid, c, s1.db, r, oid);
      if second.ok { StoredThen(fs, c, s1.db, RevokedDb(s1.db, r, oid).0, s1.out, second); }
    }
  }

  lemma StoredLive(fs: World, c: Config, db: Db, out: Outcome<Content>)
    requires Stored(fs, c, db, out)
    ensures Live(Final(fs, out), c, db.rows)
  {
  }

  /** What a run that opened its database needs. */
  ghost predicate MayEnd(fs: World, c: Config, db: Db, r: Run, oid: string -> bool) {
    var d := ExpiredDb(db, r);
    MayStore(c, db, r) && MayCommit(fs, c, d, r) && MayRevokeAndStore(c, IssuedBy(fs, c, d, r).db, r, oid)
  }

  /** What the commands of a run make of the database it opened, and the number that is next. */
  ghost function Outcomes(fs: World, c: Config, db: Db, r: Run, oid: string -> bool): Issued {
    var i := IssuedBy(fs, c, ExpiredDb(db, r), r);
    i.(db := RevokedDb(i.db, r, oid).0)
  }

  lemma StagesEnd(fs: World, c: Config, db: Db, r: Run, oid: string -> bool)
    requires Separate(c) && Live(fs, c, db.rows) && IssuedBy(fs, c, ExpiredDb(db, r), r).db.unique == db.unique
    ensures var out, i := Stages(fs, c, db, r, oid), Outcomes(fs, c, db, r, oid);
            && (out.ok ==> MayEnd(fs, c, db, r, oid) && Stored(fs, c, i.db, out) && i.db.unique == db.unique
                           && SerialMoved(fs, Final(fs, out), c, i, r))
            && (MayEnd(fs, c, db, r, oid) && ForwardRun(r) ==> out.ok)
  {
    hide ExpireStage, LastStages, IssuedBy, MayCommit, MayRevokeAndStore, MayStore, RevokedDb, Saved, Separate, Stored;
    hide Forward, ForwardCommit;
    var s1 := ExpireStage(fs, c, db, r);
    var mid := Final(fs, s1.out);
    ExpireEnds(fs, c, db, r);
    SameSerial(fs, mid, c, s1.db, r);
    if s1.out.ok {
      StoredLive(fs, c, s1.db, s1.out);
      LastStagesEnd(mid, c, s1.db, r, oid);
      var second := LastStages(mid, c, s1.db, r, oid);
      if second.ok { StoredThen(fs, c, s1.db, Outcomes(fs, c, db, r, oid).db, s1.out, second); }
    }
  }

  lemma OpenedUnique(fs: World, c: Config, r: Run, oid: string -> bool)
    requires Opens(fs, c, r, oid)
    ensures var db := Opened(fs, c, r);
            Inv(db) && Live(fs, c, db.rows) && IssuedBy(fs, c, ExpiredDb(db, r), r).db.unique == db.unique
  {
    var db := Opened(fs, c, r);
    LoadedInv(fs[c.index.db].rows, db.unique, oid);
    hide Loads, Inv;
    if r.expire.Some? { ApplyInv(db, DoExpire(r.expire.value), oid); }
    if r.requests.Some? { IssueAllInv(ExpiredDb(db, r), SerialOf(fs, c), r.requests.value); }
  }

  /** A run that gets to its end found what it needs, and then the live files are what its commands have
      made of the database, with the setting of unique_subject, and of the serial number. When nothing
      fails on the way it gets there exactly when it finds what it needs. */
  lemma RunEnds(fs: World, c: Config, r: Run, oid: string -> bool)
    requires Separate(c)
    ensures var out := RunOutcome(fs, c, r, oid); var s := Final(fs, out);
            && (out.ok ==>
                  && Opens(fs, c, r, oid) && MayEnd(fs, c, Opened(fs, c, r), r, oid)
                  && var i := Outcomes(fs, c, Opened(fs, c, r), r, oid);
                     Live(s, c, i.db.rows) && SerialMoved(fs, s, c, i, r)
                     && (out.trace != [] ==> AttrIs(s, c, Opened(fs, c, r).unique)))
            && (ForwardRun(r) ==> (out.ok <==> Opens(fs, c, r, oid) && MayEnd(fs, c, Opened(fs, c, r), r, oid)))
  {
    hide Stages, MayEnd, Separate, SerialMoved, Loads, Outcomes;
    if Opens(fs, c, r, oid) {
      OpenedUnique(fs, c, r, oid);
      StagesEnd(fs, c, Opened(fs, c, r), r, oid);
    }
  }

  // ---- what has reached the disk ----

  /** After an ok run with a revocation the live index has an R row for the certificate with the field of
      this revocation. */
  lemma RevocationReachesDisk(fs: World, c: Config, r: Run, oid: string -> bool, cert: Cert, q: Request)
    requires Separate(c) && RunOutcome(fs, c, r, oid).ok && r.revoke == Some((cert, q))
    ensures var s := Final(fs, RunOutcome(fs, c, r, oid));
            && HasIndex(s, c) && Revocation.Field(q.now, q.t, q.arg, oid).Some?
            && exists k :: 0 <= k < |s[c.index.db].rows| && IsRevokedRow(s[c.index.db].rows[k], cert, q, oid)
  {
    RunEnds(fs, c, r, oid);
    hide RunOutcome, Loads, IssuedBy, SerialMoved, MayCommit, Separate, Revoke;
    var d := IssuedBy(fs, c, ExpiredDb(Opened(fs, c, r), r), r).db;
    var k := RevokedRowIn(d, cert, q, oid);
  }

  /** The row of the certificate, revoked with these arguments. */
  ghost predicate IsRevokedRow(row: Row, cert: Cert, q: Request, oid: string -> bool) {
    && SerialNames.Key(row.serial) == SerialNames.Key(cert.serial) && row.name == cert.name
    && row.typ == "R" && row.rev == Revocation.Field(q.now, q.t, q.arg, oid)
  }

  lemma RevokedRowIn(db: Db, cert: Cert, q: Request, oid: string -> bool) returns (k: nat)
    requires Revoke(db, cert, q, oid).1
    ensures Revocation.Field(q.now, q.t, q.arg, oid).Some?
    ensures k < |Revoke(db, cert, q, oid).0.rows| && IsRevokedRow(Revoke(db, cert, q, oid).0.rows[k], cert, q, oid)
  {
    RevokeSucceedsIff(db, cert, q, oid);
    hide Revoke, Revocation.Field, SerialNames.Key;
    if Listed(db, cert) {
      RevokeListed(db, cert, q, oid);
      k := Find(db.rows, SerialNames.Key(cert.serial));
    } else {
      RevokeUnlisted(db, cert, q, oid);
      k := |db.rows|;
    }
  }

  lemma {:induction false} IssueAllKeeps(db: Db, next: nat, vs: seq<Verdict>)
    ensures var rows := IssueAll(db, next, vs).db.rows; |db.rows| <= |rows| && rows[..|db.rows|] == db.rows
  {
    hide SerialNames.SerialText;
    if vs != [] { IssueAllKeeps(db, next, vs[..|vs| - 1]); }
  }

  /** A revocation leaves the rows of other serials alone. */
  lemma RevokeKeepsOthers(db: Db, cert: Cert, q: Request, oid: string -> bool, k: nat)
    requires k < |db.rows| && SerialNames.Key(db.rows[k].serial) != SerialNames.Key(cert.serial)
    ensures var rows := Revoke(db, cert, q, oid).0.rows; k < |rows| && rows[k] == db.rows[k]
  {
    if Revoke(db, cert, q, oid).1 {
      hide Revoke, SerialNames.Key;
      if Listed(db, cert) { RevokeListed(db, cert, q, oid); } else { RevokeUnlisted(db, cert, q, oid); }
    } else {
      hide Revoke, SerialNames.Key;
      RevokeFails(db, cert, q, oid);
    }
  }

  /** What happens to one row of the database that was opened. */
  lemma OutcomeRow(fs: World, c: Config, db: Db, r: Run, oid: string -> bool, k: nat)
    requires k < |db.rows|
    ensures var rows, row := Outcomes(fs, c, db, r, oid).db.rows, ExpiredDb(db, r).rows[k];
            && k < |rows| && Evolves(row, rows[k])
            && ((r.revoke.Some? ==> SerialNames.Key(row.serial) != SerialNames.Key(r.revoke.value.0.serial)) ==>
                  rows[k] == row)
  {
    var d := ExpiredDb(db, r);
    var i := IssuedBy(fs, c, d, r);
    hide IssueAll, Revoke, SerialNames.Key;
    if r.requests.Some? { IssueAllKeeps(d, SerialOf(fs, c), r.requests.value); }
    assert i.db.rows[k] == i.db.rows[..|d.rows|][k] == d.rows[k];
    if r.revoke.Some? {
      var (cert, q) := r.revoke.value;
      RevokeEvolves(i.db, cert, q, oid);
      if SerialNames.Key(d.rows[k].serial) != SerialNames.Key(cert.serial) { RevokeKeepsOthers(i.db, cert, q, oid, k); }
    }
  }

  lemma ExpiredRowIs(row: Row, now: string, after: Row)
    requires Expiry.Utc(row.exp) && Expiry.Utc(now) && Evolves(ExpireRow(row, now), after)
    ensures var passed := Expiry.AtOrBefore(Expiry.UtcInstant(row.exp), Expiry.UtcInstant(now));
            && ExpireRow(row, now) == (if Type(row) == 'V' && passed then row.(typ := "E") else row)
            && (passed ==> Type(after) != 'V')
  {
    Expiry.MarksExactlyTheExpired(row.exp, now);
    hide Expiry.MarksExpired, Expiry.AtOrBefore, Expiry.UtcInstant, Expiry.Utc;
  }

  /** After an ok run that expires, the rows of the starting file with RFC 5280 dates are what they have to
      be: E if they were V and their date is at or before now, and otherwise as they were. Only the row of
      a certificate that the run revokes is different. */
  lemma ExpiryReachesDisk(fs: World, c: Config, r: Run, oid: string -> bool, now: string, k: nat)
    requires Separate(c) && RunOutcome(fs, c, r, oid).ok && r.expire == Some(now) && Expiry.Utc(now)
    requires HasIndex(fs, c) && k < |fs[c.index.db].rows| && Expiry.Utc(fs[c.index.db].rows[k].exp)
    ensures var s := Final(fs, RunOutcome(fs, c, r, oid)); var row := fs[c.index.db].rows[k];
            var passed := Expiry.AtOrBefore(Expiry.UtcInstant(row.exp), Expiry.UtcInstant(now));
            && HasIndex(s, c) && k < |s[c.index.db].rows|
            && (passed ==> Type(s[c.index.db].rows[k]) != 'V')
            && ((r.revoke.Some? ==> SerialNames.Key(row.serial) != SerialNames.Key(r.revoke.value.0.serial)) ==>
                  s[c.index.db].rows[k] == if Type(row) == 'V' && passed then row.(typ := "E") else row)
  {
    RunEnds(fs, c, r, oid);
    hide RunOutcome, Loads, SerialMoved, MayEnd, Separate, SerialNames.Key, Outcomes, Evolves;
    hide Expiry.AtOrBefore, Expiry.UtcInstant, Expiry.Utc, Expiry.MarksExpired;
    var db := Opened(fs, c, r);
    OutcomeRow(fs, c, db, r, oid, k);
    ExpiredRowIs(db.rows[k], now, Outcomes(fs, c, db, r, oid).db.rows[k]);
  }

  lemma LoadsMeansAllLoad(rows: seq<Row>, unique: bool, oid: string -> bool, now: string)
    requires Loads(rows, unique, oid)
    ensures AllLoad(rows) && AllLoad(ExpireRows(rows, now))
  {
    hide SerialLoads, Expiry.MarksExpired;
    forall i | 0 <= i < |rows|
      ensures SerialLoads(rows[i].serial)
    {
      assert RowLoads(rows[i], oid);
    }
  }

  /** Expiry changes neither serials nor the subjects in the index, so the requests find what was loaded. */
  lemma ExpiredStillSafe(fs: World, c: Config, r: Run, oid: string -> bool)
    requires Opens(fs, c, r, oid) && Safe(fs, c) && c.serial in fs && fs[c.serial].SerialFile?
    ensures var db := Opened(fs, c, r); var d := ExpiredDb(db, r);
            && AllLoad(d.rows) && Below(d.rows, SerialOf(fs, c)) && d.unique == db.unique && d.names == db.names
            && |d.rows| == |db.rows|
  {
    var db := Opened(fs, c, r);
    LoadsMeansAllLoad(db.rows, db.unique, oid, if r.expire.Some? then r.expire.value else "");
    hide Loads, CaSessions.Number, SerialLoads, Expiry.MarksExpired;
  }

  /** Behind the first `m` rows there is one row for each of these requests, with the numbers from `n` on;
      unless something was revoked it is V. */
  ghost predicate IssuedRows(rows: seq<Row>, m: nat, n: nat, vs: seq<Verdict>, at: seq<nat>, plain: bool) {
    && m + |at| <= |rows|
    && forall k :: 0 <= k < |at| ==>
         && at[k] < |vs| && vs[at[k]].Certify?
         && IsIssuedRow(rows[m + k], n + k, vs[at[k]].exp, vs[at[k]].name)
         && (plain ==> rows[m + k].typ == "V" && rows[m + k].rev == None)
  }

  ghost predicate IsIssuedRow(row: Row, number: nat, exp: string, name: string) {
    row.serial == SerialNames.SerialText(number) && row.exp == exp && row.name == name && row.file == "unknown"
  }

  lemma IssuedRowsAre(before: seq<Row>, rows: seq<Row>, after: seq<Row>, n: nat, vs: seq<Verdict>, at: seq<nat>,
                      plain: bool)
    requires RowsFor(rows, before, n, vs, at) && RowsEvolve(rows, after) && (plain ==> after == rows)
    ensures IssuedRows(after, |before|, n, vs, at, plain)
  {
    hide SerialNames.SerialText;
    var m := |before|;
    forall k | 0 <= k < |at|
      ensures && at[k] < |vs| && vs[at[k]].Certify?
              && IsIssuedRow(after[m + k], n + k, vs[at[k]].exp, vs[at[k]].name)
              && (plain ==> after[m + k].typ == "V" && after[m + k].rev == None)
    {
      var j := m + k;
      assert rows[j] == Row("V", vs[at[k]].exp, None, SerialNames.SerialText(n + k), "unknown", vs[at[k]].name);
      assert Evolves(rows[j], after[j]);
    }
  }

  lemma RevokedDbEvolves(db: Db, r: Run, oid: string -> bool)
    ensures RowsEvolve(db.rows, RevokedDb(db, r, oid).0.rows)
    ensures r.revoke.None? ==> RevokedDb(db, r, oid).0 == db
  {
    hide Revoke;
    if r.revoke.Some? {
      RevokeEvolves(db, r.revoke.value.0, r.revoke.value.1, oid);
    } else {
      EvolvesItself(db.rows);
    }
  }

  /** On values: when the requests are issuable, what the run makes of the database. */
  lemma OutcomeIssues(fs: World, c: Config, db: Db, r: Run, oid: string -> bool, vs: seq<Verdict>)
    returns (at: seq<nat>)
    requires var d := ExpiredDb(db, r); AllLoad(d.rows) && Below(d.rows, SerialOf(fs, c)) && |d.rows| == |db.rows|
    requires r.requests == Some(vs) && IssuedBy(fs, c, ExpiredDb(db, r), r).ok
    ensures var i, n := Outcomes(fs, c, db, r, oid), SerialOf(fs, c);
            && Lists(at, |vs|, Where(vs, IsCertify())) && i.done == |at| && i.next == n + |at|
            && IssuedRows(i.db.rows, |db.rows|, n, vs, at, r.revoke.None?)
  {
    var d, n := ExpiredDb(db, r), SerialOf(fs, c);
    IssueAllIff(d, n, vs);
    hide Lists, AllLoad, Below, RowsFor, IssueAll, RevokedDb, IssuedRows, ExpiredDb;
    var i := IssueAll(d, n, vs);
    at :| Lists(at, |vs|, Where(vs, IsCertify())) && i.done == |at|
          && i.next == n + |at| && RowsFor(i.db.rows, d.rows, n, vs, at);
    RevokedDbEvolves(i.db, r, oid);
    IssuedRowsAre(d.rows, i.db.rows, RevokedDb(i.db, r, oid).0.rows, n, vs, at, r.revoke.None?);
  }

  /** After an ok run with requests each certified one, in order, has the next serial number and a row in
      the live index, V unless the run revokes as well, and the serial file is past them when it was
      written completely. */
  lemma IssuesReachDisk(fs: World, c: Config, r: Run, oid: string -> bool, vs: seq<Verdict>)
    requires Separate(c) && Safe(fs, c) && RunOutcome(fs, c, r, oid).ok && r.requests == Some(vs)
    requires HasIndex(fs, c) && c.serial in fs && fs[c.serial].SerialFile?
    ensures var s, n, m := Final(fs, RunOutcome(fs, c, r, oid)), fs[c.serial].next, |fs[c.index.db].rows|;
            && HasIndex(s, c)
            && exists at: seq<nat> ::
                 && Lists(at, |vs|, Where(vs, IsCertify()))
                 && IssuedRows(s[c.index.db].rows, m, n, vs, at, r.revoke.None?)
                 && (r.commitFaults.cut.None? ==> SerialIs(s, c, SerialFile(n + |at|)))
  {
    RunEnds(fs, c, r, oid);
    ExpiredStillSafe(fs, c, r, oid);
    assert IssuedBy(fs, c, ExpiredDb(Opened(fs, c, r), r), r).ok;
    hide RunOutcome, Loads, Separate, Lists, AllLoad, Below, Safe, ExpiredDb, IssuedBy, IssuedRows, Outcomes, MayEnd;
    var at := OutcomeIssues(fs, c, Opened(fs, c, r), r, oid, vs);
  }

  // ---- when nothing fails ----

  ghost predicate OnlyRevokes(r: Run, cert: Cert, q: Request) {
    r.expire.None? && r.requests.None? && r.revoke == Some((cert, q)) && ForwardRun(r)
  }

  /** A run that only revokes, when no call fails, gets to its end exactly when the database opens, the
      name fits, the arguments are accepted, and the certificate is listed under its subject and not
      revoked, or unlisted with a subject that is free. */
  lemma RevocationEndsIff(fs: World, c: Config, r: Run, oid: string -> bool, cert: Cert, q: Request)
    requires Separate(c) && OnlyRevokes(r, cert, q)
    ensures RunOutcome(fs, c, r, oid).ok <==>
            && Opens(fs, c, r, oid) && c.indexFits && Revocation.Field(q.now, q.t, q.arg, oid).Some?
            && var rows, unique := fs[c.index.db].rows, Attribute(fs, c, r).value;
               var k := Find(rows, SerialNames.Key(cert.serial));
               if k >= 0 then rows[k].name == cert.name && Type(rows[k]) != 'R'
               else unique ==> forall i :: 0 <= i < |rows| && Type(rows[i]) == 'V' ==> rows[i].name != cert.name
  {
    RunEnds(fs, c, r, oid);
    hide RunOutcome, Loads, Separate, Revoke, Revocation.Field, SerialMoved, SerialNames.Key;
    if Opens(fs, c, r, oid) {
      RevokeSucceedsIff(Opened(fs, c, r), cert, q, oid);
    }
  }

  lemma CertifiedIff(vs: seq<Verdict>, at: seq<nat>)
    requires Lists(at, |vs|, Where(vs, IsCertify()))
    ensures |at| > 0 <==> exists i :: 0 <= i < |vs| && vs[i].Certify?
  {
    if i :| 0 <= i < |vs| && vs[i].Certify? { assert Where(vs, IsCertify())(i); }
    if |at| > 0 { assert Where(vs, IsCertify())(at[0]); }
  }

  ghost predicate OnlyIssues(r: Run, vs: seq<Verdict>) {
    r.expire.None? && r.requests == Some(vs) && r.revoke.None? && ForwardRun(r)
  }

  /** A run that only issues, when no call fails, gets to its end exactly when the database opens, the
      serial file can be loaded, no request fails and all subjects are free, and what is certified is
      confirmed and can be stored. */
  lemma RequestsEndIff(fs: World, c: Config, r: Run, oid: string -> bool, vs: seq<Verdict>)
    requires Separate(c) && Safe(fs, c) && OnlyIssues(r, vs)
    ensures RunOutcome(fs, c, r, oid).ok <==>
            && Opens(fs, c, r, oid) && SerialReads(fs, c)
            && Issuable(vs, Attribute(fs, c, r).value, ValidNames(fs[c.index.db].rows))
            && ((exists i :: 0 <= i < |vs| && vs[i].Certify?) ==>
                  r.confirmed && !r.certsFail && c.serialFits && c.indexFits)
  {
    RunEnds(fs, c, r, oid);
    if Opens(fs, c, r, oid) && SerialReads(fs, c) {
      var db, n := Opened(fs, c, r), SerialOf(fs, c);
      ExpiredStillSafe(fs, c, r, oid);
      hide RunOutcome, Loads, Separate, AllLoad, Below, Safe, IssueAll, Lists, RowsFor, SerialMoved;
      IssueAllIff(db, n, vs);
      var i := IssueAll(db, n, vs);
      if i.ok {
        var at: seq<nat> :| Lists(at, |vs|, Where(vs, IsCertify())) && i.done == |at|
                            && i.next == n + |at| && RowsFor(i.db.rows, db.rows, n, vs, at);
        CertifiedIff(vs, at);
      }
      assert db.unique ==> db.names == ValidNames(fs[c.index.db].rows);
    }
  }

  /** unique_subject is off: the live attribute file says no, or there is none and the configuration does. */
  ghost predicate NotUnique(fs: World, c: Config, r: Run) {
    if c.attrRead in fs then fs[c.attrRead] == AttrFile(false) else !r.unique
  }

  /** A request for the subject of a V row goes through, when nothing else is in the way, exactly if
      unique_subject is off. */
  lemma SubjectAgainIff(fs: World, c: Config, r: Run, oid: string -> bool, exp: string, k: nat)
    requires Separate(c) && Safe(fs, c) && Opens(fs, c, r, oid) && SerialReads(fs, c)
    requires r.confirmed && !r.certsFail && c.serialFits && c.indexFits
    requires k < |fs[c.index.db].rows| && Type(fs[c.index.db].rows[k]) == 'V'
    requires OnlyIssues(r, [Certify(exp, fs[c.index.db].rows[k].name)])
    ensures RunOutcome(fs, c, r, oid).ok <==> NotUnique(fs, c, r)
  {
    var rows := fs[c.index.db].rows;
    var vs := [Certify(exp, rows[k].name)];
    RequestsEndIff(fs, c, r, oid, vs);
    hide RunOutcome, Loads, Separate, Safe;
    assert rows[k].name in ValidNames(rows);
    assert vs[0].Certify?;
  }

  // ---- what is refused leaves no trace ----

  /** A run that does not expire anything writes nothing when the database does not open, a request fails,
      a subject is taken, the serial file cannot be read or the certificates are not confirmed. */
  lemma RefusedRequestsWriteNothing(fs: World, c: Config, r: Run, oid: string -> bool)
    requires r.expire.None? && r.requests.Some?
    requires Opens(fs, c, r, oid) ==>
               var i := IssuedBy(fs, c, Opened(fs, c, r), r);
               !SerialReads(fs, c) || !i.ok || (i.done > 0 && !r.confirmed)
    ensures RunOutcome(fs, c, r, oid) == Outcome([], false)
  {
    hide Loads, IssueAll, Commit, RevokeStage;
    if Opens(fs, c, r, oid) && c.serial in fs && fs[c.serial].SerialFile? { LoadSerialIff(fs[c.serial].next); }
  }

  /** And neither does a run that only revokes, when do_revoke refuses. */
  lemma RefusedRevocationWritesNothing(fs: World, c: Config, r: Run, oid: string -> bool, cert: Cert, q: Request)
    requires r.expire.None? && r.requests.None? && r.revoke == Some((cert, q))
    requires Opens(fs, c, r, oid) ==> !Revoke(Opened(fs, c, r), cert, q, oid).1
    ensures RunOutcome(fs, c, r, oid) == Outcome([], false)
  {
    hide Loads, Revoke, StoreIndex;
  }
}
