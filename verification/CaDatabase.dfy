/** The certificate database on values: load-time checks, issue, revoke, expire, the CRL, and what
    every sequence of these keeps. */
module CaDatabase {
  import opened CStrings
  import opened Options
  import opened TxtDbFile
  import opened Asn1Time
  import SerialNames
  import Expiry
  import Revocation

  datatype Row = Row(typ: string, exp: string, rev: Field, serial: string, file: string, name: string)

  function Type(r: Row): char { At(r.typ, 0) }

  /** `names` are the subjects in the name index, which exists only with unique_subject. Editing a row
      leaves the index alone, so it may list subjects that no longer belong to a V row. */
  datatype Db = Db(rows: seq<Row>, unique: bool, names: set<string>)

  /** The position of the row a serial lookup finds, or -1. */
  function Find(rows: seq<Row>, key: string): (i: int)
    ensures -1 <= i < |rows|
    ensures i >= 0 ==> SerialNames.Key(rows[i].serial) == key
    ensures i < 0 ==> forall k :: 0 <= k < |rows| ==> SerialNames.Key(rows[k].serial) != key
  {
    if rows == [] then -1
    else
      var last := |rows| - 1;
      var i := Find(rows[..last], key);
      if i >= 0 then i else if SerialNames.Key(rows[last].serial) == key then last else -1
  }

  /** TXT_DB_insert: every index that takes the row must accept it. */
  function Insert(db: Db, r: Row): Option<Db> {
    if Find(db.rows, SerialNames.Key(r.serial)) >= 0 then None
    else if db.unique && Type(r) == 'V' && r.name in db.names then None
    else Some(Db(db.rows + [r], db.unique, if db.unique && Type(r) == 'V' then db.names + {r.name} else db.names))
  }

  /** A certificate as the database sees it: its serial number printed by SerialNames.SerialText,
      its expiry time and its subject. */
  datatype Cert = Cert(serial: string, exp: string, name: string)

  function NewRow(cert: Cert): Row {
    Row("V", cert.exp, None, cert.serial, "unknown", cert.name)
  }

  /** The database part of do_body for a certificate that passed everything else. */
  function Issue(db: Db, cert: Cert): Option<Db> {
    if Find(db.rows, SerialNames.Key(cert.serial)) >= 0 then None else Insert(db, NewRow(cert))
  }

  datatype Request = Request(now: string, t: Revocation.RevType, arg: string)

  predicate Listed(db: Db, cert: Cert) {
    Find(db.rows, SerialNames.Key(cert.serial)) >= 0
  }

  /** The edit of a row found by do_revoke, or None when it refuses. */
  function RevokedRow(r: Row, subject: string, q: Request, oid: string -> bool): Option<Row> {
    var s := Revocation.Field(q.now, q.t, q.arg, oid);
    if StrCmp(subject, r.name) != 0 || Type(r) == 'R' || s.None? then None
    else Some(r.(typ := "R", rev := s))
  }

  function RevokeAt(db: Db, k: nat, subject: string, q: Request, oid: string -> bool): (Db, bool)
    requires k < |db.rows|
  {
    var r := RevokedRow(db.rows[k], subject, q, oid);
    if r.None? then (db, false) else (db.(rows := db.rows[k := r.value]), true)
  }

  /** do_revoke: an unlisted certificate is first inserted as a V row; a refusal afterwards leaves
      that row behind. */
  function Revoke(db: Db, cert: Cert, q: Request, oid: string -> bool): (Db, bool) {
    var k := Find(db.rows, SerialNames.Key(cert.serial));
    if k >= 0 then RevokeAt(db, k, cert.name, q, oid)
    else
      var ins := Insert(db, NewRow(cert));
      if ins.None? then (db, false) else RevokeAt(ins.value, |db.rows|, cert.name, q, oid)
  }

  /** The call of do_revoke to itself finds the row just inserted, so there is only one such call. */
  lemma RevokeOnceInserted(db: Db, cert: Cert, q: Request, oid: string -> bool)
    requires !Listed(db, cert)
    ensures var d := Insert(db, NewRow(cert));
            if d.None? then Revoke(db, cert, q, oid) == (db, false)
            else Listed(d.value, cert) && Revoke(db, cert, q, oid) == Revoke(d.value, cert, q, oid)
  {
    var r := NewRow(cert);
    if Insert(db, r).Some? {
      FindAppended(db.rows, r);
    }
  }

  lemma RevokeFound(db: Db, cert: Cert, q: Request, oid: string -> bool)
    requires Listed(db, cert)
    ensures Revoke(db, cert, q, oid) == RevokeAt(db, Find(db.rows, SerialNames.Key(cert.serial)), cert.name, q, oid)
  {
  }

  lemma FindAppended(rows: seq<Row>, r: Row)
    requires Find(rows, SerialNames.Key(r.serial)) < 0
    ensures Find(rows + [r], SerialNames.Key(r.serial)) == |rows|
  {
    assert (rows + [r])[..|rows|] == rows;
  }

  predicate Expires(r: Row, now: string) { Type(r) == 'V' && Expiry.MarksExpired(r.exp, now) }

  function ExpireRow(r: Row, now: string): Row {
    if Expires(r, now) then r.(typ := "E") else r
  }

  function ExpireRows(rows: seq<Row>, now: string): (out: seq<Row>)
    ensures |out| == |rows| && forall i :: 0 <= i < |rows| ==> out[i] == ExpireRow(rows[i], now)
  {
    seq(|rows|, i requires 0 <= i < |rows| => ExpireRow(rows[i], now))
  }

  function ExpireCount(rows: seq<Row>, now: string): nat {
    if rows == [] then 0
    else ExpireCount(rows[..|rows| - 1], now) + if Expires(rows[|rows| - 1], now) then 1 else 0
  }

  // ---- load-time checks ----

  /** The digits of a stored serial: a leading '-' is allowed. */
  function Digits(serial: string): string {
    if serial != [] && serial[0] == '-' then serial[1..] else serial
  }

  predicate SerialLoads(serial: string) {
    var p := Digits(serial);
    |p| % 2 == 0 && |p| >= 2 && SerialNames.IsHex(p)
  }

  predicate RowLoads(r: Row, oid: string -> bool) {
    && (Type(r) != 'R' ==> Text(r.rev) == "")
    && (Type(r) == 'R' ==> Revocation.Unpack(Text(r.rev), oid).Some?)
    && TimeFormat(r.exp)
    && SerialLoads(r.serial)
  }

  ghost predicate DistinctSerials(rows: seq<Row>) {
    forall i, j :: 0 <= i < j < |rows| ==> SerialNames.Key(rows[i].serial) != SerialNames.Key(rows[j].serial)
  }

  ghost predicate DistinctValidNames(rows: seq<Row>) {
    forall i, j :: 0 <= i < j < |rows| && Type(rows[i]) == 'V' && Type(rows[j]) == 'V' ==> rows[i].name != rows[j].name
  }

  function ValidNames(rows: seq<Row>): (s: set<string>)
    ensures forall n :: n in s <==> exists i :: 0 <= i < |rows| && Type(rows[i]) == 'V' && rows[i].name == n
  {
    set i | 0 <= i < |rows| && Type(rows[i]) == 'V' :: rows[i].name
  }

  /** The checks of MAIN and the index creation of index_index. */
  ghost predicate Loads(rows: seq<Row>, unique: bool, oid: string -> bool) {
    && (forall i :: 0 <= i < |rows| ==> RowLoads(rows[i], oid))
    && DistinctSerials(rows)
    && (unique ==> DistinctValidNames(rows))
  }

  function Loaded(rows: seq<Row>, unique: bool): Db {
    Db(rows, unique, if unique then ValidNames(rows) else {})
  }

  // ---- the invariant ----

  /** No two rows have the same serial, no two V rows the same subject, and the name index, however
      stale, lists the subject of every V row. */
  ghost predicate Inv(db: Db) {
    && DistinctSerials(db.rows)
    && (db.unique ==> DistinctValidNames(db.rows))
    && (db.unique ==> forall i :: 0 <= i < |db.rows| && Type(db.rows[i]) == 'V' ==> db.rows[i].name in db.names)
  }

  lemma LoadedInv(rows: seq<Row>, unique: bool, oid: string -> bool)
    requires Loads(rows, unique, oid)
    ensures Inv(Loaded(rows, unique))
  {
  }

  lemma InsertInv(db: Db, r: Row)
    requires Inv(db) && Insert(db, r).Some?
    ensures Inv(Insert(db, r).value)
  {
  }

  /** Editing one row keeps the invariant if serial and subject stay and no row becomes V. */
  lemma EditInv(db: Db, k: nat, r: Row)
    requires Inv(db) && k < |db.rows|
    requires r.serial == db.rows[k].serial && r.name == db.rows[k].name && (Type(r) == 'V' ==> Type(db.rows[k]) == 'V')
    ensures Inv(db.(rows := db.rows[k := r]))
  {
  }

  lemma RevokeAtInv(db: Db, k: nat, subject: string, q: Request, oid: string -> bool)
    requires Inv(db) && k < |db.rows|
    ensures Inv(RevokeAt(db, k, subject, q, oid).0)
  {
    var r := RevokedRow(db.rows[k], subject, q, oid);
    if r.Some? { EditInv(db, k, r.value); }
  }

  lemma RevokeInv(db: Db, cert: Cert, q: Request, oid: string -> bool)
    requires Inv(db)
    ensures Inv(Revoke(db, cert, q, oid).0)
  {
    var k := Find(db.rows, SerialNames.Key(cert.serial));
    if k >= 0 {
      RevokeAtInv(db, k, cert.name, q, oid);
    } else {
      var r := NewRow(cert);
      if Insert(db, r).Some? {
        InsertInv(db, r);
        RevokeAtInv(Insert(db, r).value, |db.rows|, cert.name, q, oid);
      }
    }
  }

  // ---- runs ----

  datatype Cmd =
    | DoExpire(now: string)
    | DoIssue(cert: Cert)
    | DoRevoke(cert: Cert, q: Request)

  /** A failed command leaves the database as its code leaves it. */
  function Apply(db: Db, c: Cmd, oid: string -> bool): Db {
    match c
    case DoExpire(now) => db.(rows := ExpireRows(db.rows, now))
    case DoIssue(cert) => var d := Issue(db, cert); if d.Some? then d.value else db
    case DoRevoke(cert, q) => Revoke(db, cert, q, oid).0
  }

  function Run(db: Db, cs: seq<Cmd>, oid: string -> bool): Db {
    if cs == [] then db else Apply(Run(db, cs[..|cs| - 1], oid), cs[|cs| - 1], oid)
  }

  lemma ApplyInv(db: Db, c: Cmd, oid: string -> bool)
    requires Inv(db)
    ensures Inv(Apply(db, c, oid)) && Apply(db, c, oid).unique == db.unique
  {
    match c
    case DoExpire(now) =>
    case DoIssue(cert) =>
      if Issue(db, cert).Some? { InsertInv(db, NewRow(cert)); }
    case DoRevoke(cert, q) =>
      RevokeInv(db, cert, q, oid);
      RevokeEvolves(db, cert, q, oid);
  }

  /** Uniqueness of serials and of valid subjects in every state of every run. */
  lemma {:induction false} RunInv(db: Db, cs: seq<Cmd>, oid: string -> bool)
    requires Inv(db)
    ensures Inv(Run(db, cs, oid)) && Run(db, cs, oid).unique == db.unique
  {
    if cs != [] {
      RunInv(db, cs[..|cs| - 1], oid);
      ApplyInv(Run(db, cs[..|cs| - 1], oid), cs[|cs| - 1], oid);
    }
  }

  // ---- lifecycle ----

  /** How one row may change: V to E, V or E (or an unknown type) to R, nothing else ever. */
  ghost predicate Evolves(a: Row, b: Row) {
    && b.serial == a.serial && b.exp == a.exp && b.file == a.file && b.name == a.name
    && (|| (b.typ == a.typ && Text(b.rev) == Text(a.rev))
        || (Type(a) == 'V' && b.typ == "E" && Text(b.rev) == Text(a.rev))
        || (Type(a) != 'R' && b.typ == "R"))
  }

  /** Rows never disappear or move, and new ones started as V rows. */
  ghost predicate RowsEvolve(a: seq<Row>, b: seq<Row>) {
    && |a| <= |b|
    && (forall i :: 0 <= i < |a| ==> Evolves(a[i], b[i]))
    && (forall i :: |a| <= i < |b| ==> Evolves(b[i].(typ := "V", rev := None), b[i]))
  }

  lemma EvolvesItself(rows: seq<Row>)
    ensures RowsEvolve(rows, rows)
  {
  }

  lemma EvolveTransitive(a: seq<Row>, b: seq<Row>, c: seq<Row>)
    requires RowsEvolve(a, b) && RowsEvolve(b, c)
    ensures RowsEvolve(a, c)
  {
    forall i | |a| <= i < |c|
      ensures Evolves(c[i].(typ := "V", rev := None), c[i])
    {
      if i < |b| {
        assert Evolves(b[i].(typ := "V", rev := None), b[i]) && Evolves(b[i], c[i]);
      }
    }
  }

  lemma RevokeEvolves(db: Db, cert: Cert, q: Request, oid: string -> bool)
    ensures RowsEvolve(db.rows, Revoke(db, cert, q, oid).0.rows)
    ensures Revoke(db, cert, q, oid).0.unique == db.unique
    ensures |Revoke(db, cert, q, oid).0.rows| <= |db.rows| + if Listed(db, cert) then 0 else 1
  {
    var k := Find(db.rows, SerialNames.Key(cert.serial));
    var r := NewRow(cert);
    if k >= 0 {
      RevokeAtEvolves(db, k, cert.name, q, oid);
    } else if Insert(db, r).Some? {
      var d := Insert(db, r).value;
      RevokeAtEvolves(d, |db.rows|, cert.name, q, oid);
      EvolveTransitive(db.rows, d.rows, RevokeAt(d, |db.rows|, cert.name, q, oid).0.rows);
    }
  }

  lemma RevokeAtEvolves(db: Db, k: nat, subject: string, q: Request, oid: string -> bool)
    requires k < |db.rows|
    ensures RowsEvolve(db.rows, RevokeAt(db, k, subject, q, oid).0.rows)
  {
  }

  lemma ApplyEvolves(db: Db, c: Cmd, oid: string -> bool)
    ensures RowsEvolve(db.rows, Apply(db, c, oid).rows)
  {
    if c.DoRevoke? { RevokeEvolves(db, c.cert, c.q, oid); }
  }

  lemma {:induction false} RunEvolves(db: Db, cs: seq<Cmd>, oid: string -> bool)
    ensures RowsEvolve(db.rows, Run(db, cs, oid).rows)
  {
    if cs != [] {
      var mid := Run(db, cs[..|cs| - 1], oid);
      RunEvolves(db, cs[..|cs| - 1], oid);
      ApplyEvolves(mid, cs[|cs| - 1], oid);
      EvolveTransitive(db.rows, mid.rows, Run(db, cs, oid).rows);
    }
  }

  /** A successful revocation of an unlisted certificate adds exactly one row, which is R. */
  lemma RevokeUnlisted(db: Db, cert: Cert, q: Request, oid: string -> bool)
    requires !Listed(db, cert) && Revoke(db, cert, q, oid).1
    ensures var rows := Revoke(db, cert, q, oid).0.rows;
            |rows| == |db.rows| + 1 && rows[..|db.rows|] == db.rows
            && rows[|db.rows|] == NewRow(cert).(typ := "R", rev := Revocation.Field(q.now, q.t, q.arg, oid))
  {
    var r := NewRow(cert);
    assert Insert(db, r).value.rows[|db.rows|] == r;
  }

  /** A successful revocation of a listed certificate edits its row and nothing else: the type becomes R
      and the revocation date is the new field, whatever was there before. The index keeps the subject. */
  lemma RevokeListed(db: Db, cert: Cert, q: Request, oid: string -> bool)
    requires Listed(db, cert) && Revoke(db, cert, q, oid).1
    ensures var k, d := Find(db.rows, SerialNames.Key(cert.serial)), Revoke(db, cert, q, oid).0;
            && Revocation.Field(q.now, q.t, q.arg, oid).Some?
            && d == db.(rows := db.rows[k := db.rows[k].(typ := "R",
                                                         rev := Revocation.Field(q.now, q.t, q.arg, oid))])
    ensures forall i :: 0 <= i < |db.rows| && i != Find(db.rows, SerialNames.Key(cert.serial)) ==>
                          Revoke(db, cert, q, oid).0.rows[i] == db.rows[i]
  {
  }

  /** A revocation that fails changes nothing, unless it has inserted the certificate's row already: that
      one stays behind as a V row. */
  lemma RevokeFails(db: Db, cert: Cert, q: Request, oid: string -> bool)
    requires !Revoke(db, cert, q, oid).1
    ensures var d := Revoke(db, cert, q, oid).0;
            if !Listed(db, cert) && (db.unique ==> cert.name !in db.names)
            then d.rows == db.rows + [Row("V", cert.exp, None, cert.serial, "unknown", cert.name)]
            else d == db
  {
    InsertIff(db, NewRow(cert));
  }

  /** When a row is accepted: no row has its serial, and no V row or former V row that the name index
      knows has the subject of a V row. It is then the last one. */
  lemma InsertIff(db: Db, r: Row)
    ensures Insert(db, r).Some? <==>
            && (forall i :: 0 <= i < |db.rows| ==> SerialNames.Key(db.rows[i].serial) != SerialNames.Key(r.serial))
            && (db.unique && Type(r) == 'V' ==> r.name !in db.names)
    ensures Insert(db, r).Some? ==>
              Insert(db, r).value == Db(db.rows + [r], db.unique,
                                        db.names + if db.unique && Type(r) == 'V' then {r.name} else {})
  {
    var k := Find(db.rows, SerialNames.Key(r.serial));
    assert k >= 0 ==> SerialNames.Key(db.rows[k].serial) == SerialNames.Key(r.serial);
    assert db.names + {} == db.names;
  }

  /** When a certificate is issued, and what is added then. */
  lemma IssueIff(db: Db, cert: Cert)
    ensures Issue(db, cert).Some? <==>
            && (forall i :: 0 <= i < |db.rows| ==> SerialNames.Key(db.rows[i].serial) != SerialNames.Key(cert.serial))
            && (db.unique ==> cert.name !in db.names)
    ensures Issue(db, cert).Some? ==>
              Issue(db, cert).value == Db(db.rows + [Row("V", cert.exp, None, cert.serial, "unknown", cert.name)],
                                          db.unique, db.names + if db.unique then {cert.name} else {})
  {
    InsertIff(db, NewRow(cert));
  }

  /** Right after loading the subject only has to be that of no V row. */
  lemma IssueLoadedIff(rows: seq<Row>, unique: bool, cert: Cert)
    ensures Issue(Loaded(rows, unique), cert).Some? <==>
            && (forall i :: 0 <= i < |rows| ==> SerialNames.Key(rows[i].serial) != SerialNames.Key(cert.serial))
            && (unique ==> forall i :: 0 <= i < |rows| && Type(rows[i]) == 'V' ==> rows[i].name != cert.name)
  {
    IssueIff(Loaded(rows, unique), cert);
    hide Issue, SerialNames.Key;
  }

  /** The subject of a row that has just expired is still taken until the database is loaded again. */
  lemma ExpiredSubjectTaken(rows: seq<Row>, now: string, cert: Cert, k: nat)
    requires k < |rows| && Type(rows[k]) == 'V' && rows[k].name == cert.name
    ensures Issue(Loaded(rows, true).(rows := ExpireRows(rows, now)), cert) == None
  {
    IssueIff(Loaded(rows, true).(rows := ExpireRows(rows, now)), cert);
    hide Issue, SerialNames.Key;
    assert rows[k].name in Loaded(rows, true).names;
  }

  /** do_revoke succeeds exactly when the row exists or can be inserted, carries the certificate's
      subject, is not revoked yet, and the arguments are accepted. */
  lemma RevokeSucceedsIff(db: Db, cert: Cert, q: Request, oid: string -> bool)
    ensures Revoke(db, cert, q, oid).1 <==>
            && Revocation.Field(q.now, q.t, q.arg, oid).Some?
            && var k := Find(db.rows, SerialNames.Key(cert.serial));
               if k < 0 then db.unique ==> cert.name !in db.names
               else db.rows[k].name == cert.name && Type(db.rows[k]) != 'R'
  {
    var k := Find(db.rows, SerialNames.Key(cert.serial));
    if k >= 0 {
      StrCmpZero(cert.name, db.rows[k].name);
    } else {
      StrCmpZero(cert.name, cert.name);
    }
  }

  // ---- expiry ----

  lemma {:induction false} CountNone(rows: seq<Row>, now: string)
    requires forall i :: 0 <= i < |rows| ==> !Expires(rows[i], now)
    ensures ExpireCount(rows, now) == 0
  {
    if rows != [] { CountNone(rows[..|rows| - 1], now); }
  }

  /** After an update no row is left to mark: a second pass at the same time changes nothing. */
  lemma ExpireOnce(rows: seq<Row>, now: string)
    ensures ExpireRows(ExpireRows(rows, now), now) == ExpireRows(rows, now)
    ensures ExpireCount(ExpireRows(rows, now), now) == 0
  {
    CountNone(ExpireRows(rows, now), now);
  }

  function Changed(rows: seq<Row>, now: string): set<nat> {
    set i: nat | i < |rows| && ExpireRow(rows[i], now) != rows[i]
  }

  /** The count is the number of rows that changed. */
  lemma {:induction false} CountIsChanged(rows: seq<Row>, now: string)
    ensures ExpireCount(rows, now) == |Changed(rows, now)|
  {
    if rows == [] {
      assert Changed(rows, now) == {};
    } else {
      var n := |rows| - 1;
      CountIsChanged(rows[..n], now);
      assert Expires(rows[n], now) <==> ExpireRow(rows[n], now) != rows[n];
      OneMoreChanged(rows, now);
    }
  }

  lemma OneMoreChanged(rows: seq<Row>, now: string)
    requires rows != []
    ensures var n := |rows| - 1;
            |Changed(rows, now)| == |Changed(rows[..n], now)| + if ExpireRow(rows[n], now) != rows[n] then 1 else 0
  {
    var n := |rows| - 1;
    assert Changed(rows, now) == Changed(rows[..n], now) + if ExpireRow(rows[n], now) != rows[n] then {n} else {};
  }

  /** With RFC 5280 dates an update leaves exactly those V rows V that expire later than now. */
  lemma ExpireExact(rows: seq<Row>, now: string, i: nat)
    requires i < |rows| && Expiry.Utc(rows[i].exp) && Expiry.Utc(now)
    ensures Type(ExpireRows(rows, now)[i]) == 'V' <==>
            Type(rows[i]) == 'V' && !Expiry.AtOrBefore(Expiry.UtcInstant(rows[i].exp), Expiry.UtcInstant(now))
  {
    Expiry.MarksExactlyTheExpired(rows[i].exp, now);
  }

  /** And for every date that the load check accepts: the local date decides, and of a GeneralizedTime the
      misread one. Nothing but the type changes. */
  lemma ExpireAccepted(rows: seq<Row>, now: string, i: nat)
    requires i < |rows| && TimeFormat(rows[i].exp) && Expiry.Utc(now)
    ensures var exp := rows[i].exp;
            var passed := if UtcCheck(exp)
                          then Expiry.AtOrBefore(Local(exp), Expiry.UtcInstant(now))
                               && !(exp[10] == 'Z' && exp[..10] == now[..10])
                          else Expiry.AtOrBefore(Misread(exp), Expiry.UtcInstant(now));
            ExpireRows(rows, now)[i] == if Type(rows[i]) == 'V' && passed then rows[i].(typ := "E") else rows[i]
  {
    hide Expiry.MarksExpired, Expiry.AtOrBefore;
    if UtcCheck(rows[i].exp) { ZoneIgnored(rows[i].exp, now); } else { GeneralizedMisread(rows[i].exp, now); }
  }

  /** An upper-case text of a natural number. */
  predicate Denotes(serial: string, n: nat) {
    SerialNames.IsUpperHex(serial) && SerialNames.IsHex(serial) && SerialNames.Value(serial) == n
  }

  /** A status query, in any case and of any length, finds among loaded rows the upper-case row of that
      number or, when there is none, nothing. */
  lemma StatusFindsNumber(rows: seq<Row>, query: string)
    requires SerialNames.IsHex(query)
    requires forall i :: 0 <= i < |rows| ==> SerialLoads(rows[i].serial)
    ensures var k := Find(rows, SerialNames.Key(SerialNames.StatusKey(query)));
            if k < 0 then forall i :: 0 <= i < |rows| ==> !Denotes(rows[i].serial, SerialNames.Value(query))
            else Denotes(rows[k].serial, SerialNames.Value(query))
  {
    hide SerialNames.Key, SerialNames.StatusKey, SerialNames.Value;
    forall i | 0 <= i < |rows|
      ensures SerialNames.Key(rows[i].serial) == SerialNames.Key(SerialNames.StatusKey(query))
              <==> Denotes(rows[i].serial, SerialNames.Value(query))
    {
      StatusFindsRow(rows[i].serial, query);
    }
  }

  lemma StatusFindsRow(serial: string, query: string)
    requires SerialNames.IsHex(query) && SerialLoads(serial)
    ensures SerialNames.Key(serial) == SerialNames.Key(SerialNames.StatusKey(query))
            <==> Denotes(serial, SerialNames.Value(query))
  {
    hide SerialNames.Key, SerialNames.StatusKey, SerialNames.Value;
    StrCmpZero(SerialNames.Key(SerialNames.StatusKey(query)), SerialNames.Key(serial));
    if serial[0] == '-' {
      assert serial == "-" + serial[1..];
      SerialNames.QueryFindsNoNegative(query, serial[1..]);
    } else {
      SerialNames.QueryFindsItsNumber(query, serial);
    }
  }
}
