/** The database file between runs: what is saved loads again, and revocations stay on every CRL. */
module CaSessions {
  import opened Options
  import opened TxtDbFile
  import opened Asn1Time
  import opened CaDatabase
  import opened Positions
  import SerialNames
  import SerialNumberFile
  import Revocation

  // ---- rows as lines ----

  function Fields(r: Row): seq<Field> {
    [Some(r.typ), Some(r.exp), r.rev, Some(r.serial), Some(r.file), Some(r.name)]
  }

  function FromFields(f: seq<string>): Row
    requires |f| == 6
  {
    Row(f[0], f[1], Some(f[2]), f[3], f[4], f[5])
  }

  function Lines(rows: seq<Row>): (l: seq<seq<Field>>)
    ensures |l| == |rows| && forall i :: 0 <= i < |rows| ==> l[i] == Fields(rows[i])
  {
    seq(|rows|, i requires 0 <= i < |rows| => Fields(rows[i]))
  }

  function FileText(rows: seq<Row>): string { Write(PlainRows(Lines(rows))) }

  function Rows(ls: seq<seq<string>>): (rows: seq<Row>)
    requires forall i :: 0 <= i < |ls| ==> |ls[i]| == 6
    ensures |rows| == |ls| && forall i :: 0 <= i < |ls| ==> rows[i] == FromFields(ls[i])
  {
    seq(|ls|, i requires 0 <= i < |ls| => FromFields(ls[i]))
  }

  ghost function ReadRows(text: string): Option<seq<Row>> {
    ReadIsClean(text, 6);
    var ls := Read(text, 6);
    if ls.None? then None else Some(Rows(ls.value))
  }

  /** A null revocation field comes back empty. */
  function Reloaded(rows: seq<Row>): (out: seq<Row>)
    ensures |out| == |rows| && forall i :: 0 <= i < |rows| ==> out[i] == rows[i].(rev := Some(Text(rows[i].rev)))
  {
    seq(|rows|, i requires 0 <= i < |rows| => rows[i].(rev := Some(Text(rows[i].rev))))
  }

  ghost predicate CleanRow(r: Row) { Clean(Plain(Fields(r))) }

  lemma SaveLoad(rows: seq<Row>)
    requires forall i :: 0 <= i < |rows| ==> CleanRow(rows[i])
    ensures ReadRows(FileText(rows)) == Some(Reloaded(rows))
  {
    RoundTripIff(Lines(rows), 6);
    var ls := PlainRows(Lines(rows));
    assert Rows(ls) == Reloaded(rows);
  }

  /** The columns of a row: type, expiry, revocation, serial, file name and subject. */
  lemma RowText(r: Row)
    requires '\t' !in r.typ && '\t' !in r.exp && '\t' !in Text(r.rev)
    requires '\t' !in r.serial && '\t' !in r.file && '\t' !in r.name
    ensures FileText([r]) == r.typ + "\t" + r.exp + "\t" + Text(r.rev) + "\t"
                             + r.serial + "\t" + r.file + "\t" + r.name + "\n"
  {
    var p := PlainRows(Lines([r]));
    assert p == [p[0]] && p[0] == [r.typ, r.exp, Text(r.rev), r.serial, r.file, r.name];
    assert p[1..] == [] && Write([]) == [];
    EscapePlain(r.typ);
    EscapePlain(r.exp);
    EscapePlain(Text(r.rev));
    EscapePlain(r.serial);
    EscapePlain(r.file);
    EscapePlain(r.name);
    SixFields(r.typ, r.exp, Text(r.rev), r.serial, r.file, r.name);
    assert WriteRow(p[0]) + [] == WriteRow(p[0]);
  }

  /** One more field that needs no escapes. */
  lemma OneMoreField(row: seq<string>, f: string, text: string)
    requires Escape(f) == f && WriteFields(row) == text
    ensures WriteFields(row + [f]) == text + f + "\t"
  {
    WriteFieldsSnoc(row, f);
  }

  lemma SixFields(a: string, b: string, c: string, d: string, e: string, f: string)
    requires Escape(a) == a && Escape(b) == b && Escape(c) == c && Escape(d) == d && Escape(e) == e && Escape(f) == f
    ensures WriteRow([a, b, c, d, e, f]) == a + "\t" + b + "\t" + c + "\t" + d + "\t" + e + "\t" + f + "\n"
  {
    hide Escape, WriteFields;
    var t5 := FiveFields(a, b, c, d, e);
    OneMoreField([a, b, c, d, e], f, t5);
    assert [a, b, c, d, e] + [f] == [a, b, c, d, e, f];
    assert (t5 + f + "\t")[..|t5 + f|] == t5 + f;
  }

  lemma FiveFields(a: string, b: string, c: string, d: string, e: string) returns (t: string)
    requires Escape(a) == a && Escape(b) == b && Escape(c) == c && Escape(d) == d && Escape(e) == e
    ensures t == a + "\t" + b + "\t" + c + "\t" + d + "\t" + e + "\t" && WriteFields([a, b, c, d, e]) == t
  {
    assert WriteFields([]) == "" && "" + a + "\t" == a + "\t";
    hide Escape, WriteFields;
    OneMoreField([], a, "");
    assert [] + [a] == [a] && [a] + [b] == [a, b] && [a, b] + [c] == [a, b, c];
    OneMoreField([a], b, a + "\t");
    OneMoreField([a, b], c, a + "\t" + b + "\t");
    assert [a, b, c] + [d] == [a, b, c, d] && [a, b, c, d] + [e] == [a, b, c, d, e];
    OneMoreField([a, b, c], d, a + "\t" + b + "\t" + c + "\t");
    OneMoreField([a, b, c, d], e, a + "\t" + b + "\t" + c + "\t" + d + "\t");
    t := a + "\t" + b + "\t" + c + "\t" + d + "\t" + e + "\t";
  }

  /** The text of a file is that of its rows, one behind the other. */
  lemma {:induction false} FileTextConcat(a: seq<Row>, b: seq<Row>)
    ensures FileText(a + b) == FileText(a) + FileText(b)
  {
    if a == [] {
      assert a + b == b && PlainRows(Lines(a)) == [];
    } else {
      var p := PlainRows(Lines(a));
      assert (a + b)[0] == a[0] && (a + b)[1..] == a[1..] + b;
      assert PlainRows(Lines(a + b))[1..] == PlainRows(Lines(a[1..] + b)) && p[1..] == PlainRows(Lines(a[1..]));
      assert PlainRows(Lines(a + b))[0] == p[0];
      hide WriteRow;
      FileTextConcat(a[1..], b);
      assert WriteRow(p[0]) + (FileText(a[1..]) + FileText(b)) == (WriteRow(p[0]) + FileText(a[1..])) + FileText(b);
    }
  }

  // ---- what a run leaves behind loads again ----

  ghost predicate RowGood(r: Row, oid: string -> bool) { RowLoads(r, oid) && CleanRow(r) }

  ghost predicate AllGood(rows: seq<Row>, oid: string -> bool) {
    forall i :: 0 <= i < |rows| ==> RowGood(rows[i], oid)
  }

  /** Object identifiers contain no newline and do not end in a backslash. */
  ghost predicate OidText(oid: string -> bool) {
    forall s: string :: oid(s) ==> '\n' !in s && !EndsInBackslash(s)
  }

  /** What holds of every certificate: a serial number printed by BN_bn2hex and a subject printed
      without newlines. Its expiry text is whatever its encoding contains. */
  ghost predicate CertText(cert: Cert) {
    (exists n :: cert.serial == SerialNames.SerialText(n)) && '\n' !in cert.name
  }

  /** do_body sets the expiry time of the certificates it makes. */
  ghost predicate Printed(c: Cmd) {
    match c
    case DoExpire(now) => true
    case DoIssue(cert) => CertText(cert) && TimeFormat(cert.exp)
    case DoRevoke(cert, q) => CertText(cert) && TimeFormat(q.now)
  }

  ghost predicate AllPrinted(cs: seq<Cmd>) {
    forall i :: 0 <= i < |cs| ==> Printed(cs[i])
  }

  /** A revocation that inserts a row must find an accepted expiry text in the certificate, and one
      that succeeds needs a clock that prints as UTCTime. */
  predicate Harmless(db: Db, c: Cmd, oid: string -> bool) {
    c.DoRevoke? ==>
      && (Insert(db, NewRow(c.cert)).Some? ==> TimeFormat(c.cert.exp))
      && (Revoke(db, c.cert, c.q, oid).1 ==> UtcCheck(c.q.now))
  }

  ghost predicate AllHarmless(db: Db, cs: seq<Cmd>, oid: string -> bool) {
    forall k :: 0 <= k < |cs| ==> Harmless(Run(db, cs[..k], oid), cs[k], oid)
  }

  lemma CleanFields(r: Row)
    ensures CleanRow(r) <==>
            && '\n' !in r.typ && '\n' !in r.exp && '\n' !in Text(r.rev)
            && '\n' !in r.serial && '\n' !in r.file && '\n' !in r.name
            && !EndsInBackslash(r.typ) && !EndsInBackslash(r.exp) && !EndsInBackslash(Text(r.rev))
            && !EndsInBackslash(r.serial) && !EndsInBackslash(r.file)
            && (r.typ != "" ==> r.typ[0] != '#')
  {
    var p := Plain(Fields(r));
    assert p == [r.typ, r.exp, Text(r.rev), r.serial, r.file, r.name];
    if CleanRow(r) {
      assert '\n' !in p[0] && '\n' !in p[1] && '\n' !in p[2] && '\n' !in p[3] && '\n' !in p[4] && '\n' !in p[5];
      assert !EndsInBackslash(p[0]) && !EndsInBackslash(p[1]) && !EndsInBackslash(p[2])
             && !EndsInBackslash(p[3]) && !EndsInBackslash(p[4]);
    }
  }

  lemma TimeIsClean(s: string)
    requires TimeFormat(s)
    ensures '\n' !in s && ',' !in s && !EndsInBackslash(s)
  {
    AcceptedChars(s);
  }

  lemma NumeralIsClean(s: string)
    requires SerialLoads(s)
    ensures '\n' !in s && !EndsInBackslash(s)
  {
    var p := Digits(s);
    assert forall i :: 0 <= i < |s| ==> s[i] == '-' || s[i] in p;
  }

  lemma SerialTextLoads(n: int)
    ensures SerialLoads(SerialNames.SerialText(n))
  {
    hide SerialNames.SerialText, SerialNames.PrintBytes, SerialNames.Bytes, SerialNames.Value, SerialNames.Key;
    if n >= 0 {
      SerialNames.SerialTextDenotes(n);
      assert SerialNames.SerialText(n)[0] != '-';
    } else {
      SerialNames.NegativeText(n);
      SerialNames.KeepsSign(SerialNames.PrintBytes(SerialNames.Bytes(-n)));
    }
  }

  /** A serial loads exactly when its digits, one minus sign in front aside, are those of some bytes, in
      either case. */
  lemma SerialLoadsIff(s: string)
    ensures SerialLoads(s) <==>
            exists b: seq<SerialNames.Octet> :: b != [] && SerialNames.UpperAll(Digits(s)) == SerialNames.PrintBytes(b)
  {
    var d := Digits(s);
    if SerialLoads(s) {
      SerialNumberFile.PrintOfPairs(d);
      assert SerialNumberFile.Pairs(d) != [];
    }
    if b: seq<SerialNames.Octet> :|
        b != [] && SerialNames.UpperAll(d) == SerialNames.PrintBytes(b)
    {
      hide SerialNames.PrintBytes;
      assert SerialNames.IsUpperHex(SerialNames.UpperAll(d));
      assert |d| == 2 * |b|;
      forall i | 0 <= i < |d|
        ensures SerialNames.Hex(d[i])
      {
        assert SerialNames.UpperHex(SerialNames.UpperAll(d)[i]);
      }
    }
  }

  lemma PrintedSerialLoads(cert: Cert)
    requires CertText(cert)
    ensures SerialLoads(cert.serial)
  {
    var n :| cert.serial == SerialNames.SerialText(n);
    SerialTextLoads(n);
  }

  /** All that a row needs besides an accepted expiry text and a readable revocation field. */
  ghost predicate RowSafe(r: Row) {
    && CleanRow(r.(exp := "")) && SerialLoads(r.serial) && (Type(r) != 'R' ==> Text(r.rev) == "")
  }

  ghost predicate AllSafe(rows: seq<Row>) {
    forall i :: 0 <= i < |rows| ==> RowSafe(rows[i])
  }

  lemma GoodIff(r: Row, oid: string -> bool)
    ensures RowGood(r, oid) <==>
            RowSafe(r) && TimeFormat(r.exp) && (Type(r) == 'R' ==> Revocation.Unpack(Text(r.rev), oid).Some?)
  {
    hide CleanRow, TimeFormat, Revocation.Unpack, SerialLoads;
    CleanFields(r);
    CleanFields(r.(exp := ""));
    if TimeFormat(r.exp) { TimeIsClean(r.exp); }
  }

  lemma NewRowSafe(cert: Cert)
    requires CertText(cert)
    ensures RowSafe(NewRow(cert))
  {
    hide CleanRow, SerialLoads;
    PrintedSerialLoads(cert);
    NumeralIsClean(cert.serial);
    CleanFields(NewRow(cert).(exp := ""));
  }

  lemma NewRowGoodIff(cert: Cert, oid: string -> bool)
    requires CertText(cert)
    ensures RowGood(NewRow(cert), oid) <==> TimeFormat(cert.exp)
  {
    NewRowSafe(cert);
    GoodIff(NewRow(cert), oid);
  }

  lemma FieldIsClean(q: Request, oid: string -> bool)
    requires TimeFormat(q.now) && OidText(oid) && Revocation.Field(q.now, q.t, q.arg, oid).Some?
    ensures var s := Revocation.Field(q.now, q.t, q.arg, oid).value; '\n' !in s && !EndsInBackslash(s)
  {
    TimeIsClean(q.now);
    PartsAreClean(q, oid);
    var p := Revocation.Parts(q.t, q.arg, oid).value;
    JoinIsClean(q.now, p.0, p.1);
  }

  /** A revocation field passes the check of the next load exactly when the clock printed as UTCTime. */
  lemma FieldLoadsIff(q: Request, oid: string -> bool)
    requires TimeFormat(q.now) && Revocation.Field(q.now, q.t, q.arg, oid).Some?
    ensures Revocation.Unpack(Revocation.Field(q.now, q.t, q.arg, oid).value, oid).Some? <==> UtcCheck(q.now)
  {
    TimeIsClean(q.now);
    Revocation.FieldRoundTripIff(q.now, q.t, q.arg, oid);
  }

  lemma PartsAreClean(q: Request, oid: string -> bool)
    requires OidText(oid) && Revocation.Parts(q.t, q.arg, oid).Some?
    ensures var p := Revocation.Parts(q.t, q.arg, oid).value;
            && (p.0.Some? ==> '\n' !in p.0.value && !EndsInBackslash(p.0.value))
            && (p.1.Some? ==> '\n' !in p.1.value && !EndsInBackslash(p.1.value))
  {
    match q.t
    case RevNone =>
    case CrlReason => ReasonIsClean(Revocation.FindReason(q.arg, 8));
    case Hold =>
    case KeyCompromise => TimeIsClean(q.arg);
    case CaCompromise => TimeIsClean(q.arg);
  }

  lemma ReasonIsClean(i: nat)
    requires i < 11
    ensures '\n' !in Revocation.Reason(i) && !EndsInBackslash(Revocation.Reason(i))
  {
    if i < 6 { FirstReasonsClean(i); } else { LastReasonsClean(i); }
  }

  lemma FirstReasonsClean(i: nat)
    requires i < 6
    ensures '\n' !in Revocation.Reason(i) && !EndsInBackslash(Revocation.Reason(i))
  {
  }

  lemma LastReasonsClean(i: nat)
    requires 6 <= i < 11
    ensures '\n' !in Revocation.Reason(i) && !EndsInBackslash(Revocation.Reason(i))
  {
  }

  lemma JoinIsClean(now: string, reason: Option<string>, other: Option<string>)
    requires '\n' !in now && !EndsInBackslash(now)
    requires reason.Some? ==> '\n' !in reason.value && !EndsInBackslash(reason.value)
    requires other.Some? ==> '\n' !in other.value && !EndsInBackslash(other.value)
    ensures var s := Revocation.Join(now, reason, other); '\n' !in s && !EndsInBackslash(s)
  {
  }

  lemma RevokedRowGoodIff(r: Row, q: Request, oid: string -> bool)
    requires RowSafe(r) && Type(r) != 'R'
    requires TimeFormat(q.now) && OidText(oid) && Revocation.Field(q.now, q.t, q.arg, oid).Some?
    ensures var r' := r.(typ := "R", rev := Revocation.Field(q.now, q.t, q.arg, oid));
            RowSafe(r') && (RowGood(r', oid) <==> RowGood(r, oid) && UtcCheck(q.now))
  {
    var r' := r.(typ := "R", rev := Revocation.Field(q.now, q.t, q.arg, oid));
    hide CleanRow, TimeFormat, Revocation.Unpack, Revocation.Field, SerialLoads, UtcCheck;
    FieldIsClean(q, oid);
    FieldLoadsIff(q, oid);
    CleanFields(r.(exp := ""));
    CleanFields(r'.(exp := ""));
    GoodIff(r, oid);
    GoodIff(r', oid);
  }

  lemma ExpiredRowGoodIff(r: Row, now: string, oid: string -> bool)
    requires RowSafe(r)
    ensures RowSafe(ExpireRow(r, now)) && (RowGood(ExpireRow(r, now), oid) <==> RowGood(r, oid))
  {
    var r' := ExpireRow(r, now);
    hide CleanRow, TimeFormat, Revocation.Unpack, SerialLoads;
    CleanFields(r.(exp := ""));
    CleanFields(r'.(exp := ""));
    GoodIff(r, oid);
    GoodIff(r', oid);
  }

  /** What a command does to the rows that are safe, and to those that also load. */
  ghost predicate StepKeeps(before: seq<Row>, after: seq<Row>, harmless: bool, oid: string -> bool) {
    AllSafe(after) && (AllGood(after, oid) <==> AllGood(before, oid) && harmless)
  }

  lemma RevokeAtKeeps(db: Db, k: nat, subject: string, q: Request, oid: string -> bool)
    requires AllSafe(db.rows) && OidText(oid) && TimeFormat(q.now) && k < |db.rows|
    ensures var (d, ok) := RevokeAt(db, k, subject, q, oid); StepKeeps(db.rows, d.rows, ok ==> UtcCheck(q.now), oid)
  {
    var r := RevokedRow(db.rows[k], subject, q, oid);
    if r.Some? {
      hide RowSafe, RowGood, UtcCheck, TimeFormat;
      RevokedRowGoodIff(db.rows[k], q, oid);
      EditKeeps(db.rows, k, r.value, UtcCheck(q.now), oid);
    }
  }

  lemma EditKeeps(rows: seq<Row>, k: nat, r: Row, harmless: bool, oid: string -> bool)
    requires AllSafe(rows) && k < |rows| && RowSafe(r) && (RowGood(r, oid) <==> RowGood(rows[k], oid) && harmless)
    ensures StepKeeps(rows, rows[k := r], harmless, oid)
  {
    hide RowSafe, RowGood;
    var out := rows[k := r];
    assert forall i :: 0 <= i < |rows| && i != k ==> out[i] == rows[i];
    assert out[k] == r;
  }

  lemma AppendKeeps(rows: seq<Row>, r: Row, oid: string -> bool)
    requires AllSafe(rows) && RowSafe(r)
    ensures StepKeeps(rows, rows + [r], RowGood(r, oid), oid)
  {
    hide RowSafe, RowGood;
    var out := rows + [r];
    assert forall i :: 0 <= i < |rows| ==> out[i] == rows[i];
    assert out[|rows|] == r;
  }

  lemma RevokeKeeps(db: Db, cert: Cert, q: Request, oid: string -> bool)
    requires AllSafe(db.rows) && OidText(oid) && CertText(cert) && TimeFormat(q.now)
    ensures StepKeeps(db.rows, Revoke(db, cert, q, oid).0.rows, Harmless(db, DoRevoke(cert, q), oid), oid)
  {
    hide RowSafe, RowGood, UtcCheck, TimeFormat, RevokedRow;
    var k := Find(db.rows, SerialNames.Key(cert.serial));
    if k >= 0 {
      RevokeAtKeeps(db, k, cert.name, q, oid);
    } else if Insert(db, NewRow(cert)).Some? {
      NewRowSafe(cert);
      NewRowGoodIff(cert, oid);
      AppendKeeps(db.rows, NewRow(cert), oid);
      RevokeAtKeeps(Insert(db, NewRow(cert)).value, |db.rows|, cert.name, q, oid);
    }
  }

  lemma ExpireKeeps(rows: seq<Row>, now: string, oid: string -> bool)
    requires AllSafe(rows)
    ensures StepKeeps(rows, ExpireRows(rows, now), true, oid)
  {
    hide RowSafe, RowGood, ExpireRow;
    forall i | 0 <= i < |rows|
      ensures RowSafe(ExpireRows(rows, now)[i]) && (RowGood(ExpireRows(rows, now)[i], oid) <==> RowGood(rows[i], oid))
    {
      ExpiredRowGoodIff(rows[i], now, oid);
    }
  }

  lemma ApplyKeeps(db: Db, c: Cmd, oid: string -> bool)
    requires AllSafe(db.rows) && OidText(oid) && Printed(c)
    ensures StepKeeps(db.rows, Apply(db, c, oid).rows, Harmless(db, c, oid), oid)
  {
    hide RowSafe, RowGood, TimeFormat, UtcCheck, Revoke;
    match c
    case DoExpire(now) =>
      ExpireKeeps(db.rows, now, oid);
    case DoIssue(cert) =>
      NewRowSafe(cert);
      NewRowGoodIff(cert, oid);
      AppendKeeps(db.rows, NewRow(cert), oid);
    case DoRevoke(cert, q) => RevokeKeeps(db, cert, q, oid);
  }

  /** After any commands all rows load exactly when every command was harmless. */
  lemma {:induction false} RunGoodIff(db: Db, cs: seq<Cmd>, oid: string -> bool)
    requires AllGood(db.rows, oid) && OidText(oid) && AllPrinted(cs)
    ensures AllSafe(Run(db, cs, oid).rows)
    ensures AllGood(Run(db, cs, oid).rows, oid) <==> AllHarmless(db, cs, oid)
  {
    if cs == [] {
      AllGoodAreSafe(db.rows, oid);
    } else {
      var n := |cs| - 1;
      assert forall i :: 0 <= i < n ==> cs[..n][i] == cs[i];
      RunGoodIff(db, cs[..n], oid);
      hide AllGood, AllSafe, Harmless, Apply, Printed;
      ApplyKeeps(Run(db, cs[..n], oid), cs[n], oid);
      HarmlessSnoc(db, cs, oid);
      KeepsMeans(Run(db, cs[..n], oid).rows, Run(db, cs, oid).rows, Harmless(Run(db, cs[..n], oid), cs[n], oid), oid);
    }
  }

  lemma KeepsMeans(before: seq<Row>, after: seq<Row>, harmless: bool, oid: string -> bool)
    requires StepKeeps(before, after, harmless, oid)
    ensures AllSafe(after) && (AllGood(after, oid) <==> AllGood(before, oid) && harmless)
  {
  }

  lemma AllGoodAreSafe(rows: seq<Row>, oid: string -> bool)
    requires AllGood(rows, oid)
    ensures AllSafe(rows)
  {
    hide RowSafe, RowGood;
    forall i | 0 <= i < |rows|
      ensures RowSafe(rows[i])
    {
      GoodIff(rows[i], oid);
    }
  }

  lemma HarmlessSnoc(db: Db, cs: seq<Cmd>, oid: string -> bool)
    requires cs != []
    ensures var n := |cs| - 1;
            AllHarmless(db, cs, oid) <==> AllHarmless(db, cs[..n], oid) && Harmless(Run(db, cs[..n], oid), cs[n], oid)
  {
    hide Harmless, Run;
    var n := |cs| - 1;
    assert forall k :: 0 <= k < n ==> cs[..n][..k] == cs[..k] && cs[..n][k] == cs[k];
  }

  /** A database file the tool accepts. */
  ghost predicate FileLoads(text: string, unique: bool, oid: string -> bool) {
    ReadRows(text).Some? && Loads(ReadRows(text).value, unique, oid)
  }

  lemma ReadRowsClean(text: string)
    ensures ReadRows(text).Some? ==> forall i :: 0 <= i < |ReadRows(text).value| ==> CleanRow(ReadRows(text).value[i])
  {
    ReadIsClean(text, 6);
    var ls := Read(text, 6);
    if ls.Some? {
      forall i | 0 <= i < |ls.value|
        ensures CleanRow(FromFields(ls.value[i]))
      {
        assert Plain(Fields(FromFields(ls.value[i]))) == ls.value[i];
      }
    }
  }

  lemma ReloadedLoads(rows: seq<Row>, unique: bool, oid: string -> bool)
    requires Loads(rows, unique, oid)
    ensures Loads(Reloaded(rows), unique, oid)
  {
    var r := Reloaded(rows);
    assert forall i :: 0 <= i < |rows| ==>
      r[i].serial == rows[i].serial && r[i].name == rows[i].name && r[i].typ == rows[i].typ;
    forall i | 0 <= i < |rows|
      ensures RowLoads(r[i], oid)
    {
      assert RowLoads(rows[i], oid);
    }
  }

  lemma LoadsWithout(rows: seq<Row>, unique: bool, oid: string -> bool)
    requires Loads(Reloaded(rows), unique, oid)
    ensures forall i :: 0 <= i < |rows| ==> RowLoads(rows[i], oid)
  {
    hide DistinctSerials, DistinctValidNames;
    var r := Reloaded(rows);
    forall i | 0 <= i < |rows|
      ensures RowLoads(rows[i], oid)
    {
      assert RowLoads(r[i], oid);
    }
  }

  /** A safe row that is not clean has a newline or a final backslash in its expiry text. */
  lemma SafeIsBroken(r: Row)
    requires RowSafe(r) && !CleanRow(r)
    ensures Broken(Plain(Fields(r)))
  {
    assert Plain(Fields(r))[1 := ""] == Plain(Fields(r.(exp := "")));
  }

  lemma UncleanUnreadable(rows: seq<Row>, i: nat)
    requires AllSafe(rows) && i < |rows| && !CleanRow(rows[i])
    ensures ReadRows(FileText(rows)) == None
  {
    var ls := PlainRows(Lines(rows));
    forall k | 0 <= k < |rows|
      ensures |ls[k]| == 6 && (Clean(ls[k]) || Broken(ls[k])) && (k == i ==> Broken(ls[k]))
    {
      if !CleanRow(rows[k]) { SafeIsBroken(rows[k]); }
    }
    hide Clean, Broken, Read, Write, RowSafe;
    BrokenRowUnreadable(ls, 6, i);
  }

  /** A file of safe, distinct rows loads exactly when all rows do, and then with the same rows. */
  lemma SafeFileLoadsIff(rows: seq<Row>, unique: bool, oid: string -> bool)
    requires AllSafe(rows) && DistinctSerials(rows) && (unique ==> DistinctValidNames(rows))
    ensures AllGood(rows, oid) ==> ReadRows(FileText(rows)) == Some(Reloaded(rows))
    ensures FileLoads(FileText(rows), unique, oid) <==> AllGood(rows, oid)
  {
    hide RowSafe, CleanRow, ReadRows, RowLoads;
    if i :| 0 <= i < |rows| && !CleanRow(rows[i]) {
      UncleanUnreadable(rows, i);
    } else {
      SaveLoad(rows);
      if AllGood(rows, oid) { ReloadedLoads(rows, unique, oid); }
      if Loads(Reloaded(rows), unique, oid) { LoadsWithout(rows, unique, oid); }
    }
  }

  lemma RunSafeRows(text: string, unique: bool, cs: seq<Cmd>, oid: string -> bool)
    requires FileLoads(text, unique, oid) && OidText(oid) && AllPrinted(cs)
    ensures var db := Loaded(ReadRows(text).value, unique); var d := Run(db, cs, oid);
            Inv(d) && d.unique == unique && AllSafe(d.rows) && (AllGood(d.rows, oid) <==> AllHarmless(db, cs, oid))
  {
    var rows := ReadRows(text).value;
    ReadRowsClean(text);
    LoadedInv(rows, unique, oid);
    RunInv(Loaded(rows, unique), cs, oid);
    hide CleanRow, RowLoads, Inv;
    RunGoodIff(Loaded(rows, unique), cs, oid);
  }

  /** The file a run writes from an accepted one is accepted again exactly when every command was
      harmless, and then it has the same rows. */
  lemma ReloadClosure(text: string, unique: bool, cs: seq<Cmd>, oid: string -> bool)
    requires FileLoads(text, unique, oid) && OidText(oid) && AllPrinted(cs)
    ensures var db := Loaded(ReadRows(text).value, unique); var rows := Run(db, cs, oid).rows;
            && (FileLoads(FileText(rows), unique, oid) <==> AllHarmless(db, cs, oid))
            && (AllHarmless(db, cs, oid) ==> ReadRows(FileText(rows)) == Some(Reloaded(rows)))
  {
    var db := Loaded(ReadRows(text).value, unique);
    hide FileLoads, Run, AllHarmless, AllSafe, AllGood, AllPrinted;
    RunSafeRows(text, unique, cs, oid);
    SafeFileLoadsIff(Run(db, cs, oid).rows, unique, oid);
  }

  /** One successful revocation: the clock must print as UTCTime, and an unlisted certificate must
      have an accepted expiry text. */
  lemma RevokeReloadsIff(text: string, unique: bool, cert: Cert, q: Request, oid: string -> bool)
    requires FileLoads(text, unique, oid) && OidText(oid) && CertText(cert) && TimeFormat(q.now)
    requires Revoke(Loaded(ReadRows(text).value, unique), cert, q, oid).1
    ensures var db := Loaded(ReadRows(text).value, unique);
            FileLoads(FileText(Revoke(db, cert, q, oid).0.rows), unique, oid)
            <==> UtcCheck(q.now) && (Listed(db, cert) || TimeFormat(cert.exp))
  {
    var db, c := Loaded(ReadRows(text).value, unique), DoRevoke(cert, q);
    OneCommand(db, c, oid);
    hide FileLoads, Revoke, TimeFormat, UtcCheck, Run, AllHarmless;
    ReloadClosure(text, unique, [c], oid);
    RevokeSucceedsIff(db, cert, q, oid);
  }

  lemma OneCommand(db: Db, c: Cmd, oid: string -> bool)
    ensures Run(db, [c], oid) == Apply(db, c, oid) && (AllHarmless(db, [c], oid) <==> Harmless(db, c, oid))
  {
    assert [c][..0] == [] && Run(db, [], oid) == db;
    if AllHarmless(db, [c], oid) { assert Harmless(Run(db, [c][..0], oid), [c][0], oid); }
  }

  lemma EmptyFileLoads(oid: string -> bool)
    ensures ReadRows("") == Some([]) && FileLoads("", false, oid)
  {
    assert Read("", 6) == Some([]);
    assert Rows([]) == [];
    hide RowLoads;
  }

  const SOME_CLOCK := "240101000000Z"

  lemma SomeClockIsUtc()
    ensures UtcCheck(SOME_CLOCK) && !TimeFormat("")
  {
  }

  lemma RevokedInEmpty(cert: Cert, oid: string -> bool)
    ensures !Listed(Loaded([], false), cert)
    ensures Revoke(Loaded([], false), cert, Request(SOME_CLOCK, Revocation.RevNone, ""), oid).1
  {
    RevokeSucceedsIff(Loaded([], false), cert, Request(SOME_CLOCK, Revocation.RevNone, ""), oid);
  }

  /** Revoking a certificate with an empty expiry time makes an empty database unloadable. */
  lemma RevokeUnloadableExample(oid: string -> bool)
    requires OidText(oid)
    ensures var db, cert, q := Loaded([], false), Cert("01", "", ""), Request(SOME_CLOCK, Revocation.RevNone, "");
            && FileLoads("", false, oid) && ReadRows("") == Some([]) && CertText(cert) && UtcCheck(q.now)
            && Revoke(db, cert, q, oid).1 && !FileLoads(FileText(Revoke(db, cert, q, oid).0.rows), false, oid)
  {
    var cert, q := Cert("01", "", ""), Request(SOME_CLOCK, Revocation.RevNone, "");
    SerialOneText();
    assert CertText(cert);
    hide FileLoads, ReadRows, Revoke, CertText, UtcCheck, Loaded, FileText, SOME_CLOCK, Listed;
    EmptyFileLoads(oid);
    SomeClockIsUtc();
    RevokedInEmpty(cert, oid);
    RevokeReloadsIff("", false, cert, q, oid);
  }

  lemma SerialOneText()
    ensures SerialNames.SerialText(1) == "01"
  {
    SerialNames.NonzeroText(1);
    assert SerialNames.Bytes(1) == [1] by { assert SerialNames.Bytes(0) == []; }
    SerialNames.PrintOneMore([], 1);
    assert [] + [1] == [1];
  }

  // ---- the CRL ----

  /** BN_hex2bn. */
  function Number(serial: string): int {
    var d := Digits(serial);
    var n: int := SerialNames.Value(d[..SerialNames.HexRun(d)]);
    if serial != [] && serial[0] == '-' then -n else n
  }

  /** The CRL carries the number the row was issued under. */
  lemma NumberOfSerialText(n: int)
    ensures Number(SerialNames.SerialText(n)) == n
  {
    hide SerialNames.SerialText, SerialNames.PrintBytes, SerialNames.Bytes, SerialNames.Value, SerialNames.HexRun;
    if n >= 0 {
      SerialNames.SerialTextDenotes(n);
      NumberOfNumeral(SerialNames.SerialText(n));
    } else {
      SerialNames.NegativeText(n);
      SerialNames.PrintBytesValue(-n);
      SerialNames.KeepsSign(SerialNames.PrintBytes(SerialNames.Bytes(-n)));
      NumberOfNumeral(SerialNames.PrintBytes(SerialNames.Bytes(-n)));
    }
  }

  lemma NumberOfNumeral(s: string)
    requires SerialNames.IsHex(s)
    ensures s[..SerialNames.HexRun(s)] == s
  {
  }

  /** Loaded serials with the same index key are the same number. */
  lemma SameKeySameNumber(a: string, b: string)
    requires SerialLoads(a) && SerialLoads(b) && SerialNames.Key(a) == SerialNames.Key(b)
    ensures Number(a) == Number(b)
  {
    NumberByKey(a);
    NumberByKey(b);
  }

  /** The key of a loaded serial keeps its sign and its number. */
  lemma NumberByKey(s: string)
    requires SerialLoads(s)
    ensures var k := SerialNames.Key(s);
            if s[0] == '-' then k == s
            else SerialNames.IsHex(k) && (k == [] || k[0] != '-') && Number(s) == SerialNames.Value(k)
  {
    hide SerialNames.Value, SerialNames.HexRun;
    if s[0] == '-' {
      SerialNames.KeepsSign(s[1..]);
      assert s == "-" + s[1..];
    } else {
      NumberOfNumeral(s);
      SerialNames.KeyValue(s);
    }
  }

  datatype CrlEntry = CrlEntry(serial: int, info: Revocation.RevInfo)

  /** The entry of an R row, unless its revocation field or its serial cannot be read. */
  function Entry(r: Row, oid: string -> bool): Option<CrlEntry> {
    var info := Revocation.Unpack(Text(r.rev), oid);
    if info.None? || r.serial == "" then None else Some(CrlEntry(Number(r.serial), info.value))
  }

  /** The loop that collects the CRL: the entries of the R rows in database order, or None as soon as
      one of them cannot be entered. */
  function Collect<E>(rows: seq<Row>, entry: Row -> Option<E>): Option<seq<E>> {
    if rows == [] then Some([])
    else
      var r := rows[|rows| - 1];
      var before := Collect(rows[..|rows| - 1], entry);
      if before.None? || Type(r) != 'R' then before
      else
        var e := entry(r);
        if e.None? then None else Some(before.value + [e.value])
  }

  lemma CollectSnoc<E>(rows: seq<Row>, entry: Row -> Option<E>, i: nat)
    requires i < |rows|
    ensures var before := Collect(rows[..i], entry);
            Collect(rows[..i + 1], entry) == if before.None? || Type(rows[i]) != 'R' then before
                                             else if entry(rows[i]).None? then None
                                             else Some(before.value + [entry(rows[i]).value])
  {
    assert rows[..i + 1][..i] == rows[..i];
  }

  function Crl(rows: seq<Row>, oid: string -> bool): Option<seq<CrlEntry>> {
    Collect(rows, r => Entry(r, oid))
  }

  function RevokedRows(rows: seq<Row>): set<nat> {
    set i: nat | i < |rows| && Type(rows[i]) == 'R'
  }

  lemma OneMoreRevoked(rows: seq<Row>)
    requires rows != []
    ensures var n := |rows| - 1; |RevokedRows(rows)| == |RevokedRows(rows[..n])| + if Type(rows[n]) == 'R' then 1 else 0
  {
    var n := |rows| - 1;
    assert RevokedRows(rows) == RevokedRows(rows[..n]) + if Type(rows[n]) == 'R' then {n} else {};
  }

  /** Collecting succeeds exactly when every R row has an entry, and yields one entry a row. */
  lemma {:induction false} CollectCounts<E>(rows: seq<Row>, entry: Row -> Option<E>)
    ensures Collect(rows, entry).Some? <==> forall i :: 0 <= i < |rows| && Type(rows[i]) == 'R' ==> entry(rows[i]).Some?
    ensures Collect(rows, entry).Some? ==> |Collect(rows, entry).value| == |RevokedRows(rows)|
  {
    if rows == [] {
      assert RevokedRows(rows) == {};
    } else {
      var n := |rows| - 1;
      CollectCounts(rows[..n], entry);
      OneMoreRevoked(rows);
      assert forall i :: 0 <= i < n ==> rows[..n][i] == rows[i];
    }
  }

  lemma {:induction false} CollectMembers<E>(rows: seq<Row>, entry: Row -> Option<E>, e: E)
    requires Collect(rows, entry).Some?
    ensures e in Collect(rows, entry).value <==>
            exists i :: 0 <= i < |rows| && Type(rows[i]) == 'R' && entry(rows[i]) == Some(e)
  {
    if rows != [] {
      var n := |rows| - 1;
      CollectMembers(rows[..n], entry, e);
      assert forall i :: 0 <= i < n ==> rows[..n][i] == rows[i];
    }
  }

  /** What an entry says about its row. */
  lemma EntryIs(r: Row, oid: string -> bool, e: CrlEntry)
    ensures Entry(r, oid) == Some(e) <==>
            r.serial != "" && e.serial == Number(r.serial) && Revocation.Unpack(Text(r.rev), oid) == Some(e.info)
    ensures Entry(r, oid).Some? <==> r.serial != "" && Revocation.Unpack(Text(r.rev), oid).Some?
  {
  }

  ghost function IsRevoked(): Row -> bool { (r: Row) => Type(r) == 'R' }

  /** The entries of the rows at these positions. */
  ghost predicate EntriesAt<E>(out: seq<E>, rows: seq<Row>, at: seq<nat>, entry: Row -> Option<E>) {
    |out| == |at| && forall k :: 0 <= k < |at| ==> at[k] < |rows| && entry(rows[at[k]]) == Some(out[k])
  }

  lemma EntriesAtSnoc<E>(out: seq<E>, init: seq<Row>, r: Row, at: seq<nat>, entry: Row -> Option<E>)
    requires EntriesAt(out, init, at, entry)
    ensures EntriesAt(out, init + [r], at, entry)
    ensures entry(r).Some? ==> EntriesAt(out + [entry(r).value], init + [r], at + [|init|], entry)
  {
    assert (init + [r])[|init|] == r && forall i :: 0 <= i < |init| ==> (init + [r])[i] == init[i];
  }

  lemma {:induction false} CollectLists<E>(rows: seq<Row>, entry: Row -> Option<E>) returns (at: seq<nat>)
    requires Collect(rows, entry).Some?
    ensures Lists(at, |rows|, Where(rows, IsRevoked())) && EntriesAt(Collect(rows, entry).value, rows, at, entry)
  {
    if rows == [] {
      at := [];
      ListsNothing(Where(rows, IsRevoked()));
    } else {
      var n := |rows| - 1;
      var init, r := rows[..n], rows[n];
      assert rows == init + [r];
      var before := CollectLists(init, entry);
      ListsSnoc(before, n, Where(init, IsRevoked()), Where(rows, IsRevoked()));
      EntriesAtSnoc(Collect(init, entry).value, init, r, before, entry);
      at := if Type(r) == 'R' then before + [n] else before;
    }
  }

  /** The CRL as a list: the R rows in database order, each with the number of its serial and what its
      revocation field means. It fails exactly when one of them has no serial or no readable field. */
  lemma CrlInOrder(rows: seq<Row>, oid: string -> bool)
    ensures Crl(rows, oid).Some? <==>
            forall i :: 0 <= i < |rows| && Type(rows[i]) == 'R' ==>
                          rows[i].serial != "" && Revocation.Unpack(Text(rows[i].rev), oid).Some?
    ensures Crl(rows, oid).Some? ==>
              var crl := Crl(rows, oid).value;
              exists at: seq<nat> ::
                && Lists(at, |rows|, Where(rows, IsRevoked())) && |at| == |crl|
                && forall k :: 0 <= k < |at| ==>
                                 && at[k] < |rows| && crl[k].serial == Number(rows[at[k]].serial)
                                 && Revocation.Unpack(Text(rows[at[k]].rev), oid) == Some(crl[k].info)
  {
    var entry := r => Entry(r, oid);
    hide Number, Revocation.Unpack;
    CollectCounts(rows, entry);
    if Crl(rows, oid).Some? {
      var crl := Crl(rows, oid).value;
      var at := CollectLists(rows, entry);
      hide Lists;
      forall k | 0 <= k < |at|
        ensures at[k] < |rows| && crl[k].serial == Number(rows[at[k]].serial)
        ensures Revocation.Unpack(Text(rows[at[k]].rev), oid) == Some(crl[k].info)
      {
        EntryIs(rows[at[k]], oid, crl[k]);
      }
    }
  }

  /** The CRL of loaded rows never fails and has exactly the R rows on it, one entry each: their numbers
      with what their revocation fields mean. */
  lemma CrlListsRevoked(rows: seq<Row>, oid: string -> bool)
    requires forall i :: 0 <= i < |rows| ==> RowLoads(rows[i], oid)
    ensures Crl(rows, oid).Some? && |Crl(rows, oid).value| == |RevokedRows(rows)|
    ensures forall e :: e in Crl(rows, oid).value <==>
                        exists i :: 0 <= i < |rows| && Type(rows[i]) == 'R' && e.serial == Number(rows[i].serial)
                                    && Revocation.Unpack(Text(rows[i].rev), oid) == Some(e.info)
  {
    var entry := r => Entry(r, oid);
    CrlInOrder(rows, oid);
    CollectCounts(rows, entry);
    forall e
      ensures e in Crl(rows, oid).value <==>
              exists i :: 0 <= i < |rows| && Type(rows[i]) == 'R' && e.serial == Number(rows[i].serial)
                          && Revocation.Unpack(Text(rows[i].rev), oid) == Some(e.info)
    {
      CollectMembers(rows, entry, e);
    }
  }

  /** A certificate that has been revoked is on the CRL under its own number, with what the arguments of
      the revocation mean. */
  lemma RevokedIsOnCrl(db: Db, cert: Cert, q: Request, oid: string -> bool, n: int)
    requires forall i :: 0 <= i < |db.rows| ==> RowLoads(db.rows[i], oid)
    requires Revoke(db, cert, q, oid).1 && UtcCheck(q.now) && cert.serial == SerialNames.SerialText(n)
    ensures q.t == Revocation.CrlReason ==> Revocation.FindReason(q.arg, 8) >= 0
    ensures var crl := Crl(Revoke(db, cert, q, oid).0.rows, oid);
            crl.Some? && CrlEntry(n, Revocation.Meaning(q.now, q.t, q.arg)) in crl.value
  {
    var rows := Revoke(db, cert, q, oid).0.rows;
    RevokeSucceedsIff(db, cert, q, oid);
    TimeIsClean(q.now);
    Revocation.FieldRoundTripIff(q.now, q.t, q.arg, oid);
    var k := RevokedRowNumber(db, cert, q, oid, n);
    hide Revoke, Number, Revocation.Unpack, Revocation.Field, SerialNames.SerialText, SerialLoads, RowLoads;
    forall i | 0 <= i < |rows| && Type(rows[i]) == 'R'
      ensures rows[i].serial != "" && Revocation.Unpack(Text(rows[i].rev), oid).Some?
    {
      if i != k { LoadedRevoked(db.rows[i], oid); }
    }
    CrlInOrder(rows, oid);
    CollectCounts(rows, r => Entry(r, oid));
    var e := CrlEntry(n, Revocation.Meaning(q.now, q.t, q.arg));
    EntryIs(rows[k], oid, e);
    CollectMembers(rows, r => Entry(r, oid), e);
  }

  lemma LoadedRevoked(r: Row, oid: string -> bool)
    requires RowLoads(r, oid) && Type(r) == 'R'
    ensures r.serial != "" && Revocation.Unpack(Text(r.rev), oid).Some?
  {
  }

  /** The row that a successful revocation leaves; all others are as before. */
  lemma RevokedRowNumber(db: Db, cert: Cert, q: Request, oid: string -> bool, n: int) returns (k: nat)
    requires forall i :: 0 <= i < |db.rows| ==> RowLoads(db.rows[i], oid)
    requires Revoke(db, cert, q, oid).1 && cert.serial == SerialNames.SerialText(n)
    ensures var rows := Revoke(db, cert, q, oid).0.rows;
            && k < |rows| && Type(rows[k]) == 'R' && rows[k].rev == Revocation.Field(q.now, q.t, q.arg, oid)
            && rows[k].serial != "" && Number(rows[k].serial) == n
            && (forall i :: 0 <= i < |rows| && i != k ==> i < |db.rows| && rows[i] == db.rows[i])
  {
    hide Number, SerialLoads, Revocation.Field, SerialNames.SerialText, Revoke;
    NumberOfSerialText(n);
    SerialTextLoads(n);
    NotEmpty(cert.serial);
    if Listed(db, cert) {
      k := Find(db.rows, SerialNames.Key(cert.serial));
      RevokeListed(db, cert, q, oid);
      assert RowLoads(db.rows[k], oid);
      SameKeySameNumber(cert.serial, db.rows[k].serial);
      NotEmpty(db.rows[k].serial);
    } else {
      k := |db.rows|;
      RevokeUnlisted(db, cert, q, oid);
    }
  }

  lemma NotEmpty(s: string)
    requires SerialLoads(s)
    ensures s != ""
  {
  }

  // ---- across sessions ----

  /** A session loads the file and runs commands; whether it gets to save is left open. */
  datatype Session = Session(cmds: seq<Cmd>, saves: bool)

  ghost function AfterSession(text: string, unique: bool, s: Session, oid: string -> bool): string
    requires FileLoads(text, unique, oid)
  {
    if s.saves then FileText(Run(Loaded(ReadRows(text).value, unique), s.cmds, oid).rows) else text
  }

  /** The file after a sequence of sessions; a file that does not load stops everything. */
  ghost function AfterSessions(text: string, unique: bool, ss: seq<Session>, oid: string -> bool): string {
    if ss == [] then text
    else
      var before := AfterSessions(text, unique, ss[..|ss| - 1], oid);
      if FileLoads(before, unique, oid) then AfterSession(before, unique, ss[|ss| - 1], oid) else before
  }

  ghost predicate PrintedSessions(ss: seq<Session>) {
    forall i :: 0 <= i < |ss| ==> AllPrinted(ss[i].cmds)
  }

  /** A session that saves has run harmless commands only. */
  ghost predicate HarmlessSession(text: string, unique: bool, s: Session, oid: string -> bool) {
    FileLoads(text, unique, oid) && s.saves ==> AllHarmless(Loaded(ReadRows(text).value, unique), s.cmds, oid)
  }

  ghost predicate HarmlessSessions(text: string, unique: bool, ss: seq<Session>, oid: string -> bool) {
    forall k :: 0 <= k < |ss| ==> HarmlessSession(AfterSessions(text, unique, ss[..k], oid), unique, ss[k], oid)
  }

  lemma HarmlessSessionsSnoc(text: string, unique: bool, ss: seq<Session>, oid: string -> bool)
    requires ss != []
    ensures var n := |ss| - 1;
            HarmlessSessions(text, unique, ss, oid)
            <==> HarmlessSessions(text, unique, ss[..n], oid)
                 && HarmlessSession(AfterSessions(text, unique, ss[..n], oid), unique, ss[n], oid)
  {
    hide HarmlessSession, AfterSessions;
    var n := |ss| - 1;
    assert forall k :: 0 <= k < n ==> ss[..n][..k] == ss[..k] && ss[..n][k] == ss[k];
  }

  lemma SessionEvolves(text: string, unique: bool, s: Session, oid: string -> bool)
    requires FileLoads(text, unique, oid) && OidText(oid) && AllPrinted(s.cmds)
    ensures var after := AfterSession(text, unique, s, oid);
            && (FileLoads(after, unique, oid) <==> HarmlessSession(text, unique, s, oid))
            && (FileLoads(after, unique, oid) ==> RowsEvolve(ReadRows(text).value, ReadRows(after).value))
  {
    if s.saves {
      var db := Loaded(ReadRows(text).value, unique);
      hide AllHarmless, Loads, AllPrinted;
      ReloadClosure(text, unique, s.cmds, oid);
      RunEvolves(db, s.cmds, oid);
      NullBecomesEmpty(db.rows, Run(db, s.cmds, oid).rows);
    }
  }

  lemma NullBecomesEmpty(a: seq<Row>, b: seq<Row>)
    requires RowsEvolve(a, b)
    ensures RowsEvolve(a, Reloaded(b))
  {
  }

  lemma NoSessions(text: string, unique: bool, oid: string -> bool)
    requires FileLoads(text, unique, oid)
    ensures HarmlessSessions(text, unique, [], oid) && RowsEvolve(ReadRows(text).value, ReadRows(text).value)
  {
    hide Loads, ReadRows, AfterSessions;
    EvolvesItself(ReadRows(text).value);
  }

  /** One more session on what earlier ones have left. */
  lemma LastSession(text: string, before: string, unique: bool, s: Session, oid: string -> bool)
    requires FileLoads(text, unique, oid) && OidText(oid) && AllPrinted(s.cmds)
    requires FileLoads(before, unique, oid) ==> RowsEvolve(ReadRows(text).value, ReadRows(before).value)
    ensures FileLoads(before, unique, oid) ==>
              var after := AfterSession(before, unique, s, oid);
              && (FileLoads(after, unique, oid) <==> HarmlessSession(before, unique, s, oid))
              && (FileLoads(after, unique, oid) ==> RowsEvolve(ReadRows(text).value, ReadRows(after).value))
  {
    hide HarmlessSession, RowsEvolve, AllPrinted, ReadRows, Loads, AfterSession;
    if FileLoads(before, unique, oid) {
      SessionEvolves(before, unique, s, oid);
      var after := AfterSession(before, unique, s, oid);
      if FileLoads(after, unique, oid) {
        EvolveTransitive(ReadRows(text).value, ReadRows(before).value, ReadRows(after).value);
      }
    }
  }

  /** The database stays loadable exactly as long as every session that saved was harmless, and as
      long as it does its rows only ever evolve. */
  lemma {:induction false} SessionsEvolve(text: string, unique: bool, ss: seq<Session>, oid: string -> bool)
    requires FileLoads(text, unique, oid) && OidText(oid) && PrintedSessions(ss)
    ensures var after := AfterSessions(text, unique, ss, oid);
            && (FileLoads(after, unique, oid) <==> HarmlessSessions(text, unique, ss, oid))
            && (FileLoads(after, unique, oid) ==> RowsEvolve(ReadRows(text).value, ReadRows(after).value))
  {
    hide HarmlessSession, HarmlessSessions, RowsEvolve, AllPrinted, FileLoads, ReadRows, AfterSession, OidText;
    if ss == [] {
      NoSessions(text, unique, oid);
    } else {
      var n := |ss| - 1;
      assert forall i :: 0 <= i < n ==> ss[..n][i] == ss[i];
      SessionsEvolve(text, unique, ss[..n], oid);
      HarmlessSessionsSnoc(text, unique, ss, oid);
      LastSession(text, AfterSessions(text, unique, ss[..n], oid), unique, ss[n], oid);
    }
  }

  /** A revoked certificate stays revoked with the same revocation data and is on the CRL of every
      later session, as long as sessions are harmless. */
  lemma RevokedForever(text: string, unique: bool, ss: seq<Session>, oid: string -> bool, i: nat)
    requires FileLoads(text, unique, oid) && OidText(oid) && PrintedSessions(ss)
    requires i < |ReadRows(text).value| && Type(ReadRows(text).value[i]) == 'R'
    ensures var rows := ReadRows(text).value; Revocation.Unpack(Text(rows[i].rev), oid).Some?
    ensures HarmlessSessions(text, unique, ss, oid) ==>
              var r, after := ReadRows(text).value[i], AfterSessions(text, unique, ss, oid);
              && FileLoads(after, unique, oid) && Crl(ReadRows(after).value, oid).Some?
              && CrlEntry(Number(r.serial), Revocation.Unpack(Text(r.rev), oid).value)
                 in Crl(ReadRows(after).value, oid).value
  {
    SessionsEvolve(text, unique, ss, oid);
    LoadedRevoked(ReadRows(text).value[i], oid);
    if HarmlessSessions(text, unique, ss, oid) {
      hide HarmlessSessions, AfterSessions, Number, Revocation.Unpack;
      var rows, rows' := ReadRows(text).value, ReadRows(AfterSessions(text, unique, ss, oid)).value;
      assert Evolves(rows[i], rows'[i]);
      CrlListsRevoked(rows', oid);
    }
  }
}
