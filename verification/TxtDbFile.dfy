/** The text format of the database: TXT_DB_write and TXT_DB_read. */
module TxtDbFile {
  import opened CStrings
  import opened Options

  /** A field is a pointer that may be null. */
  type Field = Option<string>

  function Text(f: Field): string {
    if f.Some? then f.value else ""
  }

  function Plain(row: seq<Field>): (r: seq<string>)
    ensures |r| == |row| && forall j :: 0 <= j < |row| ==> r[j] == Text(row[j])
  {
    seq(|row|, j requires 0 <= j < |row| => Text(row[j]))
  }

  // ---- writing ----

  /** A backslash before every tab; nothing else is escaped. */
  function Escape(f: string): string {
    if f == [] then [] else (if f[0] == '\t' then ['\\', '\t'] else [f[0]]) + Escape(f[1..])
  }

  /** Every field followed by a tab. */
  function WriteFields(row: seq<string>): string {
    if row == [] then [] else Escape(row[0]) + ['\t'] + WriteFields(row[1..])
  }

  /** A row is written as its fields with the last tab turned into a newline. */
  function WriteRow(row: seq<string>): string
    requires row != []
  {
    var w := WriteFields(row);
    w[..|w| - 1] + ['\n']
  }

  function Write(rows: seq<seq<string>>): string
    requires forall i :: 0 <= i < |rows| ==> rows[i] != []
  {
    if rows == [] then [] else WriteRow(rows[0]) + Write(rows[1..])
  }

  // ---- reading ----

  /** The field loop on the rest of a line: `cur` is the field being collected, `esc` whether the
      last character was a backslash. A tab behind a backslash replaces it. One tab may follow the
      last field. */
  function Parse(line: string, esc: bool, cur: string, done: seq<string>, num: nat): Option<seq<string>>
    requires esc ==> cur != []
    decreases line
  {
    if line == [] then
      if |done| + 1 == num then Some(done + [cur]) else None
    else if line[0] == '\t' && !esc then
      if |done| + 1 >= num then
        (if |done| + 1 == num && line[1..] == [] then Some(done + [cur]) else None)
      else Parse(line[1..], false, [], done + [cur], num)
    else
      Parse(line[1..], line[0] == '\\', (if line[0] == '\t' then cur[..|cur| - 1] else cur) + [line[0]], done, num)
  }

  function LineEnd(text: string): (k: nat)
    ensures k <= |text| && '\n' !in text[..k] && (k < |text| ==> text[k] == '\n')
  {
    if text == [] || text[0] == '\n' then 0
    else
      var k := 1 + LineEnd(text[1..]);
      assert text[..k] == [text[0]] + text[1..][..k - 1];
      k
  }

  /** Comment lines are skipped, a last line without newline is dropped, and one bad line fails the
      whole file. */
  function Read(text: string, num: nat): Option<seq<seq<string>>>
    decreases |text|
  {
    var k := LineEnd(text);
    if k == |text| then Some([])
    else if k > 0 && text[0] == '#' then Read(text[k + 1..], num)
    else
      var row := Parse(text[..k], false, [], [], num);
      if row.None? then None
      else
        var rest := Read(text[k + 1..], num);
        if rest.None? then None else Some([row.value] + rest.value)
  }

  // ---- which rows survive ----

  predicate EndsInBackslash(f: string) { f != [] && f[|f| - 1] == '\\' }

  /** No newline anywhere, no backslash at the end of a field other than the last, and no '#' at
      the start of the row. */
  predicate Clean(row: seq<string>) {
    && (forall j :: 0 <= j < |row| ==> '\n' !in row[j])
    && (forall j :: 0 <= j < |row| - 1 ==> !EndsInBackslash(row[j]))
    && (row != [] && row[0] != [] ==> row[0][0] != '#')
  }

  /** Reading the written form of one field appends the field. */
  lemma {:induction false} ParseEscaped(f: string, t: string, esc: bool, cur: string, done: seq<string>, num: nat)
    requires esc ==> cur != []
    ensures f == [] && esc ==> cur != []
    ensures Parse(Escape(f) + t, esc, cur, done, num)
            == Parse(t, if f == [] then esc else EndsInBackslash(f), cur + f, done, num)
    decreases f
  {
    hide Parse, Escape;
    EscapeStep(f, t);
    if f == [] {
      assert cur + f == cur;
    } else {
      var r := Escape(f[1..]) + t;
      if f[0] == '\t' {
        ParseEscapedTab(r, esc, cur, done, num);
      } else {
        ParsePlain(f[0], r, esc, cur, done, num);
      }
      ParseEscaped(f[1..], t, f[0] == '\\', cur + [f[0]], done, num);
      assert cur + [f[0]] + f[1..] == cur + f;
    }
  }

  lemma EscapeStep(f: string, t: string)
    ensures f == [] ==> Escape(f) + t == t
    ensures f != [] ==> Escape(f) + t == (if f[0] == '\t' then ['\\', '\t'] else [f[0]]) + (Escape(f[1..]) + t)
  {
  }

  lemma ParsePlain(c: char, r: string, esc: bool, cur: string, done: seq<string>, num: nat)
    requires (esc ==> cur != []) && c != '\t'
    ensures Parse([c] + r, esc, cur, done, num) == Parse(r, c == '\\', cur + [c], done, num)
  {
    assert ([c] + r)[1..] == r;
  }

  lemma ParseEscapedTab(r: string, esc: bool, cur: string, done: seq<string>, num: nat)
    requires esc ==> cur != []
    ensures Parse(['\\', '\t'] + r, esc, cur, done, num) == Parse(r, false, cur + ['\t'], done, num)
  {
    var e := ['\\', '\t'] + r;
    assert e[1..] == ['\t'] + r;
    assert e[1..][1..] == r;
    assert (cur + ['\\'])[..|cur|] == cur;
  }

  /** Reading the fields `row` behind the fields `done`. */
  lemma {:induction false} ParseFields(row: seq<string>, done: seq<string>, num: nat)
    requires row != [] && |done| + |row| == num
    requires forall j :: 0 <= j < |row| - 1 ==> !EndsInBackslash(row[j])
    ensures |WriteFields(row)| > 0
    ensures Parse(WriteFields(row)[..|WriteFields(row)| - 1], false, [], done, num) == Some(done + row)
    decreases |row|
  {
    var f, w, rest := row[0], WriteFields(row), WriteFields(row[1..]);
    if |row| == 1 {
      assert w[..|w| - 1] == Escape(f) + [];
      ParseEscaped(f, [], false, [], done, num);
      assert [] + f == f && row == [f];
    } else {
      ParseFields(row[1..], done + [f], num);
      var t := ['\t'] + rest[..|rest| - 1];
      assert w[..|w| - 1] == Escape(f) + t;
      ParseEscaped(f, t, false, [], done, num);
      assert [] + f == f && t[1..] == rest[..|rest| - 1];
      assert done + [f] + row[1..] == done + row;
    }
  }

  lemma {:induction false} EscapeKeepsLine(f: string)
    ensures '\n' in Escape(f) <==> '\n' in f
    ensures f != [] && f[0] != '#' ==> Escape(f) != [] && Escape(f)[0] != '#'
  {
    if f != [] {
      EscapeKeepsLine(f[1..]);
      assert f == [f[0]] + f[1..];
    }
  }

  lemma {:induction false} WrittenLine(row: seq<string>)
    requires row != [] && Clean(row)
    ensures var w := WriteFields(row); w != [] && '\n' !in w[..|w| - 1] && (|w| > 1 ==> w[0] != '#')
    ensures '\n' !in WriteFields(row)
  {
    EscapeKeepsLine(row[0]);
    if |row| > 1 {
      if row[1..][0] != [] && row[1..][0][0] == '#' {
        NoNewline(row[1..]);
      } else {
        WrittenLine(row[1..]);
      }
    }
  }

  lemma {:induction false} NoNewline(row: seq<string>)
    requires forall j :: 0 <= j < |row| ==> '\n' !in row[j]
    ensures '\n' !in WriteFields(row)
  {
    if row != [] {
      EscapeKeepsLine(row[0]);
      NoNewline(row[1..]);
    }
  }

  lemma {:induction false} LineEndIs(line: string, rest: string)
    requires '\n' !in line
    ensures LineEnd(line + ['\n'] + rest) == |line|
  {
    var text := line + ['\n'] + rest;
    if line != [] {
      assert text[1..] == line[1..] + ['\n'] + rest;
      LineEndIs(line[1..], rest);
    }
  }

  lemma CleanFields(row: seq<string>)
    requires Clean(row)
    ensures forall j :: 0 <= j < |row| - 1 ==> !EndsInBackslash(row[j])
  {
  }

  lemma ReadStep(line: string, rest: string, num: nat)
    requires '\n' !in line && (line != [] ==> line[0] != '#')
    ensures var row, more := Parse(line, false, [], [], num), Read(rest, num);
            Read(line + ['\n'] + rest, num) == if row.None? || more.None? then None else Some([row.value] + more.value)
  {
    var text := line + ['\n'] + rest;
    LineEndIs(line, rest);
    assert text[..|line|] == line && text[|line| + 1..] == rest;
    hide Parse, LineEnd;
  }

  /** Reading a clean row off the front of a file. */
  lemma ReadWrittenRow(row: seq<string>, rest: string, num: nat)
    requires num > 0 && |row| == num && Clean(row)
    ensures Read(WriteRow(row) + rest, num)
            == (if Read(rest, num).None? then None else Some([row] + Read(rest, num).value))
  {
    hide Read, Parse, WriteFields, Clean;
    var w := WriteFields(row);
    WrittenLine(row);
    var line := w[..|w| - 1];
    assert WriteRow(row) + rest == line + ['\n'] + rest;
    hide WriteRow;
    ReadStep(line, rest, num);
    CleanFields(row);
    ParseFields(row, [], num);
    assert [] + row == row;
  }

  lemma {:induction false} CleanRowsSurvive(rows: seq<seq<string>>, num: nat)
    requires num > 0 && forall i :: 0 <= i < |rows| ==> |rows[i]| == num && Clean(rows[i])
    ensures Read(Write(rows), num) == Some(rows)
  {
    if rows != [] {
      CleanRowsSurvive(rows[1..], num);
      ReadWrittenRow(rows[0], Write(rows[1..]), num);
      assert rows == [rows[0]] + rows[1..];
    }
  }

  /** What the field loop returns is clean, whatever the line. */
  lemma {:induction false} ParseIsClean(line: string, esc: bool, cur: string, done: seq<string>, num: nat)
    requires esc <==> EndsInBackslash(cur)
    requires '\n' !in line && Clean(done + [cur])
    requires done == [] && cur == [] && line != [] ==> line[0] != '#'
    ensures Parse(line, esc, cur, done, num).Some? ==>
              Clean(Parse(line, esc, cur, done, num).value) && |Parse(line, esc, cur, done, num).value| == num
    decreases line
  {
    var d := done + [cur];
    assert d[|done|] == cur;
    if line == [] {
    } else if line[0] == '\t' && !esc {
      if |done| + 1 < num {
        var d' := d + [[]];
        assert forall j :: 0 <= j < |d| ==> d'[j] == d[j];
        ParseIsClean(line[1..], false, [], d, num);
      }
    } else {
      var cur' := (if line[0] == '\t' then cur[..|cur| - 1] else cur) + [line[0]];
      var d' := done + [cur'];
      assert forall j :: 0 <= j < |done| ==> d'[j] == d[j];
      assert d'[|done|] == cur';
      ParseIsClean(line[1..], line[0] == '\\', cur', done, num);
    }
  }

  lemma {:induction false} ReadIsClean(text: string, num: nat)
    ensures var rows := Read(text, num);
            rows.Some? ==> forall i :: 0 <= i < |rows.value| ==> Clean(rows.value[i]) && |rows.value[i]| == num
    decreases |text|
  {
    var k := LineEnd(text);
    if k < |text| {
      ReadIsClean(text[k + 1..], num);
      var row, more := Parse(text[..k], false, [], [], num), Read(text[k + 1..], num);
      if !(k > 0 && text[0] == '#') {
        ParseIsClean(text[..k], false, [], [], num);
        assert Read(text, num).Some? ==> Read(text, num).value == [row.value] + more.value;
      }
      hide Read, Parse, Clean;
    }
  }

  function PlainRows(rows: seq<seq<Field>>): (p: seq<seq<string>>)
    ensures |p| == |rows| && forall i :: 0 <= i < |rows| ==> p[i] == Plain(rows[i])
  {
    seq(|rows|, i requires 0 <= i < |rows| => Plain(rows[i]))
  }

  /** Rows read back from the file they were written to are the rows written, null fields having
      become empty, exactly when every row is clean. */
  lemma RoundTripIff(rows: seq<seq<Field>>, num: nat)
    requires num > 0 && forall i :: 0 <= i < |rows| ==> |rows[i]| == num
    ensures Read(Write(PlainRows(rows)), num) == Some(PlainRows(rows))
            <==> forall i :: 0 <= i < |rows| ==> Clean(Plain(rows[i]))
  {
    var plain := PlainRows(rows);
    if forall i :: 0 <= i < |rows| ==> Clean(Plain(rows[i])) {
      CleanRowsSurvive(plain, num);
    }
    ReadIsClean(Write(plain), num);
  }

  /** A field that ends in a backslash takes the tab behind it for an escaped one, and the row comes
      up one field short. */
  lemma BackslashExample()
    ensures var row := ["a\\", "b"];
            WriteRow(row) == "a\\\tb\n" && !Clean(row) && Read(Write([row]), 2) != Some([row])
  {
    var row := ["a\\", "b"];
    var fields := [Some(row[0]), Some(row[1])];
    assert Plain(fields) == row && PlainRows([fields]) == [row];
    assert EndsInBackslash(row[0]);
    RoundTripIff([fields], 2);
  }

  // ---- files that cannot be read ----

  lemma {:induction false} EscapeConcat(a: string, b: string)
    ensures Escape(a + b) == Escape(a) + Escape(b)
  {
    if a == [] {
      assert a + b == b;
    } else {
      assert (a + b)[0] == a[0] && (a + b)[1..] == a[1..] + b;
      EscapeConcat(a[1..], b);
    }
  }

  /** A line with too few fields fails. */
  lemma {:induction false} ParseTooFew(row: seq<string>, done: seq<string>, num: nat)
    requires row != [] && |done| + |row| < num
    requires forall j :: 0 <= j < |row| - 1 ==> !EndsInBackslash(row[j])
    ensures |WriteFields(row)| > 0
    ensures Parse(WriteFields(row)[..|WriteFields(row)| - 1], false, [], done, num) == None
    decreases |row|
  {
    var f, w, rest := row[0], WriteFields(row), WriteFields(row[1..]);
    if |row| == 1 {
      assert w[..|w| - 1] == Escape(f) + [];
      ParseEscaped(f, [], false, [], done, num);
    } else {
      ParseTooFew(row[1..], done + [f], num);
      var t := ['\t'] + rest[..|rest| - 1];
      assert w[..|w| - 1] == Escape(f) + t;
      ParseEscaped(f, t, false, [], done, num);
      assert [] + f == f && t[1..] == rest[..|rest| - 1];
    }
  }

  /** A row that is clean but for its second field. */
  ghost predicate Broken(row: seq<string>) {
    |row| > 2 && Clean(row[1 := ""]) && !Clean(row)
  }

  lemma BrokenFields(row: seq<string>)
    requires Broken(row)
    ensures forall j :: 0 <= j < |row| && j != 1 ==> '\n' !in row[j]
    ensures forall j :: 0 <= j < |row| - 1 && j != 1 ==> !EndsInBackslash(row[j])
    ensures row[0] != [] ==> row[0][0] != '#'
    ensures '\n' in row[1] || EndsInBackslash(row[1])
  {
    var r := row[1 := ""];
    assert forall j :: 0 <= j < |row| && j != 1 ==> r[j] == row[j];
  }

  function FirstNewline(s: string): (k: nat)
    requires '\n' in s
    ensures k < |s| && s[k] == '\n' && '\n' !in s[..k]
  {
    if s[0] == '\n' then 0
    else
      assert s == [s[0]] + s[1..];
      var k := 1 + FirstNewline(s[1..]);
      assert s[..k] == [s[0]] + s[1..][..k - 1];
      k
  }

  /** A line that ends inside the second field. */
  lemma CutRowUnreadable(row: seq<string>, rest: string, num: nat)
    requires Broken(row) && num == |row| && '\n' in row[1]
    ensures Read(WriteRow(row) + rest, num) == None
  {
    BrokenFields(row);
    var f, e, k := row[0], row[1], FirstNewline(row[1]);
    var short := [f, e[..k]];
    var line := Escape(f) + ['\t'] + Escape(e[..k]);
    CutText(row, k);
    var tail :| WriteRow(row) == line + ['\n'] + tail;
    assert WriteRow(row) + rest == line + ['\n'] + (tail + rest);
    ShortLine(f, e[..k]);
    ParseTooFew(short, [], num);
    EscapeKeepsLine(f);
    EscapeKeepsLine(e[..k]);
    hide Read, WriteRow, WriteFields, Parse;
    ReadStep(line, tail + rest, num);
  }

  lemma ShortLine(f: string, p: string)
    ensures WriteFields([f, p]) == Escape(f) + ['\t'] + Escape(p) + ['\t']
  {
    assert [f, p][1..] == [p] && [p][1..] == [];
    assert WriteFields([p]) == Escape(p) + ['\t'] + [];
  }

  lemma CutText(row: seq<string>, k: nat)
    requires |row| > 2 && k < |row[1]| && row[1][k] == '\n'
    ensures exists tail :: WriteRow(row) == Escape(row[0]) + ['\t'] + Escape(row[1][..k]) + ['\n'] + tail
  {
    var e, more := row[1], row[2..];
    assert e == e[..k] + (['\n'] + e[k + 1..]) && Escape(['\n']) == ['\n'];
    EscapeConcat(e[..k], ['\n'] + e[k + 1..]);
    EscapeConcat(['\n'], e[k + 1..]);
    var w := WriteFields(more);
    assert w != [];
    hide Escape, WriteFields;
    WriteTwo(row[0], e, more);
    assert row == [row[0], e] + more;
    CutAssoc(Escape(row[0]), Escape(e[..k]), Escape(e[k + 1..]), w);
  }

  lemma CutAssoc(a: string, b: string, d: string, w: string)
    requires w != []
    ensures var all := a + ['\t'] + (b + (['\n'] + d) + ['\t'] + w);
            all[..|all| - 1] + ['\n'] == a + ['\t'] + b + ['\n'] + (d + ['\t'] + w[..|w| - 1] + ['\n'])
  {
  }

  /** A backslash in front of a tab joins the second field to the third. */
  lemma JoinedRowUnreadable(row: seq<string>, rest: string, num: nat)
    requires Broken(row) && num == |row| && '\n' !in row[1]
    ensures Read(WriteRow(row) + rest, num) == None
  {
    BrokenFields(row);
    var e := row[1][..|row[1]| - 1];
    var joined := [row[0], e + ['\t'] + row[2]] + row[3..];
    JoinedText(row);
    JoinedClean(row);
    var w := WriteFields(row);
    ParseTooFew(joined, [], num);
    NoNewline(row);
    var line := w[..|w| - 1];
    assert '\n' !in line;
    assert WriteRow(row) + rest == line + ['\n'] + rest;
    FirstNotHash(row);
    hide Read, WriteRow, WriteFields, Parse;
    ReadStep(line, rest, num);
  }

  lemma FirstNotHash(row: seq<string>)
    requires |row| > 1 && (row[0] != [] ==> row[0][0] != '#')
    ensures WriteFields(row) != [] && WriteFields(row)[0] != '#'
  {
    EscapeKeepsLine(row[0]);
  }

  lemma JoinedClean(row: seq<string>)
    requires Broken(row) && EndsInBackslash(row[1])
    ensures var joined := [row[0], row[1][..|row[1]| - 1] + ['\t'] + row[2]] + row[3..];
            forall j :: 0 <= j < |joined| - 1 ==> !EndsInBackslash(joined[j])
  {
    BrokenFields(row);
    var joined := [row[0], row[1][..|row[1]| - 1] + ['\t'] + row[2]] + row[3..];
    forall j | 0 <= j < |joined| - 1
      ensures !EndsInBackslash(joined[j])
    {
      if j >= 2 { assert joined[j] == row[j + 1]; } else if j == 1 { assert |row| > 3; }
    }
  }

  lemma JoinedText(row: seq<string>)
    requires |row| > 2 && EndsInBackslash(row[1])
    ensures WriteFields([row[0], row[1][..|row[1]| - 1] + ['\t'] + row[2]] + row[3..]) == WriteFields(row)
  {
    var e := row[1][..|row[1]| - 1];
    var m := e + ['\t'] + row[2];
    var joined := [row[0], m] + row[3..];
    assert row == [row[0], row[1]] + row[2..] && row[2..] == [row[2]] + row[3..];
    hide Escape, WriteFields;
    JoinedEscape(e, row[2]);
    assert row[1] == e + ['\\'];
    WriteTwo(row[0], m, row[3..]);
    WriteTwo(row[0], row[1], row[2..]);
    WriteOne(row[2], row[3..]);
    JoinedAssoc(Escape(e), Escape(row[2]), WriteFields(row[3..]));
  }

  lemma JoinedEscape(e: string, f: string)
    ensures Escape(e + ['\t'] + f) == Escape(e) + ['\\', '\t'] + Escape(f)
    ensures Escape(e + ['\\']) == Escape(e) + ['\\']
  {
    EscapeConcat(e, ['\\']);
    EscapeConcat(e + ['\t'], f);
    EscapeConcat(e, ['\t']);
    assert Escape(['\\']) == ['\\'] && Escape(['\t']) == ['\\', '\t'];
  }

  lemma JoinedAssoc(a: string, b: string, c: string)
    ensures a + ['\\', '\t'] + b + ['\t'] + c == a + ['\\'] + ['\t'] + (b + ['\t'] + c)
  {
  }

  lemma WriteOne(a: string, more: seq<string>)
    ensures WriteFields([a] + more) == Escape(a) + ['\t'] + WriteFields(more)
  {
    assert ([a] + more)[1..] == more;
  }

  lemma WriteTwo(a: string, b: string, more: seq<string>)
    ensures WriteFields([a, b] + more) == Escape(a) + ['\t'] + (Escape(b) + ['\t'] + WriteFields(more))
  {
    assert [a, b] + more == [a] + ([b] + more);
    WriteOne(a, [b] + more);
    WriteOne(b, more);
  }

  /** One such row makes the whole file unreadable. */
  lemma {:induction false} BrokenRowUnreadable(rows: seq<seq<string>>, num: nat, i: nat)
    requires i < |rows| && Broken(rows[i])
    requires forall k :: 0 <= k < |rows| ==> |rows[k]| == num > 0 && (Clean(rows[k]) || Broken(rows[k]))
    ensures Read(Write(rows), num) == None
  {
    var rest := Write(rows[1..]);
    if Clean(rows[0]) {
      BrokenRowUnreadable(rows[1..], num, i - 1);
      ReadWrittenRow(rows[0], rest, num);
    } else if '\n' in rows[0][1] {
      CutRowUnreadable(rows[0], rest, num);
    } else {
      JoinedRowUnreadable(rows[0], rest, num);
    }
  }

  // ---- the loops ----

  function Total(row: seq<Field>): nat {
    if row == [] then 0 else Total(row[..|row| - 1]) + |Text(row[|row| - 1])|
  }

  lemma {:induction false} EscapeSnoc(f: string, c: char)
    ensures Escape(f + [c]) == Escape(f) + (if c == '\t' then ['\\', '\t'] else [c])
  {
    if f == [] {
      assert f + [c] == [c] && [c][1..] == [];
    } else {
      assert (f + [c])[1..] == f[1..] + [c];
      EscapeSnoc(f[1..], c);
    }
  }

  lemma {:induction false} WriteFieldsSnoc(row: seq<string>, f: string)
    ensures WriteFields(row + [f]) == WriteFields(row) + Escape(f) + ['\t']
  {
    if row == [] {
      assert row + [f] == [f] && [f][1..] == [];
    } else {
      assert (row + [f])[1..] == row[1..] + [f];
      WriteFieldsSnoc(row[1..], f);
    }
  }

  lemma {:induction false} TotalMonotone(row: seq<Field>, k: nat)
    requires k <= |row|
    ensures Total(row[..k]) <= Total(row)
    decreases |row| - k
  {
    if k < |row| {
      assert row[..k + 1][..k] == row[..k];
      TotalMonotone(row, k + 1);
    } else {
      assert row[..k] == row;
    }
  }

  lemma OneMoreField(row: seq<Field>, j: nat)
    requires j < |row|
    ensures Total(row[..j]) + |Text(row[j])| == Total(row[..j + 1]) <= Total(row)
    ensures WriteFields(Plain(row)[..j + 1]) == WriteFields(Plain(row)[..j]) + Escape(Text(row[j])) + ['\t']
  {
    TotalMonotone(row, j + 1);
    assert row[..j + 1][..j] == row[..j];
    WriteFieldsSnoc(Plain(row)[..j], Plain(row)[j]);
    assert Plain(row)[..j + 1] == Plain(row)[..j] + [Plain(row)[j]];
  }

  /** One row of TXT_DB_write: the buffer is twice the text plus one character a field, which is
      enough for every row. */
  method WriteRowInto(row: seq<Field>, buf: array<char>) returns (p: nat)
    requires row != [] && buf.Length == 2 * Total(row) + |row|
    modifies buf
    ensures p <= buf.Length && buf[..p] == WriteRow(Plain(row))
  {
    p := 0;
    ghost var plain := Plain(row);
    assert WriteFields(plain[..0]) == [];
    hide WriteFields, Total;
    for j := 0 to |row|
      invariant p <= 2 * Total(row[..j]) + j
      invariant p <= buf.Length && buf[..p] == WriteFields(plain[..j])
      invariant j > 0 ==> p > 0
    {
      p := WriteField(row, j, buf, p);
    }
    assert plain[..|row|] == plain && row[..|row|] == row;
    ghost var w := buf[..p];
    buf[p - 1] := '\n';
    assert buf[..p] == w[..p - 1] + ['\n'];
  }

  method WriteField(row: seq<Field>, j: nat, buf: array<char>, start: nat) returns (p: nat)
    requires j < |row| && buf.Length == 2 * Total(row) + |row|
    requires start <= 2 * Total(row[..j]) + j && start <= buf.Length && buf[..start] == WriteFields(Plain(row)[..j])
    modifies buf
    ensures 0 < p <= 2 * Total(row[..j + 1]) + j + 1 && p <= buf.Length && buf[..p] == WriteFields(Plain(row)[..j + 1])
  {
    OneMoreField(row, j);
    NothingEscaped();
    hide WriteFields, Total, Escape;
    p := start;
    if row[j].Some? {
      p := CopyEscaped(row[j].value, buf, p);
    }
    p := Put(buf, p, '\t');
  }

  lemma NothingEscaped()
    ensures Escape([]) == []
  {
  }

  method CopyEscaped(f: string, buf: array<char>, start: nat) returns (p: nat)
    requires start + 2 * |f| <= buf.Length
    modifies buf
    ensures start <= p <= start + 2 * |f| && buf[..p] == old(buf[..start]) + Escape(f)
  {
    p := start;
    for i := 0 to |f|
      invariant start <= p <= start + 2 * i
      invariant buf[..p] == old(buf[..start]) + Escape(f[..i])
    {
      EscapeSnoc(f[..i], f[i]);
      assert f[..i + 1] == f[..i] + [f[i]];
      if f[i] == '\t' {
        p := Put(buf, p, '\\');
      }
      p := Put(buf, p, f[i]);
    }
    assert f[..|f|] == f;
  }

  lemma ParseStep(line: string, f: nat, esc: bool, cur: string, done: seq<string>, num: nat)
    requires f < |line| && (esc ==> cur != [])
    ensures var rest, c := line[f + 1..], line[f];
            Parse(line[f..], esc, cur, done, num)
            == if c == '\t' && !esc then
                 if |done| + 1 < num then Parse(rest, false, [], done + [cur], num)
                 else if |done| + 1 == num && rest == [] then Some(done + [cur]) else None
               else Parse(rest, c == '\\', (if c == '\t' then cur[..|cur| - 1] else cur) + [c], done, num)
  {
    assert line[f..][0] == line[f] && line[f..][1..] == line[f + 1..];
  }

  lemma ParseEnd(cur: string, done: seq<string>, num: nat)
    ensures cur != [] ==> Parse([], true, cur, done, num) == if |done| + 1 == num then Some(done + [cur]) else None
    ensures Parse([], false, cur, done, num) == if |done| + 1 == num then Some(done + [cur]) else None
  {
  }

  lemma NothingTaken()
    ensures Flat([]) + "" == "" && PointTo([0], [] + [""])
  {
    assert ([] + [""])[..0] == [];
  }

  /** The field loop of TXT_DB_read: fields are packed into one block the size of the line, an
      escaped tab taking back the backslash already copied; `pp` holds a pointer to every field. */
  method ReadLine(line: string, num: nat, block: array<char>) returns (ok: bool, pp: seq<nat>)
    requires num > 0 && NulFree(line) && block.Length == |line| + 1
    modifies block
    ensures ok == Parse(line, false, [], [], num).Some?
    ensures ok ==> var fields := Parse(line, false, [], [], num).value;
                   |pp| == |fields| == num && forall k :: 0 <= k < num ==> CStr(block[..], pp[k]) == fields[k]
  {
    hide Parse, Flat, PointTo;
    var p, f;
    ghost var done, cur, tail;
    p, f, pp, done, cur, tail := FieldLoop(line, num, block);
    ok := |pp| == num && f == |line|;
    p := Put(block, p, NUL);
    if ok {
      FirstTerminator(block[..], p, Flat(done) + cur, tail);
      FieldsInBlock(block[..], |Flat(done) + cur| + 1, done + [cur], pp, done, cur);
    }
  }

  ghost predicate AllNulFree(ss: seq<string>) {
    forall k :: 0 <= k < |ss| ==> NulFree(ss[k])
  }

  lemma NulFreeSnoc(ss: seq<string>, s: string)
    requires AllNulFree(ss) && NulFree(s)
    ensures AllNulFree(ss + [s])
  {
  }

  method FieldLoop(line: string, num: nat, block: array<char>)
    returns (p: nat, f: nat, pp: seq<nat>, ghost done: seq<string>, ghost cur: string, ghost tail: string)
    requires num > 0 && NulFree(line) && block.Length == |line| + 1
    modifies block
    ensures p <= |line| && |pp| == |done| + 1 && PointTo(pp, done + [cur])
    ensures (tail == [] || tail == [NUL]) && block[..p] == Flat(done) + cur + tail
    ensures AllNulFree(done) && NulFree(cur)
    ensures Parse(line, false, [], [], num) == if |pp| == num && f == |line| then Some(done + [cur]) else None
  {
    var esc := false;
    p, f, pp, done, cur, tail := 0, 0, [0], [], [], [];
    assert line[0..] == line;
    NothingTaken();
    hide Parse, Flat, PointTo, AllNulFree;
    while f < |line|
      invariant f <= |line| && p <= f && |pp| <= num && (esc ==> cur != []) && tail == []
      invariant |pp| == |done| + 1
      invariant block[..p] == Flat(done) + cur && PointTo(pp, done + [cur])
      invariant AllNulFree(done) && NulFree(cur)
      invariant Parse(line, false, [], [], num) == Parse(line[f..], esc, cur, done, num)
    {
      assert line[f] in line;
      ParseStep(line, f, esc, cur, done, num);
      if line[f] == '\t' && !esc {
        p := Put(block, p, NUL);
        f := f + 1;
        if |pp| >= num {
          tail := [NUL];
          return;
        }
        NulFreeSnoc(done, cur);
        pp, done, cur := StartField(pp, p, done, cur), done + [cur], [];
      } else {
        p, cur := TakeChar(line[f], block, p, pp, done, cur);
        esc := line[f] == '\\';
        f := f + 1;
      }
    }
    ParseEnd(cur, done, num);
    assert line[|line|..] == [] && Flat(done) + cur + [] == Flat(done) + cur;
  }

  /** An escaped tab goes into the place of its backslash. */
  method TakeChar(c: char, block: array<char>, p0: nat, ghost pp: seq<nat>, ghost done: seq<string>, ghost cur0: string)
    returns (p: nat, ghost cur: string)
    requires p0 < block.Length && block[..p0] == Flat(done) + cur0 && PointTo(pp, done + [cur0])
    requires c == '\t' ==> cur0 != []
    modifies block
    ensures cur == (if c == '\t' then cur0[..|cur0| - 1] else cur0) + [c]
    ensures 0 < p <= p0 + 1 && p <= block.Length && block[..p] == Flat(done) + cur && PointTo(pp, done + [cur])
  {
    hide Flat, PointTo;
    p, cur := p0, cur0;
    if c == '\t' {
      p := p - 1;
      cur := cur[..|cur| - 1];
    }
    PointToCurrent(pp, done, cur0, cur);
    PointToCurrent(pp, done, cur, cur + [c]);
    cur := cur + [c];
    p := Put(block, p, c);
  }

  function StartField(pp: seq<nat>, p: nat, ghost done: seq<string>, ghost cur: string): (r: seq<nat>)
    requires PointTo(pp, done + [cur]) && p == |Flat(done) + cur| + 1
    ensures PointTo(r, done + [cur] + [[]])
    ensures Flat(done + [cur]) + [] == Flat(done) + cur + [NUL]
  {
    FlatSnoc(done, cur);
    PointToNext(pp, done + [cur], []);
    pp + [p]
  }

  lemma FirstTerminator(block: seq<char>, p: nat, text: string, tail: string)
    requires p <= |block| && block[..p] == text + tail + [NUL] && (tail == [] || tail == [NUL])
    ensures |text| + 1 <= |block| && block[..|text| + 1] == text + [NUL]
  {
    assert block[..|text| + 1] == block[..p][..|text| + 1];
  }

  lemma FieldsInBlock(block: seq<char>, p: nat, fields: seq<string>, pp: seq<nat>, done: seq<string>, cur: string)
    requires fields == done + [cur] && PointTo(pp, fields)
    requires AllNulFree(done) && NulFree(cur)
    requires p <= |block| && block[..p] == Flat(done) + cur + [NUL]
    ensures forall k :: 0 <= k < |fields| ==> CStr(block, pp[k]) == fields[k]
  {
    FlatSnoc(done, cur);
    assert block[..p] <= block;
    forall k | 0 <= k < |fields|
      ensures CStr(block, pp[k]) == fields[k]
    {
      PackedString(block, fields, k);
    }
  }

  // ---- which lines are read, and as what ----

  /** The written form of what has been read, with the field being collected, and the rest of the line. */
  function Whole(done: seq<string>, cur: string, line: string): string { WriteFields(done) + (Escape(cur) + line) }

  lemma WholePlain(done: seq<string>, cur: string, c: char, rest: string)
    requires c != '\t'
    ensures Whole(done, cur, [c] + rest) == Whole(done, cur + [c], rest)
  {
    EscapeSnoc(cur, c);
    assert Escape(cur) + ([c] + rest) == (Escape(cur) + [c]) + rest;
  }

  lemma WholeEscapedTab(done: seq<string>, cur: string, rest: string)
    requires EndsInBackslash(cur)
    ensures Whole(done, cur, ['\t'] + rest) == Whole(done, cur[..|cur| - 1] + ['\t'], rest)
  {
    var f := cur[..|cur| - 1];
    assert cur == f + ['\\'];
    EscapeSnoc(f, '\\');
    EscapeSnoc(f, '\t');
    assert (Escape(f) + ['\\']) + (['\t'] + rest) == (Escape(f) + ['\\', '\t']) + rest;
  }

  lemma WholeNextField(done: seq<string>, cur: string, rest: string)
    ensures Whole(done, cur, ['\t'] + rest) == Whole(done + [cur], "", rest)
  {
    WriteFieldsSnoc(done, cur);
    assert WriteFields(done) + (Escape(cur) + (['\t'] + rest)) == WriteFields(done) + Escape(cur) + ['\t'] + rest;
    assert Escape("") + rest == rest;
  }

  ghost predicate NoBackslashes(fs: seq<string>) { forall j :: 0 <= j < |fs| ==> !EndsInBackslash(fs[j]) }

  /** The line is the written row, with or without its last tab; the tab must not look escaped. */
  ghost predicate IsLineOf(line: string, row: seq<string>) {
    row != [] && NoBackslashes(row[..|row| - 1])
    && (line + "\t" == WriteFields(row) || (line == WriteFields(row) && NoBackslashes(row)))
  }

  lemma LastField(done: seq<string>, cur: string, line: string, num: nat)
    requires NoBackslashes(done) && (line == "" || (line == "\t" && !EndsInBackslash(cur)))
    ensures IsLineOf(Whole(done, cur, line), done + [cur])
  {
    WriteFieldsSnoc(done, cur);
    assert (done + [cur])[..|done|] == done;
    assert line == "" ==> Whole(done, cur, line) + "\t" == WriteFields(done) + Escape(cur) + ['\t'];
  }

  lemma {:induction false} ParsedIsWritten(line: string, esc: bool, cur: string, done: seq<string>, num: nat)
    requires (esc <==> EndsInBackslash(cur)) && NoBackslashes(done)
    ensures var row := Parse(line, esc, cur, done, num);
            row.Some? ==> |row.value| == num && IsLineOf(Whole(done, cur, line), row.value)
    decreases line
  {
    hide Whole, IsLineOf, WriteFields, Escape;
    if line == "" {
      LastField(done, cur, "", num);
    } else {
      var rest := line[1..];
      assert line == [line[0]] + rest;
      if line[0] == '\t' && !esc {
        if |done| + 1 >= num {
          if rest == "" {
            assert line == "\t";
            LastField(done, cur, "\t", num);
          }
        } else {
          WholeNextField(done, cur, rest);
          ParsedIsWritten(rest, false, "", done + [cur], num);
        }
      } else if line[0] == '\t' {
        WholeEscapedTab(done, cur, rest);
        ParsedIsWritten(rest, false, cur[..|cur| - 1] + ['\t'], done, num);
      } else {
        WholePlain(done, cur, line[0], rest);
        ParsedIsWritten(rest, line[0] == '\\', cur + [line[0]], done, num);
      }
    }
  }

  lemma FieldsUnfold(row: seq<string>)
    requires row != []
    ensures WriteFields(row) == Escape(row[0]) + (['\t'] + WriteFields(row[1..]))
  {
  }

  /** The end of a field, when another one or nothing follows. */
  lemma ParseTab(rest: string, cur: string, done: seq<string>, num: nat)
    ensures |done| + 1 < num ==>
              Parse(['\t'] + rest, false, cur, done, num) == Parse(rest, false, [], done + [cur], num)
    ensures |done| + 1 == num && rest == "" ==> Parse(['\t'] + rest, false, cur, done, num) == Some(done + [cur])
  {
    assert (['\t'] + rest)[1..] == rest;
  }

  /** Reading fields that have a tab behind the last one, too. */
  lemma {:induction false} ParseFieldsTab(row: seq<string>, done: seq<string>, num: nat)
    requires row != [] && |done| + |row| == num && NoBackslashes(row)
    ensures Parse(WriteFields(row), false, [], done, num) == Some(done + row)
    decreases |row|
  {
    var f, rest := row[0], WriteFields(row[1..]);
    assert !EndsInBackslash(f);
    assert |row| == 1 ==> rest == [] && row == [f];
    assert |row| > 1 ==> forall j :: 0 <= j < |row[1..]| ==> row[1..][j] == row[j + 1];
    FieldsUnfold(row);
    ParseEscaped(f, ['\t'] + rest, false, [], done, num);
    assert [] + f == f;
    hide Parse, WriteFields, Escape;
    ParseTab(rest, f, done, num);
    if |row| > 1 {
      ParseFieldsTab(row[1..], done + [f], num);
      assert done + [f] + row[1..] == done + row;
    }
  }

  /** A line is read as a row exactly when it is the written form of that row, with or without the tab at
      its end, and only the last field may end in a backslash. */
  lemma ParseIff(line: string, row: seq<string>, num: nat)
    requires num > 0
    ensures Parse(line, false, [], [], num) == Some(row) <==> |row| == num && IsLineOf(line, row)
  {
    assert Whole([], [], line) == line by { assert Escape([]) == [] && WriteFields([]) == []; }
    ParsedIsWritten(line, false, [], [], num);
    if |row| == num && IsLineOf(line, row) {
      assert [] + row == row;
      if line + "\t" == WriteFields(row) {
        assert forall j :: 0 <= j < |row| - 1 ==> row[j] == row[..|row| - 1][j];
        ParseFields(row, [], num);
        assert line == (line + "\t")[..|line|];
      } else {
        ParseFieldsTab(row, [], num);
      }
    }
  }

  /** Comment lines are skipped, and a last line that is not ended is dropped. */
  lemma SkippedLines(line: string, rest: string, num: nat)
    requires '\n' !in line
    ensures line != "" && line[0] == '#' ==> Read(line + ['\n'] + rest, num) == Read(rest, num)
    ensures Read(line, num) == Some([])
  {
    var text := line + ['\n'] + rest;
    LineEndIs(line, rest);
    assert text[|line| + 1..] == rest && (line != "" ==> text[0] == line[0]);
    NoLineEnd(line);
    hide Parse, LineEnd;
  }

  lemma {:induction false} NoLineEnd(line: string)
    requires '\n' !in line
    ensures LineEnd(line) == |line|
  {
    if line != [] { NoLineEnd(line[1..]); }
  }

  lemma {:induction false} EscapePlain(f: string)
    requires '\t' !in f
    ensures Escape(f) == f
  {
    if f != [] {
      assert f[0] in f && '\t' !in f[1..];
      EscapePlain(f[1..]);
    }
  }
}
