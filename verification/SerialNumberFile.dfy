/** The file of the next serial number: i2a_ASN1_INTEGER writes it in lines of 35 bytes,
    a2i_ASN1_INTEGER reads it back. */
module SerialNumberFile {
  import opened CStrings
  import opened Options
  import opened SerialNames

  const LINE_BYTES := 35

  // The size of the line buffer, without its terminator.
  const ROOM := 1023

  /** BN_bin2bn. */
  function FromBytes(b: seq<Octet>): nat {
    if b == [] then 0 else 256 * FromBytes(b[..|b| - 1]) + b[|b| - 1]
  }

  /** What goes before byte `i`. */
  function Break(i: nat): string {
    if i != 0 && i % LINE_BYTES == 0 then "\\\n" else ""
  }

  /** The digits, with a backslash and a new line before every 35 bytes but the first. */
  function Wrapped(b: seq<Octet>): string
  {
    if b == [] then []
    else
      var n := |b| - 1;
      Wrapped(b[..n]) + Break(n) + TwoDigits(b[n])
  }

  lemma WrappedSnoc(b: seq<Octet>, x: Octet)
    ensures Wrapped(b + [x]) == Wrapped(b) + Break(|b|) + TwoDigits(x)
  {
    assert (b + [x])[..|b|] == b;
  }

  /** What save_serial leaves in the file. */
  function Written(n: int): string {
    (if n < 0 then "-" else "") + Wrapped(IntegerBytes(if n < 0 then -n else n)) + "\n"
  }

  /** What is left of it when only `cut` characters get written, which save_serial does not notice. */
  function CutShort(n: int, cut: nat): string {
    var w := Written(n);
    if cut < |w| then w[..cut] else w
  }

  lemma Appended(a: string, b: string, c: string, d: string)
    ensures a + (b + c + d) == ((a + b) + c) + d && (a + b) + "" == a + b
  {}

  method WriteInteger(n: int) returns (out: string)
    ensures out == Written(n)
  {
    out := if n < 0 then "-" else "";
    ghost var sign := out;
    var data := IntegerBytes(if n < 0 then -n else n);
    assert data[..0] == [] && sign + Wrapped([]) == sign;
    hide Wrapped;
    for i := 0 to |data|
      invariant out == sign + Wrapped(data[..i])
    {
      out := WriteByte(out, sign, data, i);
    }
    assert data[..|data|] == data;
    out := out + "\n";
  }

  method WriteByte(out0: string, ghost sign: string, data: seq<Octet>, i: nat) returns (out: string)
    requires i < |data| && out0 == sign + Wrapped(data[..i])
    ensures out == sign + Wrapped(data[..i + 1])
  {
    hide Wrapped, TwoDigits;
    assert data[..i + 1] == data[..i] + [data[i]];
    WrappedSnoc(data[..i], data[i]);
    Appended(sign, Wrapped(data[..i]), Break(i), TwoDigits(data[i]));
    out := out0;
    if i != 0 && i % LINE_BYTES == 0 {
      out := out + "\\\n";
    }
    out := out + TwoDigits(data[i]);
  }

  /** BIO_gets: at most `room` characters, up to and including the first new line. */
  function Line(text: string, room: nat): (l: string)
    ensures |l| <= |text| && l == text[..|l|]
    ensures room > 0 && text != [] ==> l != []
  {
    if room == 0 || text == [] then []
    else if text[0] == '\n' then [text[0]]
    else [text[0]] + Line(text[1..], room - 1)
  }

  function DropLast(s: string, c: char): (t: string)
    ensures |t| <= |s| && t == s[..|t|]
  {
    if s != [] && s[|s| - 1] == c then s[..|s| - 1] else s
  }

  /** The bytes of a string of pairs of digits. */
  function Pairs(d: string): seq<Octet>
    requires IsHex(d)
  {
    if |d| < 2 then [] else Pairs(d[..|d| - 2]) + [16 * Nibble(d[|d| - 2]) + Nibble(d[|d| - 1])]
  }

  datatype Piece = Bad | Digits(text: string, again: bool)

  /** The line without its line end. */
  function Body(line: string): string {
    DropLast(DropLast(line, '\n'), '\r')
  }

  /** One line: its digits, on the first line without a leading "00". A line that ends in a backslash
      is continued, and gives one digit less than it has. */
  function BodyPiece(body: string, first: bool): (p: Piece)
    ensures p.Digits? ==> IsHex(p.text) && |p.text| % 2 == 0
  {
    if body == [] then Bad
    else
      var again := body[|body| - 1] == '\\';
      var run := body[..HexRun(body)];
      if |run| < 2 then Bad
      else
        var digits := if first && run[0] == '0' && run[1] == '0' then run[2..] else run;
        var i := |digits| - if again then 1 else 0;
        if i % 2 != 0 then Bad else Digits(digits[..i], again)
  }

  function ReadPiece(line: string, first: bool): (p: Piece)
    ensures p.Digits? ==> IsHex(p.text) && |p.text| % 2 == 0
  {
    BodyPiece(Body(line), first)
  }

  /** The bytes read from the text, line by line. */
  function ReadBytes(text: string, first: bool): Option<seq<Octet>>
    decreases |text|
  {
    var line := Line(text, ROOM);
    if line == [] then None
    else
      var p := ReadPiece(line, first);
      if p.Bad? then None
      else if !p.again then Some(Pairs(p.text))
      else Prepend(Pairs(p.text), ReadBytes(text[|line|..], false))
  }

  /** load_serial. */
  function Load(text: string): Option<nat> {
    var b := ReadBytes(text, true);
    if b.None? then None else Some(FromBytes(b.value))
  }

  lemma BytesStep(text: string, first: bool)
    ensures var line := Line(text, ROOM); var p := ReadPiece(line, first);
            ReadBytes(text, first) == if line == [] || p.Bad? then None
                                      else if p.again then Prepend(Pairs(p.text), ReadBytes(text[|line|..], false))
                                      else Some(Pairs(p.text))
  {}

  method ReadInteger(text: string) returns (r: Option<seq<Octet>>)
    ensures r == ReadBytes(text, true)
  {
    hide Pairs, Line, ReadPiece, Prepend, ReadBytes;
    var s, first, pos := [], true, 0;
    var line := Line(text, ROOM);
    assert text[0..] == text;
    PrependNothing(ReadBytes(text, true));
    while true
      invariant pos <= |text| && line == Line(text[pos..], ROOM)
      invariant ReadBytes(text, true) == Prepend(s, ReadBytes(text[pos..], first))
      decreases |text| - pos
    {
      BytesStep(text[pos..], first);
      if line == [] {
        return None;
      }
      var p := ScanLine(line, first);
      if p.Bad? {
        return None;
      }
      first := false;
      var more := DecodePairs(p.text);
      if !p.again {
        PrependSome(s, more);
        return Some(s + more);
      }
      assert text[pos + |line|..] == text[pos..][|line|..];
      PrependTwice(s, more, ReadBytes(text[pos + |line|..], false));
      pos := pos + |line|;
      s := s + more;
      line := Line(text[pos..], ROOM);
    }
  }

  /** Cuts the line end off, then everything from the first character that is no digit. */
  method ScanLine(line: string, first: bool) returns (p: Piece)
    requires line != []
    ensures p == ReadPiece(line, first)
  {
    var i := |line|;
    if line[i - 1] == '\n' {
      i := i - 1;
    }
    if i == 0 {
      return Bad;
    }
    if line[i - 1] == '\r' {
      i := i - 1;
    }
    if i == 0 {
      return Bad;
    }
    assert line[..i] == Body(line);
    p := ScanBody(line, i, first);
  }

  method ScanBody(line: string, n: nat, first: bool) returns (p: Piece)
    requires 0 < n <= |line|
    ensures p == BodyPiece(line[..n], first)
  {
    hide HexRun;
    var i := n;
    var again := line[i - 1] == '\\';
    var j := 0;
    while j < i
      invariant 0 <= j <= i == n && (forall k :: 0 <= k < j ==> Hex(line[k]))
    {
      if !Hex(line[j]) {
        i := j;
        break;
      }
      j := j + 1;
    }
    HexRunIs(line[..n], i);
    if i < 2 {
      return Bad;
    }
    var start := 0;
    if first && line[0] == '0' && line[1] == '0' {
      start := 2;
    }
    var length: int := i - start - if again then 1 else 0;
    if length % 2 != 0 {
      return Bad;
    }
    CutOut(line, n, i, start, length);
    return Digits(line[start..start + length], again);
  }

  lemma CutOut(line: string, n: nat, run: nat, start: nat, i: nat)
    requires start + i <= run <= n <= |line|
    ensures line[..n][..run][start..][..i] == line[start..start + i] && line[..n][..run][start..] == line[start..run]
  {
    assert line[..n][..run] == line[..run] && line[..run][start..] == line[start..run];
    assert line[start..run][..i] == line[start..start + i];
  }

  lemma {:induction false} HexRunIs(s: string, n: nat)
    requires n <= |s| && (forall k :: 0 <= k < n ==> Hex(s[k])) && (n < |s| ==> !Hex(s[n]))
    ensures HexRun(s) == n
  {
    if n > 0 { HexRunIs(s[1..], n - 1); }
  }

  method DecodePairs(d: string) returns (s: seq<Octet>)
    requires IsHex(d) && |d| % 2 == 0
    ensures s == Pairs(d)
  {
    s := [];
    for j := 0 to |d| / 2
      invariant s == Pairs(d[..2 * j])
    {
      assert d[..2 * j + 2][..2 * j] == d[..2 * j];
      s := s + [16 * Nibble(d[2 * j]) + Nibble(d[2 * j + 1])];
    }
    assert d[..2 * (|d| / 2)] == d;
  }

  // ---- what is read back ----

  lemma {:induction false} FromBytesOf(n: nat)
    ensures FromBytes(Bytes(n)) == n
  {
    if n > 0 {
      FromBytesOf(n / 256);
      assert Bytes(n)[..|Bytes(n)| - 1] == Bytes(n / 256);
    }
  }

  lemma PairsSnoc(d: string, t: string)
    requires IsHex(d) && IsHex(t) && |t| == 2
    ensures IsHex(d + t) && Pairs(d + t) == Pairs(d) + [16 * Nibble(t[0]) + Nibble(t[1])]
  {
    var s := d + t;
    assert s[..|s| - 2] == d && s[|s| - 2] == t[0];
  }

  lemma {:induction false} PairsOfPrint(b: seq<Octet>)
    ensures IsHex(PrintBytes(b)) && Pairs(PrintBytes(b)) == b
  {
    if b != [] {
      var init, x := b[..|b| - 1], b[|b| - 1];
      assert b == init + [x];
      PairsOfPrint(init);
      hide Pairs, PrintBytes, TwoDigits;
      PrintOneMore(init, x);
      PairsSnoc(PrintBytes(init), TwoDigits(x));
    }
  }

  lemma {:induction false} OneLine(b: seq<Octet>)
    requires |b| <= LINE_BYTES
    ensures Wrapped(b) == PrintBytes(b)
  {
    if b != [] {
      var init, x := b[..|b| - 1], b[|b| - 1];
      assert b == init + [x];
      OneLine(init);
      hide Wrapped, PrintBytes, TwoDigits;
      PrintOneMore(init, x);
      WrappedSnoc(init, x);
    }
  }

  /** A longer number starts with one full line of 35 bytes and its backslash. */
  lemma {:induction false} FirstLineFull(b: seq<Octet>)
    requires |b| > LINE_BYTES
    ensures PrintBytes(b[..LINE_BYTES]) + "\\\n" <= Wrapped(b)
  {
    var init, x := b[..|b| - 1], b[|b| - 1];
    assert b == init + [x];
    hide Wrapped, PrintBytes, TwoDigits;
    WrappedSnoc(init, x);
    if |init| == LINE_BYTES {
      OneLine(init);
    } else {
      FirstLineFull(init);
      assert init[..LINE_BYTES] == b[..LINE_BYTES];
    }
  }

  lemma {:induction false} LineIs(t: string, rest: string, room: nat)
    requires '\n' !in t && |t| < room
    ensures Line(t + "\n" + rest, room) == t + "\n"
  {
    if t != [] {
      assert (t + "\n" + rest)[1..] == t[1..] + "\n" + rest;
      LineIs(t[1..], rest, room - 1);
    }
  }

  /** A line of an even number of digits and a backslash is never accepted. */
  lemma ContinuedLineBad(d: string, first: bool)
    requires IsHex(d) && |d| % 2 == 0
    ensures ReadPiece(d + "\\\n", first) == Bad
  {
    var line, body := d + "\\\n", d + "\\";
    assert DropLast(line, '\n') == body && DropLast(body, '\r') == body;
    ContinuedBodyBad(d, first);
  }

  lemma ContinuedBodyBad(d: string, first: bool)
    requires IsHex(d) && |d| % 2 == 0
    ensures BodyPiece(d + "\\", first) == Bad
  {
    HexRunIs(d + "\\", |d|);
  }

  /** A line of an even number of digits is read whole, but for a leading "00". */
  lemma LastLineGood(d: string)
    requires IsHex(d) && |d| % 2 == 0 && |d| >= 2
    ensures ReadPiece(d + "\n", true) == Digits(if d[0] == '0' && d[1] == '0' then d[2..] else d, false)
  {
    var line := d + "\n";
    assert DropLast(line, '\n') == d && Hex(d[|d| - 1]) && DropLast(d, '\r') == d;
    HexRunIs(d, |d|);
  }

  lemma NoNewline(d: string)
    requires IsHex(d)
    ensures '\n' !in d
  {}

  lemma {:induction false} FirstByte(n: nat)
    requires n > 0
    ensures Bytes(n)[0] > 0
  {
    if n >= 256 { FirstByte(n / 256); }
  }

  lemma {:induction false} PrintStart(b: seq<Octet>)
    requires b != []
    ensures PrintBytes(b)[..2] == TwoDigits(b[0])
  {
    var init, x := b[..|b| - 1], b[|b| - 1];
    assert b == init + [x];
    PrintOneMore(init, x);
    hide TwoDigits;
    if init != [] { PrintStart(init); }
  }

  lemma ZeroDigits(x: Octet)
    requires TwoDigits(x) == "00"
    ensures x == 0
  {
    assert Nibble('0') == 0;
  }

  lemma NotZeros(n: nat)
    requires n > 0
    ensures !StartsZeroZero(PrintBytes(Bytes(n)))
  {
    FirstByte(n);
    var b := Bytes(n);
    hide PrintBytes, TwoDigits, Bytes;
    PrintStart(b);
    var d := PrintBytes(b);
    if StartsZeroZero(d) {
      assert d[..2] == [d[0], d[1]] == "00";
      ZeroDigits(b[0]);
    }
  }

  predicate StartsZeroZero(d: string) { |d| >= 2 && d[0] == '0' && d[1] == '0' }

  /** One line of digits is read back as the number. */
  lemma OneLineLoads(d: string)
    requires IsHex(d) && |d| % 2 == 0 && 2 <= |d| < ROOM
    ensures !StartsZeroZero(d) ==> Load(d + "\n") == Some(FromBytes(Pairs(d)))
    ensures StartsZeroZero(d) ==> IsHex(d[2..]) && Load(d + "\n") == Some(FromBytes(Pairs(d[2..])))
  {
    NoNewline(d);
    LineIs(d, "", ROOM);
    LastLineGood(d);
    assert d + "\n" + "" == d + "\n";
    hide Pairs, Line, ReadPiece, FromBytes;
  }

  lemma WrittenOneLine(n: nat)
    requires |Bytes(n)| <= LINE_BYTES
    ensures Written(n) == PrintBytes(IntegerBytes(n)) + "\n"
  {
    var b := IntegerBytes(n);
    hide Wrapped, PrintBytes, Bytes;
    OneLine(b);
    assert "" + Wrapped(b) + "\n" == Wrapped(b) + "\n";
  }

  lemma ZeroLoads()
    ensures Load(Written(0)) == Some(0)
  {
    var d := PrintBytes(IntegerBytes(0));
    WrittenOneLine(0);
    PrintStart([0]);
    OneLineLoads(d);
    assert d[2..] == [];
  }

  lemma PositiveLoads(n: nat)
    requires 0 < n && |Bytes(n)| <= LINE_BYTES
    ensures Load(Written(n)) == Some(n)
  {
    hide PrintBytes, Pairs, FromBytes, Load, Written, Bytes, StartsZeroZero;
    var b := Bytes(n);
    WrittenOneLine(n);
    NotZeros(n);
    PairsOfPrint(b);
    FromBytesOf(n);
    OneLineLoads(PrintBytes(b));
  }

  lemma SmallLoads(n: nat)
    requires |Bytes(n)| <= LINE_BYTES
    ensures Load(Written(n)) == Some(n)
  {
    if n == 0 { ZeroLoads(); } else { PositiveLoads(n); }
  }

  /** A file whose first line is continued after an even number of digits is rejected. */
  lemma ContinuedFails(d: string, rest: string)
    requires IsHex(d) && |d| % 2 == 0 && |d| + 1 < ROOM
    ensures Load(d + "\\\n" + rest) == None
  {
    NoNewline(d);
    LineIs(d + "\\", rest, ROOM);
    assert d + "\\" + "\n" == d + "\\\n";
    ContinuedLineBad(d, true);
    hide Line, ReadPiece, Pairs;
  }

  lemma CutTwice(a: string, w: string, end: string)
    requires a <= w
    ensures w + end == a + (w[|a|..] + end)
  {}

  lemma LongFails(b: seq<Octet>)
    requires |b| > LINE_BYTES
    ensures Load(Wrapped(b) + "\n") == None
  {
    hide Wrapped, PrintBytes, Load;
    FirstLineFull(b);
    var d, w := PrintBytes(b[..LINE_BYTES]), Wrapped(b);
    var first := d + "\\\n";
    CutTwice(first, w, "\n");
    ContinuedFails(d, w[|first|..] + "\n");
  }

  lemma LargeFails(n: nat)
    requires |Bytes(n)| > LINE_BYTES
    ensures Load(Written(n)) == None
  {
    hide Wrapped, Load, Bytes;
    LongFails(Bytes(n));
    assert Written(n) == Wrapped(Bytes(n)) + "\n";
  }

  lemma NegativeFails(n: int)
    requires n < 0
    ensures Load(Written(n)) == None
  {
    var t := Written(n);
    var line := Line(t, ROOM);
    assert t[0] == '-' && line[0] == '-';
    var body := DropLast(DropLast(line, '\n'), '\r');
    assert body != [] ==> body[0] == '-' && HexRun(body) == 0;
  }

  /** A saved serial number is read back exactly when it is not negative and has at most 35 bytes;
      otherwise the file is rejected. */
  lemma RoundTripIff(n: int)
    ensures Load(Written(n)) == Some(n) <==> n >= 0 && |Bytes(n)| <= LINE_BYTES
    ensures Load(Written(n)) == Some(n) || Load(Written(n)) == None
  {
    if n < 0 { NegativeFails(n); } else if |Bytes(n)| <= LINE_BYTES { SmallLoads(n); } else { LargeFails(n); }
  }

  function Power256(k: nat): (n: nat)
    ensures n > 0
  {
    if k == 0 then 1 else 256 * Power256(k - 1)
  }

  lemma {:induction false} BytesFit(n: nat, k: nat)
    ensures |Bytes(n)| <= k <==> n < Power256(k)
  {
    if n > 0 && k > 0 { BytesFit(n / 256, k - 1); }
  }

  lemma PowerGrows(k: nat)
    ensures Power256(k) < Power256(k + 1)
  {
  }

  /** The largest number that is read back, and the next one, of 36 bytes, that is not. */
  lemma LimitExample()
    ensures var n := Power256(LINE_BYTES);
            Load(Written(n - 1)) == Some(n - 1) && Load(Written(n)) == None && |Bytes(n)| == 36
  {
    hide Load, Written, Bytes, Power256;
    var n := Power256(LINE_BYTES);
    BytesFit(n - 1, LINE_BYTES);
    BytesFit(n, LINE_BYTES);
    BytesFit(n, 36);
    PowerGrows(LINE_BYTES);
    RoundTripIff(n - 1);
    LargeFails(n);
  }

  // ---- a file cut short ----

  lemma {:induction false} LineToEnd(t: string, room: nat)
    requires '\n' !in t && |t| < room
    ensures Line(t, room) == t
  {
    if t != [] { LineToEnd(t[1..], room - 1); }
  }

  /** Digits without a line end: an even number of them is read, an odd number is not. */
  lemma BareDigits(d: string)
    requires IsHex(d) && |d| < ROOM && !StartsZeroZero(d)
    ensures Load(d) == if d == "" || |d| % 2 == 1 then None else Some(FromBytes(Pairs(d)))
  {
    NoNewline(d);
    LineToEnd(d, ROOM);
    if d != "" {
      assert Hex(d[|d| - 1]);
      assert DropLast(d, '\n') == d && DropLast(d, '\r') == d;
      HexRunIs(d, |d|);
    }
    hide Line, Pairs, FromBytes;
  }

  lemma {:induction false} PrintPrefix(b: seq<Octet>, k: nat)
    requires k <= |b|
    ensures PrintBytes(b[..k]) == PrintBytes(b)[..2 * k]
  {
    if k == |b| {
      assert b[..k] == b;
      assert PrintBytes(b)[..2 * k] == PrintBytes(b);
    } else {
      var init, x := b[..|b| - 1], b[|b| - 1];
      assert b == init + [x] && b[..k] == init[..k];
      PrintPrefix(init, k);
      PrintOneMore(init, x);
      hide PrintBytes, TwoDigits;
      assert (PrintBytes(init) + TwoDigits(x))[..2 * k] == PrintBytes(init)[..2 * k];
    }
  }

  /** The leading bytes of a number are a smaller number. */
  lemma {:induction false} LeadingBytes(n: nat, k: nat)
    requires k < |Bytes(n)|
    ensures FromBytes(Bytes(n)[..k]) < n
  {
    var m := n / 256;
    if k == |Bytes(m)| {
      assert Bytes(n)[..k] == Bytes(m);
      FromBytesOf(m);
    } else {
      LeadingBytes(m, k);
      assert Bytes(n)[..k] == Bytes(m)[..k];
    }
  }

  /** The first digits of a number. */
  lemma CutDigits(n: nat, cut: nat)
    requires n > 0 && cut <= 2 * |Bytes(n)| && cut < ROOM
    ensures Load(PrintBytes(Bytes(n))[..cut]) ==
            if cut == 0 || cut % 2 == 1 then None else Some(FromBytes(Bytes(n)[..cut / 2]))
  {
    hide Load, PrintBytes, Pairs, FromBytes, Bytes;
    var b := Bytes(n);
    var d := PrintBytes(b);
    NotZeros(n);
    PrefixBare(d, cut);
    BareDigits(d[..cut]);
    if cut % 2 == 0 {
      PrintPrefix(b, cut / 2);
      PairsOfPrint(b[..cut / 2]);
    }
  }

  lemma PrefixBare(d: string, cut: nat)
    requires IsHex(d) && !StartsZeroZero(d) && cut <= |d|
    ensures IsHex(d[..cut]) && !StartsZeroZero(d[..cut])
  {
  }

  lemma CutBackslash(d: string)
    requires IsHex(d) && |d| % 2 == 0 && |d| + 1 < ROOM
    ensures Load(d + "\\") == None
  {
    var line := d + "\\";
    NoNewline(d);
    LineToEnd(line, ROOM);
    assert DropLast(line, '\n') == line && DropLast(line, '\r') == line;
    ContinuedBodyBad(d, true);
    hide Line, Pairs, BodyPiece;
  }

  lemma CutLine(n: nat, cut: nat)
    requires n > 0 && |Bytes(n)| <= LINE_BYTES
    ensures CutShort(n, cut) == if cut <= 2 * |Bytes(n)| then PrintBytes(Bytes(n))[..cut] else Written(n)
  {
    WrittenOneLine(n);
    hide PrintBytes, Bytes, Written;
    var d := PrintBytes(Bytes(n));
    assert cut <= |d| ==> (d + "\n")[..cut] == d[..cut];
    assert Written(n) == d + "\n";
  }

  lemma CutLines(n: nat, cut: nat)
    requires |Bytes(n)| > LINE_BYTES
    ensures var d := PrintBytes(Bytes(n)[..LINE_BYTES]);
            if cut <= 70 then CutShort(n, cut) == PrintBytes(Bytes(n))[..cut]
            else if cut == 71 then CutShort(n, cut) == d + "\\"
            else d + "\\\n" <= CutShort(n, cut)
  {
    hide PrintBytes, Bytes, Wrapped, Written;
    var b := Bytes(n);
    WrittenLines(n);
    PrintPrefix(b, LINE_BYTES);
    CutFirstLine(Written(n), PrintBytes(b[..LINE_BYTES]), cut);
    assert cut <= 70 ==> PrintBytes(b)[..70][..cut] == PrintBytes(b)[..cut];
  }

  lemma WrittenLines(n: nat)
    requires |Bytes(n)| > LINE_BYTES
    ensures PrintBytes(Bytes(n)[..LINE_BYTES]) + "\\\n" <= Written(n)
  {
    hide PrintBytes, Bytes, Wrapped;
    FirstLineFull(Bytes(n));
    assert Written(n) == Wrapped(Bytes(n)) + "\n";
  }

  lemma CutFirstLine(w: string, d: string, cut: nat)
    requires |d| == 70 && d + "\\\n" <= w
    ensures cut <= 70 ==> w[..cut] == d[..cut]
    ensures w[..71] == d + "\\"
    ensures 72 <= cut <= |w| ==> d + "\\\n" <= w[..cut]
  {
    assert w[..72] == d + "\\\n";
    assert cut <= 70 ==> w[..72][..cut] == w[..cut];
    assert w[..72][..71] == w[..71];
  }

  /** What is read from a file cut short: all of the number when its digits are there, the number of
      the leading bytes after an even number of digits, and otherwise nothing. */
  lemma CutShortLoads(n: nat, cut: nat)
    requires n > 0
    ensures Load(CutShort(n, cut)) ==
            if |Bytes(n)| <= LINE_BYTES && cut >= 2 * |Bytes(n)| then Some(n)
            else if cut == 0 || cut % 2 == 1 || cut > 2 * LINE_BYTES then None
            else Some(FromBytes(Bytes(n)[..cut / 2]))
  {
    var b := Bytes(n);
    hide Load, PrintBytes, Bytes, Written, CutShort, FromBytes;
    if |b| <= LINE_BYTES {
      CutLine(n, cut);
      if cut <= 2 * |b| {
        CutDigits(n, cut);
        assert b[..|b|] == b;
        FromBytesOf(n);
      } else {
        PositiveLoads(n);
      }
    } else {
      CutLines(n, cut);
      if cut <= 70 {
        CutDigits(n, cut);
      } else {
        var d, text := PrintBytes(b[..LINE_BYTES]), CutShort(n, cut);
        if cut == 71 {
          CutBackslash(d);
        } else {
          ContinuedFails(d, text[72..]);
          assert text == d + "\\\n" + text[72..];
        }
      }
    }
  }

  /** So a number that is read from it is the one saved exactly when all digits got written, and
      otherwise smaller. */
  lemma CutShortIsSmaller(n: nat, cut: nat)
    requires n > 0 && Load(CutShort(n, cut)).Some?
    ensures var m := Load(CutShort(n, cut)).value; m <= n && (m == n <==> cut >= 2 * |Bytes(n)|)
  {
    CutShortLoads(n, cut);
    hide Load, Bytes, CutShort, FromBytes;
    if cut < 2 * |Bytes(n)| { LeadingBytes(n, cut / 2); }
  }

  // ---- the lines ----

  lemma SecondLineStarts(init: seq<Octet>, x: Octet)
    requires |init| == LINE_BYTES
    ensures Wrapped(init + [x]) == PrintBytes(init) + "\\\n" + Wrapped([x])
  {
    assert Wrapped([x]) == TwoDigits(x) by {
      WrappedSnoc([], x);
      assert [] + [x] == [x] && "" + "" + TwoDigits(x) == TwoDigits(x);
    }
    hide Wrapped, PrintBytes, TwoDigits;
    OneLine(init);
    WrappedSnoc(init, x);
  }

  /** Every 35 bytes make one line, and all lines but the last are continued. */
  lemma {:induction false} LinesOf(b: seq<Octet>)
    requires |b| > LINE_BYTES
    ensures Wrapped(b) == PrintBytes(b[..LINE_BYTES]) + "\\\n" + Wrapped(b[LINE_BYTES..])
  {
    hide Wrapped, PrintBytes, TwoDigits;
    var init, x := b[..|b| - 1], b[|b| - 1];
    assert b == init + [x];
    if |init| == LINE_BYTES {
      SecondLineStarts(init, x);
      assert b[LINE_BYTES..] == [x] && b[..LINE_BYTES] == init;
    } else {
      LinesOf(init);
      var tail := init[LINE_BYTES..];
      assert b[LINE_BYTES..] == tail + [x] && b[..LINE_BYTES] == init[..LINE_BYTES];
      assert Break(|init|) == Break(|tail|);
      hide Break;
      WrappedSnoc(init, x);
      WrappedSnoc(tail, x);
      Behind(PrintBytes(b[..LINE_BYTES]) + "\\\n", Wrapped(tail), Break(|tail|), TwoDigits(x));
    }
  }

  lemma Behind(front: string, w: string, br: string, d: string)
    ensures (front + w) + br + d == front + (w + br + d)
  {
  }

  // ---- files written by hand ----

  lemma {:induction false} PairsValue(d: string)
    requires IsHex(d) && |d| % 2 == 0
    ensures FromBytes(Pairs(d)) == Value(d)
  {
    if d != "" {
      var init, t := d[..|d| - 2], d[|d| - 2..];
      assert d == init + t && t[0] == d[|d| - 2] && t[1] == d[|d| - 1];
      PairsValue(init);
      ValueOfTwo(init, t);
      var b := Pairs(init);
      assert (b + [16 * Nibble(t[0]) + Nibble(t[1])])[..|b|] == b;
    }
  }

  /** What ends the digits of a line that is not continued. */
  ghost predicate IsJunk(junk: string) {
    && '\n' !in junk && (junk != "" ==> !Hex(junk[0]))
    && (junk == "" || junk == "\r" || (junk[|junk| - 1] != '\\' && junk[|junk| - 1] != '\r'))
  }

  lemma JunkBody(d: string, junk: string)
    requires IsHex(d) && |d| >= 2 && IsJunk(junk)
    ensures Body(d + junk + "\n") == d + if junk == "\r" then "" else junk
  {
    var line := d + junk + "\n";
    assert DropLast(line, '\n') == d + junk;
    if junk == "" {
      assert d + junk == d && d + "" == d && Hex(d[|d| - 1]);
    } else {
      assert (d + junk)[|d + junk| - 1] == junk[|junk| - 1];
      assert junk == "\r" ==> (d + junk)[..|d|] == d && d + "" == d;
    }
  }

  /** The digits at the front of a line that does not end in a backslash. */
  lemma DigitsPiece(d: string, more: string, first: bool)
    requires IsHex(d) && |d| >= 2 && (more != "" ==> !Hex(more[0]) && more[|more| - 1] != '\\')
    ensures BodyPiece(d + more, first) ==
            if |d| % 2 == 0 then Digits(if first && StartsZeroZero(d) then d[2..] else d, false) else Bad
  {
    var body := d + more;
    HexRunIs(body, |d|);
    assert body[..|d|] == d;
    assert body[|body| - 1] == if more == "" then d[|d| - 1] else more[|more| - 1];
    hide HexRun;
  }

  lemma JunkPiece(d: string, junk: string, first: bool)
    requires IsHex(d) && |d| >= 2 && IsJunk(junk)
    ensures ReadPiece(d + junk + "\n", first) ==
            if |d| % 2 == 0 then Digits(if first && StartsZeroZero(d) then d[2..] else d, false) else Bad
  {
    JunkBody(d, junk);
    DigitsPiece(d, if junk == "\r" then "" else junk, first);
    hide Body, BodyPiece;
  }

  /** A line of digits in either case is the number it denotes; what is behind the digits is ignored, and
      so are all further lines. An odd number of digits is rejected. */
  lemma HandWritten(d: string, junk: string, rest: string)
    requires IsHex(d) && |d| >= 2 && IsJunk(junk) && |d| + |junk| < ROOM
    ensures Load(d + junk + "\n" + rest) == if |d| % 2 == 0 then Some(Value(d)) else None
  {
    NoNewline(d);
    LineIs(d + junk, rest, ROOM);
    JunkPiece(d, junk, true);
    hide Line, ReadPiece, Pairs, FromBytes, Value, IsJunk, IsHex;
    if |d| % 2 == 0 {
      PairsValue(d);
      if StartsZeroZero(d) {
        ZerosInFront(d);
        PairsValue(d[2..]);
      }
    }
  }

  lemma ZerosInFront(d: string)
    requires IsHex(d) && StartsZeroZero(d)
    ensures IsHex(d[2..]) && Value(d[2..]) == Value(d)
  {
    assert d == "0" + ("0" + d[2..]);
    ValueOfZeroPrefix(d[2..]);
    ValueOfZeroPrefix("0" + d[2..]);
  }

  lemma OddPiece(d: string, x: char)
    requires IsHex(d) && Hex(x) && |d| >= 2 && |d| % 2 == 0 && !StartsZeroZero(d)
    ensures ReadPiece(d + [x] + "\\\n", true) == Digits(d, true)
  {
    var run, line := d + [x], d + [x] + "\\\n";
    assert DropLast(line, '\n') == run + "\\" && DropLast(run + "\\", '\r') == run + "\\";
    HexRunIs(run + "\\", |run|);
    assert (run + "\\")[..|run|] == run && run[..|d|] == d;
  }

  lemma ContinuedLine(d: string, x: char, more: string)
    requires IsHex(d) && Hex(x) && |d| + 2 < ROOM
    ensures var first := d + [x] + "\\\n"; Line(first + more, ROOM) == first && (first + more)[|first|..] == more
  {
    var t := d + [x] + "\\";
    NoNewline(d + [x]);
    LineIs(t, more, ROOM);
    assert t + "\n" == d + [x] + "\\\n" && t + "\n" + more == (d + [x] + "\\\n") + more;
  }

  lemma LastLineReads(e: string, rest: string)
    requires IsHex(e) && |e| >= 2 && |e| % 2 == 0 && |e| < ROOM
    ensures ReadBytes(e + "\n" + rest, false) == Some(Pairs(e))
  {
    NoNewline(e);
    LineIs(e, rest, ROOM);
    assert e + "" + "\n" == e + "\n";
    JunkPiece(e, "", false);
    hide Line, ReadPiece, Pairs;
  }

  /** A continued line is accepted after an odd number of digits only, and the last of them is lost. */
  lemma ContinuedByHand(d: string, x: char, e: string, rest: string)
    requires IsHex(d) && Hex(x) && |d| >= 2 && |d| % 2 == 0 && !StartsZeroZero(d) && |d| + 2 < ROOM
    requires IsHex(e) && |e| >= 2 && |e| % 2 == 0 && |e| < ROOM
    ensures IsHex(d + e) && Load((d + [x] + "\\\n") + (e + "\n" + rest)) == Some(Value(d + e))
  {
    hide Line, ReadPiece, FromBytes, Value, Pairs, ReadBytes, IsHex, Hex, StartsZeroZero;
    var first, more := d + [x] + "\\\n", e + "\n" + rest;
    PairsConcat(d, e);
    ContinuedLine(d, x, more);
    OddPiece(d, x);
    LastLineReads(e, rest);
    FirstContinued(first + more, first, more, d, Pairs(e));
    PairsValue(d + e);
  }

  lemma FirstContinued(text: string, first: string, more: string, d: string, b: seq<Octet>)
    requires Line(text, ROOM) == first && first != "" && text[|first|..] == more && IsHex(d) && |d| % 2 == 0
    requires ReadPiece(first, true) == Digits(d, true) && ReadBytes(more, false) == Some(b)
    ensures ReadBytes(text, true) == Some(Pairs(d) + b)
  {
    hide Line, ReadPiece, Pairs;
    BytesStep(text, true);
  }

  lemma {:induction false} PairsConcat(d: string, e: string)
    requires IsHex(d) && IsHex(e) && |d| % 2 == 0 && |e| % 2 == 0
    ensures IsHex(d + e) && Pairs(d + e) == Pairs(d) + Pairs(e)
  {
    if e == "" {
      assert d + e == d;
    } else {
      var init, t := e[..|e| - 2], e[|e| - 2..];
      assert e == init + t && d + e == (d + init) + t;
      PairsConcat(d, init);
      hide Pairs;
      PairsSnoc(d + init, t);
      PairsSnoc(init, t);
    }
  }

  lemma PrintOfMorePairs(init: string, t: string)
    requires IsHex(init) && |init| % 2 == 0 && IsHex(t) && |t| == 2 && PrintBytes(Pairs(init)) == UpperAll(init)
    ensures IsHex(init + t) && PrintBytes(Pairs(init + t)) == UpperAll(init + t)
    ensures |Pairs(init + t)| == |Pairs(init)| + 1
  {
    hide Pairs, PrintBytes, TwoDigits, Nibble;
    PairsSnoc(init, t);
    TwoDigitsOf(t);
    PrintOneMore(Pairs(init), 16 * Nibble(t[0]) + Nibble(t[1]));
    assert UpperAll(init + t) == UpperAll(init) + UpperAll(t);
  }

  /** Hex digits in either case are the digits of some bytes. */
  lemma {:induction false} PrintOfPairs(d: string)
    requires IsHex(d) && |d| % 2 == 0
    ensures PrintBytes(Pairs(d)) == UpperAll(d) && |Pairs(d)| == |d| / 2
  {
    if d != "" {
      var init, t := d[..|d| - 2], d[|d| - 2..];
      assert d == init + t;
      hide Pairs, PrintBytes;
      PrintOfPairs(init);
      PrintOfMorePairs(init, t);
    }
  }

  lemma TwoDigitsOf(t: string)
    requires IsHex(t) && |t| == 2
    ensures TwoDigits(16 * Nibble(t[0]) + Nibble(t[1])) == UpperAll(t)
  {
    var a, b := Nibble(t[0]), Nibble(t[1]);
    assert (16 * a + b) / 16 == a && (16 * a + b) % 16 == b;
    assert HexChar(a) == Upper(t[0]) && HexChar(b) == Upper(t[1]);
    assert UpperAll(t) == [Upper(t[0]), Upper(t[1])];
  }
}
