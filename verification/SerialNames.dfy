/** Serial numbers as text: BN_bn2hex, the serial index of the database, the status query and the
    certificate file name. */
module SerialNames {
  import opened CStrings

  predicate UpperHex(c: char) { '0' <= c <= '9' || 'A' <= c <= 'F' }

  predicate Hex(c: char) { UpperHex(c) || 'a' <= c <= 'f' }

  function Nibble(c: char): (n: nat)
    requires Hex(c)
    ensures n < 16
  {
    if c <= '9' then c as int - '0' as int
    else if c <= 'F' then c as int - 'A' as int + 10
    else c as int - 'a' as int + 10
  }

  function HexChar(n: nat): (c: char)
    requires n < 16
    ensures UpperHex(c) && Nibble(c) == n
  {
    if n < 10 then ('0' as int + n) as char else ('A' as int + n - 10) as char
  }

  predicate IsHex(s: string) { forall i :: 0 <= i < |s| ==> Hex(s[i]) }

  predicate IsUpperHex(s: string) { forall i :: 0 <= i < |s| ==> UpperHex(s[i]) }

  /** The length of the run of hex digits at the front. */
  function HexRun(s: string): (n: nat)
    ensures n <= |s| && IsHex(s[..n]) && (n < |s| ==> !Hex(s[n]))
  {
    if s == [] || !Hex(s[0]) then 0 else 1 + HexRun(s[1..])
  }

  /** The number a hex numeral denotes. */
  function Value(s: string): nat
    requires IsHex(s)
  {
    if s == [] then 0 else 16 * Value(s[..|s| - 1]) + Nibble(s[|s| - 1])
  }

  type Octet = n: int | 0 <= n < 256

  /** The bytes of a number, most significant first, none for zero (BN_bn2bin). */
  function Bytes(n: nat): (b: seq<Octet>)
    ensures b == [] <==> n == 0
  {
    if n == 0 then [] else Bytes(n / 256) + [n % 256]
  }

  /** The content bytes of the number as an ASN.1 integer: at least one (BN_to_ASN1_INTEGER). */
  function IntegerBytes(n: nat): (b: seq<Octet>)
    ensures b != []
  {
    if n == 0 then [0] else Bytes(n)
  }

  function TwoDigits(x: Octet): (s: string)
    ensures |s| == 2 && IsUpperHex(s) && 16 * Nibble(s[0]) + Nibble(s[1]) == x
  {
    [HexChar(x / 16), HexChar(x % 16)]
  }

  /** Two digits for every byte. */
  function PrintBytes(b: seq<Octet>): (s: string)
    ensures |s| == 2 * |b| && IsUpperHex(s)
  {
    if b == [] then []
    else PrintBytes(b[..|b| - 1]) + TwoDigits(b[|b| - 1])
  }

  /** BN_bn2hex. */
  function BnToHex(n: int): string {
    (if n < 0 then "-" else "") + (if n == 0 then "0" else PrintBytes(Bytes(if n < 0 then -n else n)))
  }

  /** The text do_body and do_revoke store in DB_serial. */
  function SerialText(n: int): string {
    if n == 0 then "00" else BnToHex(n)
  }

  /** The part of a serial text that is hashed and compared. */
  function Key(s: string): string {
    if s != [] && s[0] == '0' then Key(s[1..]) else s
  }

  function IndexSerialCmp(a: string, b: string): int {
    StrCmp(Key(a), Key(b))
  }

  function IndexSerialHash(hash: string -> int, a: string): int {
    hash(Key(a))
  }

  function UpperAll(s: string): (u: string)
    ensures |u| == |s| && forall i :: 0 <= i < |s| ==> u[i] == Upper(s[i])
  {
    seq(|s|, i requires 0 <= i < |s| => Upper(s[i]))
  }

  /** The text get_certificate_status looks up. */
  function StatusKey(query: string): string {
    UpperAll(if |query| % 2 == 1 then "0" + query else query)
  }

  /** get_certificate_status prepares its key in a fresh buffer, in place. */
  method MakeStatusKey(query: string) returns (row: string)
    requires NulFree(query)
    ensures row == StatusKey(query)
  {
    var buf := new char[|query| + 2](_ => NUL);
    ghost var text := query;
    if |query| % 2 == 1 {
      buf[0] := '0';
      text := "0" + query;
    }
    var off := |query| % 2;
    forall i | 0 <= i < |query| {
      buf[off + i] := query[i];
    }
    assert buf[..|text|] == text;
    row := UpperInPlace(buf, text);
  }

  method UpperInPlace(buf: array<char>, ghost text: string) returns (row: string)
    requires |text| < buf.Length && buf[..|text|] == text && buf[|text|] == NUL && NulFree(text)
    modifies buf
    ensures row == UpperAll(text)
  {
    assert forall k :: 0 <= k < |text| ==> buf[k] == text[k] && text[k] in text;
    var i := 0;
    while buf[i] != NUL
      invariant 0 <= i <= |text| && buf[|text|] == NUL
      invariant forall k :: 0 <= k < i ==> buf[k] == Upper(text[k])
      invariant forall k :: i <= k < |text| ==> buf[k] == text[k] != NUL
      decreases |text| - i
    {
      buf[i] := Upper(buf[i]);
      i := i + 1;
    }
    row := buf[..i];
  }

  // ---- numerals denote numbers ----

  lemma PrintOneMore(b: seq<Octet>, x: Octet)
    ensures PrintBytes(b + [x]) == PrintBytes(b) + TwoDigits(x)
  {
    assert (b + [x])[..|b|] == b;
  }

  lemma ValueOfTwo(p: string, t: string)
    requires IsHex(p) && IsHex(t) && |t| == 2
    ensures IsHex(p + t) && Value(p + t) == 256 * Value(p) + 16 * Nibble(t[0]) + Nibble(t[1])
  {
    assert (p + t)[..|p| + 1] == p + [t[0]] && (p + [t[0]])[..|p|] == p;
  }

  lemma {:induction false} PrintBytesValue(n: nat)
    ensures IsHex(PrintBytes(Bytes(n))) && Value(PrintBytes(Bytes(n))) == n
  {
    if n > 0 {
      PrintBytesValue(n / 256);
      assert Bytes(n) == Bytes(n / 256) + [n % 256];
      hide PrintBytes, Value, TwoDigits, Bytes;
      PrintOneMore(Bytes(n / 256), n % 256);
      ValueOfTwo(PrintBytes(Bytes(n / 256)), TwoDigits(n % 256));
    }
  }

  /** The stored text is an upper-case numeral of even length that denotes the number. */
  lemma SerialTextDenotes(n: nat)
    ensures IsUpperHex(SerialText(n)) && IsHex(SerialText(n)) && Value(SerialText(n)) == n
    ensures |SerialText(n)| % 2 == 0 && |SerialText(n)| >= 2
  {
    hide SerialText, PrintBytes, Bytes, Value;
    if n == 0 {
      ZeroTextDenotes();
    } else {
      NonzeroText(n);
      PrintBytesValue(n);
    }
  }

  lemma ZeroTextDenotes()
    ensures SerialText(0) == "00" && IsUpperHex("00") && IsHex("00") && Value("00") == 0
  {
    ValueOfZeroPrefix("");
    ValueOfZeroPrefix("0");
    assert "0" + "" == "0" && "0" + "0" == "00";
  }

  lemma NonzeroText(n: nat)
    requires n > 0
    ensures SerialText(n) == PrintBytes(Bytes(n)) && Bytes(n) != []
  {
    hide PrintBytes, Bytes;
    assert "" + PrintBytes(Bytes(n)) == PrintBytes(Bytes(n));
  }

  lemma {:induction false} ValueOfZeroPrefix(s: string)
    requires IsHex(s)
    ensures IsHex("0" + s) && Value("0" + s) == Value(s)
  {
    if s != [] {
      ValueOfZeroPrefix(s[..|s| - 1]);
      assert ("0" + s)[..|s|] == "0" + s[..|s| - 1];
    } else {
      assert ("0" + s)[..0] == "";
    }
  }

  lemma {:induction false} KeyValue(s: string)
    requires IsHex(s)
    ensures IsHex(Key(s)) && Value(Key(s)) == Value(s)
    ensures Key(s) != [] ==> Key(s)[0] != '0'
    ensures IsUpperHex(s) <==> IsUpperHex(Key(s))
  {
    if s != [] && s[0] == '0' {
      KeyValue(s[1..]);
      ValueOfZeroPrefix(s[1..]);
      assert s == "0" + s[1..];
    }
  }

  lemma {:induction false} LeadingDigitPositive(s: string)
    requires IsHex(s) && s != [] && s[0] != '0'
    ensures Value(s) > 0
  {
    if |s| == 1 {
      assert s[..0] == [];
    } else {
      LeadingDigitPositive(s[..|s| - 1]);
    }
  }

  /** Upper-case numerals without leading zeros are determined by their value. */
  lemma {:induction false} CanonicalUnique(a: string, b: string)
    requires IsHex(a) && IsHex(b) && IsUpperHex(a) && IsUpperHex(b)
    requires (a != [] ==> a[0] != '0') && (b != [] ==> b[0] != '0')
    requires Value(a) == Value(b)
    ensures a == b
  {
    if a == [] || b == [] {
      if a != [] { LeadingDigitPositive(a); }
      if b != [] { LeadingDigitPositive(b); }
    } else {
      var x, y := a[..|a| - 1], b[..|b| - 1];
      assert Nibble(a[|a| - 1]) == Nibble(b[|b| - 1]) && Value(x) == Value(y);
      CanonicalUnique(x, y);
      assert a == x + [a[|a| - 1]] && b == y + [b[|b| - 1]];
    }
  }

  // ---- the main results ----

  /** On upper-case numerals the index compares numbers, and equal items hash alike whatever the
      string hash is. */
  lemma IndexComparesNumbers(a: string, b: string, hash: string -> int)
    requires IsUpperHex(a) && IsUpperHex(b)
    ensures IndexSerialCmp(a, b) == 0 <==> Value(a) == Value(b)
    ensures IndexSerialCmp(a, b) == 0 ==> IndexSerialHash(hash, a) == IndexSerialHash(hash, b)
  {
    StrCmpZero(Key(a), Key(b));
    KeyValue(a);
    KeyValue(b);
    if Value(a) == Value(b) {
      CanonicalUnique(Key(a), Key(b));
    }
  }

  /** The index takes a text for the number it denotes exactly when it has no lower-case digits, which
      the load check accepts and only hand editing can put into the database. */
  lemma ComparesAsNumberIff(s: string)
    requires IsHex(s)
    ensures IndexSerialCmp(s, SerialText(Value(s))) == 0 <==> IsUpperHex(s)
  {
    var t := SerialText(Value(s));
    SerialTextDenotes(Value(s));
    KeyValue(s);
    KeyValue(t);
    StrCmpZero(Key(s), Key(t));
    if IsUpperHex(s) { CanonicalUnique(Key(s), Key(t)); }
  }

  /** A lower-case text and an upper-case text of the same number. */
  lemma LowerCaseIsAnotherNumber()
    ensures IsHex("0a") && IsHex("0A") && Value("0a") == Value("0A") && IndexSerialCmp("0a", "0A") != 0
  {
    assert "0a"[..1] == "0" && "0A"[..1] == "0";
    assert Key("0a") == "a" by { assert "0a"[1..] == "a"; }
    assert Key("0A") == "A" by { assert "0A"[1..] == "A"; }
  }

  lemma {:induction false} UpperValue(s: string)
    requires IsHex(s)
    ensures IsUpperHex(UpperAll(s)) && IsHex(UpperAll(s)) && Value(UpperAll(s)) == Value(s)
  {
    if s != [] {
      UpperValue(s[..|s| - 1]);
      assert UpperAll(s)[..|s| - 1] == UpperAll(s[..|s| - 1]);
    }
  }

  /** A status query, in any case and of any length, finds a row exactly when the row's serial is
      the queried number in upper case. */
  lemma QueryFindsItsNumber(query: string, serial: string)
    requires IsHex(query) && IsHex(serial)
    ensures IndexSerialCmp(StatusKey(query), serial) == 0 <==> Value(query) == Value(serial) && IsUpperHex(serial)
  {
    var padded := if |query| % 2 == 1 then "0" + query else query;
    ValueOfZeroPrefix(query);
    UpperValue(padded);
    var key := StatusKey(query);
    KeyValue(key);
    KeyValue(serial);
    StrCmpZero(Key(key), Key(serial));
    if IsUpperHex(serial) && Value(query) == Value(serial) { CanonicalUnique(Key(key), Key(serial)); }
  }

  /** It never finds a negative serial. */
  lemma QueryFindsNoNegative(query: string, digits: string)
    requires IsHex(query)
    ensures IndexSerialCmp(StatusKey(query), "-" + digits) != 0
  {
    var padded := if |query| % 2 == 1 then "0" + query else query;
    ValueOfZeroPrefix(query);
    UpperValue(padded);
    KeyValue(StatusKey(query));
    KeepsSign(digits);
    StrCmpZero(Key(StatusKey(query)), Key("-" + digits));
  }

  /** The stored text of any integer, negative ones included, finds exactly that integer's text. */
  lemma SerialTextInjective(m: int, n: int)
    ensures Key(SerialText(m)) == Key(SerialText(n)) <==> m == n
  {
    if m >= 0 && n >= 0 {
      NaturalTextInjective(m, n);
    } else if m < 0 && n < 0 {
      NegativeTextInjective(m, n);
    } else if m < 0 {
      SignsDiffer(m, n);
    } else {
      SignsDiffer(n, m);
    }
  }

  lemma NegativeTextInjective(m: int, n: int)
    requires m < 0 && n < 0
    ensures Key(SerialText(m)) == Key(SerialText(n)) <==> m == n
  {
    NegativeKey(m);
    NegativeKey(n);
  }

  lemma SignsDiffer(neg: int, pos: int)
    requires neg < 0 <= pos
    ensures Key(SerialText(neg)) != Key(SerialText(pos))
  {
    NegativeKey(neg);
    NaturalKey(pos);
  }

  lemma NegativeText(n: int)
    requires n < 0
    ensures SerialText(n) == "-" + PrintBytes(Bytes(-n)) && Bytes(-n) != []
  {
    hide PrintBytes, Bytes;
  }

  lemma NegativeKey(n: int)
    requires n < 0
    ensures var k := Key(SerialText(n)); k != [] && k[0] == '-' && IsHex(k[1..]) && Value(k[1..]) == -n
  {
    hide Key, PrintBytes, Bytes, SerialText, Value;
    NegativeText(n);
    PrintBytesValue(-n);
    KeepsSign(PrintBytes(Bytes(-n)));
  }

  lemma KeepsSign(digits: string)
    ensures Key("-" + digits) == "-" + digits && ("-" + digits)[1..] == digits
  {
  }

  lemma NaturalKey(n: int)
    requires n >= 0
    ensures Key(SerialText(n)) == [] || Key(SerialText(n))[0] != '-'
  {
    SerialTextDenotes(n);
    KeyValue(SerialText(n));
  }

  lemma NaturalTextInjective(m: nat, n: nat)
    ensures Key(SerialText(m)) == Key(SerialText(n)) <==> m == n
  {
    SerialTextDenotes(m);
    SerialTextDenotes(n);
    IndexComparesNumbers(SerialText(m), SerialText(n), _ => 0);
    StrCmpZero(Key(SerialText(m)), Key(SerialText(n)));
  }

  // ---- the certificate file name ----

  /** The conversion of an int to size_t. */
  function SizeT(x: int): nat {
    x % 0x1_0000_0000_0000_0000
  }

  predicate NameTooLong(dirlen: nat, j: nat) {
    dirlen >= SizeT(if j != 0 then BSIZE - j * 2 - 6 else BSIZE - 8)
  }

  /** A directory name that passes the length test leaves room for the file name and its
      terminator exactly when the serial has at most 125 bytes: beyond that the limit is negative
      and the conversion to size_t lets every directory name pass. */
  lemma LengthTestSound(j: nat)
    requires 0 < j < 0x4000_0000
    ensures (forall d: nat :: d < 0x1000_0000_0000_0000 && !NameTooLong(d, j) ==> d + 1 + 2 * j + 4 + 1 <= BSIZE)
            <==> j <= 125
  {
    if j > 125 {
      assert !NameTooLong(250, j);
    }
  }

  /** A serial number of 126 bytes in a directory with a name of 250 characters passes the test and
      needs 508 of 256 characters. */
  lemma LengthTestExample()
    ensures !NameTooLong(250, 126) && 250 + 1 + 2 * 126 + 4 + 1 > BSIZE
  {
    assert SizeT(BSIZE - 126 * 2 - 6) == 0x1_0000_0000_0000_0000 - 2;
  }

  /** `Overrun` is where the code writes behind the end of its buffer. */
  datatype FileName = TooLong | Overrun | Built(end: nat)

  function FileNameText(outdir: string, serial: seq<Octet>): string {
    outdir + "/" + (if serial == [] then "00" else PrintBytes(serial)) + ".pem"
  }

  /** The name is built in place in a buffer of BSIZE characters. Beyond 125 bytes every name that
      passes the length test overruns the buffer, and no other name does. */
  method CertFileName(outdir: string, serial: seq<Octet>, buf: array<char>) returns (r: FileName)
    requires buf.Length == BSIZE && NulFree(outdir)
    modifies buf
    ensures r.TooLong? <==> NameTooLong(|outdir|, |serial|)
    ensures r.Overrun? <==> !NameTooLong(|outdir|, |serial|) && |serial| > 125
    ensures r.Built? ==> r.end < BSIZE && buf[r.end] == NUL && buf[..r.end] == FileNameText(outdir, serial)
  {
    hide PrintBytes;
    var j := |serial|;
    if NameTooLong(|outdir|, j) {
      return TooLong;
    }
    if |outdir| >= BSIZE {
      return Overrun;
    }
    var n := CopyDir(outdir, buf);
    if j > 0 {
      n := AppendBytes(buf, n, serial);
    } else {
      buf[n], buf[n + 1] := '0', '0';
      n := n + 2;
    }
    if n + 4 >= BSIZE {
      return Overrun;
    }
    var end := AppendSuffix(buf, n);
    return Built(end);
  }

  /** strcpy of the directory; the slash is appended only if it fits. */
  method CopyDir(outdir: string, buf: array<char>) returns (n: nat)
    requires |outdir| < BSIZE == buf.Length
    modifies buf
    ensures n == if |outdir| + 1 < BSIZE then |outdir| + 1 else |outdir|
    ensures n == |outdir| + 1 ==> buf[..n] == outdir + "/"
  {
    forall i | 0 <= i < |outdir| {
      buf[i] := outdir[i];
    }
    n := |outdir|;
    if n + 1 < BSIZE {
      buf[n] := '/';
      n := n + 1;
    }
  }

  /** Each BIO_snprintf writes what fits in front of a terminator; the loop ends behind the buffer. */
  method AppendBytes(buf: array<char>, start: nat, serial: seq<Octet>) returns (n: nat)
    requires start < buf.Length
    modifies buf
    ensures n == start + 2 * |serial| || buf.Length <= n <= start + 2 * |serial|
    ensures n < buf.Length ==> buf[..n] == old(buf[..start]) + PrintBytes(serial)
  {
    hide PrintBytes, TwoDigits;
    n := start;
    NothingPrinted();
    for k := 0 to |serial|
      invariant n == start + 2 * k
      invariant n < buf.Length ==> buf[..n] == old(buf[..start]) + PrintBytes(serial[..k])
    {
      if n >= buf.Length {
        return;
      }
      PrintOneMore(serial[..k], serial[k]);
      assert serial[..k + 1] == serial[..k] + [serial[k]];
      var digits := TwoDigits(serial[k]);
      ghost var before := buf[..n];
      if n + 1 < buf.Length {
        buf[n] := digits[0];
      }
      if n + 2 < buf.Length {
        buf[n + 1] := digits[1];
        assert buf[..n + 2] == before + [digits[0], digits[1]] == before + digits;
      }
      n := n + 2;
    }
    assert serial[..|serial|] == serial;
  }

  lemma NothingPrinted()
    ensures PrintBytes([]) == []
  {
  }

  method AppendSuffix(buf: array<char>, n: nat) returns (end: nat)
    requires n + 4 < buf.Length
    modifies buf
    ensures end == n + 4 && buf[end] == NUL && buf[..end] == old(buf[..n]) + ".pem"
  {
    buf[n], buf[n + 1], buf[n + 2], buf[n + 3], buf[n + 4] := '.', 'p', 'e', 'm', NUL;
    end := n + 4;
  }

  /** The file is named after the row's serial text, so distinct serials never share a file. */
  lemma FileNameIsSerialText(m: nat, n: nat)
    ensures PrintBytes(IntegerBytes(n)) == SerialText(n)
    ensures PrintBytes(IntegerBytes(m)) == PrintBytes(IntegerBytes(n)) <==> m == n
  {
    IntegerBytesText(m);
    IntegerBytesText(n);
    NaturalTextInjective(m, n);
  }

  lemma IntegerBytesText(n: nat)
    ensures PrintBytes(IntegerBytes(n)) == SerialText(n)
  {
    if n == 0 {
      PrintOneMore([], 0);
      assert [] + [0] == [0];
    } else {
      NonzeroText(n);
    }
  }

  /** The digits and their values. */
  lemma DigitValues(n: nat)
    requires n < 16
    ensures HexChar(n) == "0123456789ABCDEF"[n]
    ensures Hex("0123456789abcdef"[n]) && Nibble("0123456789abcdef"[n]) == n
    ensures Hex("0123456789ABCDEF"[n]) && Nibble("0123456789ABCDEF"[n]) == n
  {
  }
}
