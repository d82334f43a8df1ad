/** set_hex and the %02X key printing of enc.c. Characters are bytes here, as in the C code. */
module SetHex {

  type Byte = bv8

  predicate IsHex(c: Byte) {
    0x30 <= c <= 0x39 || 0x41 <= c <= 0x46 || 0x61 <= c <= 0x66
  }

  predicate AllHex(text: seq<Byte>) {
    forall i :: 0 <= i < |text| ==> IsHex(text[i])
  }

  /** The number a hex digit stands for. */
  function Nibble(c: Byte): Byte
    requires IsHex(c)
  {
    if c <= 0x39 then c - 0x30 else if c <= 0x46 then c - 0x41 + 10 else c - 0x61 + 10
  }

  function HexDigit(n: Byte): (c: Byte)
    requires n < 16
    ensures IsHex(c) && Nibble(c) == n && c != 0
  {
    if n < 10 then n + 0x30 else n + 0x37
  }

  /** printf("%02X") of every byte in turn. */
  function PrintHex(bytes: seq<Byte>): (s: seq<Byte>)
    ensures |s| == 2 * |bytes|
  {
    if bytes == [] then []
    else PrintHex(bytes[..|bytes| - 1])
         + [HexDigit(bytes[|bytes| - 1] >> 4), HexDigit(bytes[|bytes| - 1] & 0x0f)]
  }

  /** Nibble `i` of the target: the digit at `i`, or zero past the end of the text. */
  function NibbleAt(text: seq<Byte>, i: nat): Byte
    requires AllHex(text)
  {
    if i < |text| then Nibble(text[i]) else 0
  }

  /** Byte `k` of the target: nibbles taken from the left, zero past the end of the text. */
  function Cell(text: seq<Byte>, k: nat): Byte
    requires AllHex(text)
  {
    (NibbleAt(text, 2 * k) << 4) | NibbleAt(text, 2 * k + 1)
  }

  ghost predicate Decodes(text: seq<Byte>, out: seq<Byte>)
    requires AllHex(text)
  {
    forall k :: 0 <= k < |out| ==> out[k] == Cell(text, k)
  }

  /** How one more digit changes the target bytes. */
  lemma NextDigit(text: seq<Byte>, c: Byte, k: nat)
    requires AllHex(text)
    requires IsHex(c)
    ensures AllHex(text + [c])
    ensures k != |text| / 2 ==> Cell(text + [c], k) == Cell(text, k)
    ensures k == |text| / 2 && |text| % 2 == 0 ==> Cell(text + [c], k) == Nibble(c) << 4
    ensures k == |text| / 2 && |text| % 2 == 1 ==> Cell(text + [c], k) == Cell(text, k) | Nibble(c)
  {
  }

  /** The text `s` with its first `k` characters overwritten by terminators. */
  function Wiped(s: seq<Byte>, k: nat): (w: seq<Byte>)
    requires k <= |s|
    ensures |w| == |s| && (forall i :: 0 <= i < k ==> w[i] == 0) && w[k..] == s[k..]
  {
    seq(k, _ => 0) + s[k..]
  }

  /** The length of the longest prefix of hex digits. */
  function HexPrefix(text: seq<Byte>): (n: nat)
    ensures n <= |text| && (forall i :: 0 <= i < n ==> IsHex(text[i])) && (n < |text| ==> !IsHex(text[n]))
  {
    if text == [] || !IsHex(text[0]) then 0 else 1 + HexPrefix(text[1..])
  }

  /** `inp` holds the text and its terminator. On success the whole text is wiped; a rejected text
      is wiped up to and including its first bad character; an over-long text is left alone. */
  method Decode(inp: array<Byte>, out: array<Byte>) returns (ok: bool)
    requires inp != out
    requires inp.Length > 0 && inp[inp.Length - 1] == 0 && 0 !in inp[..inp.Length - 1]
    modifies inp, out
    ensures var text := old(inp[..inp.Length - 1]); var good := HexPrefix(text);
            && (ok <==> |text| <= 2 * out.Length && good == |text|)
            && (ok ==> Decodes(text, out[..]))
            && (|text| > 2 * out.Length ==> out[..] == old(out[..]))
            && inp[..] == Wiped(old(inp[..]), if |text| > 2 * out.Length then 0 else if ok then |text| else good + 1)
  {
    ghost var whole, text := inp[..], inp[..inp.Length - 1];
    ghost var good := HexPrefix(text);
    var n := inp.Length - 1;
    if n > out.Length * 2 {
      assert Wiped(whole, 0) == whole;
      return false;
    }
    for k := 0 to out.Length
      invariant forall m :: 0 <= m < k ==> out[m] == 0
      invariant inp[..] == whole
    {
      out[k] := 0;
    }
    for i := 0 to n
      invariant i <= good
      invariant forall m :: 0 <= m < i ==> inp[m] == 0
      invariant inp[i..] == whole[i..]
      invariant forall k :: 0 <= k < out.Length ==> out[k] == Cell(text[..i], k)
    {
      assert inp[i] == inp[i..][0] == whole[i..][0] == text[i];
      var j := inp[i];
      inp[i] := 0;
      assert inp[i + 1..] == whole[i + 1..] by {
        assert inp[i + 1..] == old(inp[..])[i + 1..];
      }
      if !IsHex(j) {
        assert inp[..] == Wiped(whole, i + 1);
        return false;
      }
      PlaceDigit(text, i, j, out);
    }
    assert text[..n] == text;
    assert inp[..] == Wiped(whole, n);
    return true;
  }

  /** The body of the decoding loop: the high nibble overwrites, the low nibble is or-ed in. */
  method PlaceDigit(ghost text: seq<Byte>, i: nat, j: Byte, out: array<Byte>)
    requires i < |text| && i / 2 < out.Length && IsHex(j) && text[i] == j
    requires forall k :: 0 <= k <= i ==> IsHex(text[k])
    requires forall k :: 0 <= k < out.Length ==> out[k] == Cell(text[..i], k)
    modifies out
    ensures forall k :: 0 <= k < out.Length ==> out[k] == Cell(text[..i + 1], k)
  {
    assert text[..i + 1] == text[..i] + [j];
    forall k | 0 <= k < out.Length
      ensures Cell(text[..i + 1], k)
              == if k != i / 2 then out[k] else if i % 2 == 0 then Nibble(j) << 4 else out[k] | Nibble(j)
    {
      NextDigit(text[..i], j, k);
    }
    if i % 2 == 1 {
      out[i / 2] := out[i / 2] | Nibble(j);
    } else {
      out[i / 2] := Nibble(j) << 4;
    }
  }

  lemma SplitByte(b: Byte)
    ensures ((b >> 4) << 4) | (b & 0x0f) == b && b >> 4 < 16 && b & 0x0f < 16
  {
  }

  lemma {:induction false} PrintHexAt(bytes: seq<Byte>, k: nat)
    requires k < |bytes|
    ensures PrintHex(bytes)[2 * k] == HexDigit(bytes[k] >> 4)
    ensures PrintHex(bytes)[2 * k + 1] == HexDigit(bytes[k] & 0x0f)
    decreases |bytes|
  {
    var init := bytes[..|bytes| - 1];
    if k < |init| {
      PrintHexAt(init, k);
    }
  }

  lemma PrintHexIsHex(bytes: seq<Byte>)
    ensures AllHex(PrintHex(bytes))
  {
    forall i | 0 <= i < |PrintHex(bytes)|
      ensures IsHex(PrintHex(bytes)[i])
    {
      PrintHexAt(bytes, i / 2);
    }
  }

  /** The printing of a byte string decodes, in a target of its size, to that byte string only. */
  lemma DecodeUndoesPrint(bytes: seq<Byte>, out: seq<Byte>)
    requires |out| == |bytes|
    ensures AllHex(PrintHex(bytes))
    ensures Decodes(PrintHex(bytes), out) <==> out == bytes
  {
    PrintHexIsHex(bytes);
    forall k | 0 <= k < |bytes|
      ensures Cell(PrintHex(bytes), k) == bytes[k]
    {
      PrintHexAt(bytes, k);
      SplitByte(bytes[k]);
    }
  }

  /** The text 0aF decodes to 0a and f0, and the bytes 0a and f0 print as 0A and F0. */
  lemma HexExample()
    ensures AllHex([0x30, 0x61, 0x46]) && Cell([0x30, 0x61, 0x46], 0) == 0x0a && Cell([0x30, 0x61, 0x46], 1) == 0xf0
    ensures PrintHex([0x0a, 0xf0]) == [0x30, 0x41, 0x46, 0x30]
  {
    var b: seq<Byte> := [0x0a, 0xf0];
    assert b[..1] == [0x0a] && b[..1][..0] == [] && PrintHex([]) == [];
    assert PrintHex(b[..1]) == [0x30, 0x41];
  }
}
