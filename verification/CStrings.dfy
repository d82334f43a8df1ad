/** The C string functions the tools call, on the text before the terminator.
    A string never contains the terminator itself; `CStr` is what a pointer into a
    buffer denotes. */
module CStrings {

  const NUL: char := '\0'

  // The size of the buffers in which file names are built.
  const BSIZE := 256

  ghost predicate NulFree(s: string) {
    NUL !in s
  }

  /** strcmp: only the sign of the result is meaningful. */
  function StrCmp(a: string, b: string): int {
    if a == [] && b == [] then 0
    else if a == [] then -1
    else if b == [] then 1
    else if a[0] != b[0] then (if a[0] < b[0] then -1 else 1)
    else StrCmp(a[1..], b[1..])
  }

  /** strncmp. */
  function StrNCmp(a: string, b: string, n: nat): int {
    StrCmp(if n < |a| then a[..n] else a, if n < |b| then b[..n] else b)
  }

  lemma {:induction false} StrCmpZero(a: string, b: string)
    ensures StrCmp(a, b) == 0 <==> a == b
  {
    if a != [] && b != [] && a[0] == b[0] {
      StrCmpZero(a[1..], b[1..]);
      assert a == [a[0]] + a[1..] && b == [b[0]] + b[1..];
    }
  }

  function Lower(c: char): char {
    if 'A' <= c <= 'Z' then c - 'A' + 'a' else c
  }

  /** toupper in the C locale. */
  function Upper(c: char): char {
    if 'a' <= c <= 'z' then c - 'a' + 'A' else c
  }

  /** strcasecmp(a, b) == 0. */
  predicate SameNoCase(a: string, b: string) {
    |a| == |b| && forall i :: 0 <= i < |a| ==> Lower(a[i]) == Lower(b[i])
  }

  /** The string a pointer to index `p` of a buffer denotes. */
  function CStr(buf: seq<char>, p: nat): string
    decreases |buf| - p
  {
    if p >= |buf| || buf[p] == NUL then [] else [buf[p]] + CStr(buf, p + 1)
  }

  lemma {:induction false} CStrIs(buf: seq<char>, p: nat, e: nat)
    requires p <= e < |buf| && buf[e] == NUL && NUL !in buf[p..e]
    ensures CStr(buf, p) == buf[p..e]
    decreases e - p
  {
    if p < e {
      assert buf[p] in buf[p..e];
      assert buf[p..e] == [buf[p]] + buf[p + 1..e];
      CStrIs(buf, p + 1, e);
    }
  }

  /** Strings packed one behind the other, each with its terminator. */
  function Flat(ss: seq<string>): string {
    if ss == [] then [] else Flat(ss[..|ss| - 1]) + ss[|ss| - 1] + [NUL]
  }

  /** Where the `k`-th packed string starts. */
  function Offset(ss: seq<string>, k: nat): nat
    requires k <= |ss|
  {
    |Flat(ss[..k])|
  }

  lemma FlatSnoc(ss: seq<string>, s: string)
    ensures Flat(ss + [s]) == Flat(ss) + s + [NUL]
  {
    assert (ss + [s])[..|ss|] == ss;
  }

  lemma {:induction false} FlatPrefix(ss: seq<string>, k: nat)
    requires k <= |ss|
    ensures Offset(ss, k) <= |Flat(ss)| && Flat(ss)[..Offset(ss, k)] == Flat(ss[..k])
  {
    if k < |ss| {
      var init := ss[..|ss| - 1];
      FlatPrefix(init, k);
      assert init[..k] == ss[..k];
    } else {
      assert ss[..k] == ss;
    }
  }

  lemma InMiddle(a: string, s: string, buf: string)
    requires a + s + [NUL] <= buf
    ensures buf[|a|..|a| + |s|] == s && buf[|a| + |s|] == NUL
  {
    var f := a + s + [NUL];
    assert buf[..|f|] == f;
    assert f[|a|..|a| + |s|] == s && f[|a| + |s|] == NUL;
    assert buf[|a|..|a| + |s|] == buf[..|f|][|a|..|a| + |s|];
  }

  /** A pointer to the start of a packed string denotes that string. */
  lemma PackedString(buf: seq<char>, ss: seq<string>, k: nat)
    requires k < |ss| && NulFree(ss[k]) && Flat(ss) <= buf
    ensures CStr(buf, Offset(ss, k)) == ss[k]
  {
    var p, e := Offset(ss, k), Offset(ss, k) + |ss[k]|;
    assert Flat(ss[..k + 1]) == Flat(ss[..k]) + ss[k] + [NUL] by {
      FlatSnoc(ss[..k], ss[k]);
      assert ss[..k + 1] == ss[..k] + [ss[k]];
    }
    FlatPrefix(ss, k + 1);
    hide Flat;
    InMiddle(Flat(ss[..k]), ss[k], buf);
    CStrIs(buf, p, e);
  }

  /** Pointers to packed strings. */
  ghost predicate PointTo(pp: seq<nat>, ss: seq<string>) {
    |pp| == |ss| && forall k :: 0 <= k < |ss| ==> pp[k] == Offset(ss, k)
  }

  /** The last string may still grow. */
  lemma PointToCurrent(pp: seq<nat>, done: seq<string>, a: string, b: string)
    requires PointTo(pp, done + [a])
    ensures PointTo(pp, done + [b])
  {
    forall k | 0 <= k <= |done|
      ensures Offset(done + [a], k) == Offset(done + [b], k)
    {
      assert (done + [a])[..k] == (done + [b])[..k];
    }
  }

  /** A finished string is followed by the next one. */
  lemma PointToNext(pp: seq<nat>, done: seq<string>, next: string)
    requires PointTo(pp, done)
    ensures PointTo(pp + [|Flat(done)|], done + [next])
  {
    forall k | 0 <= k <= |done|
      ensures (pp + [|Flat(done)|])[k] == Offset(done + [next], k)
    {
      assert (done + [next])[..k] == done[..k];
      assert k == |done| ==> done[..k] == done;
    }
  }

  /** *(p++) = c */
  method Put(buf: array<char>, p: nat, c: char) returns (q: nat)
    requires p < buf.Length
    modifies buf
    ensures q == p + 1 && buf[..q] == old(buf[..p]) + [c] && buf[q..] == old(buf[q..])
  {
    buf[p] := c;
    q := p + 1;
  }

  /** What is packed first is not moved by what follows. */
  lemma OffsetStable(ss: seq<string>, tt: seq<string>, k: nat)
    requires k <= |ss|
    ensures Offset(ss + tt, k) == Offset(ss, k)
  {
    assert (ss + tt)[..k] == ss[..k];
  }
}
