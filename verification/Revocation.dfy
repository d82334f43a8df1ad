/** The revocation field of a database row: make_revocation_str, unpack_revinfo, make_revoked. */
module Revocation {
  import opened CStrings
  import opened Options
  import opened Asn1Time

  datatype RevType = RevNone | CrlReason | Hold | KeyCompromise | CaCompromise

  /** crl_reasons, the pseudo reasons last. */
  function Reason(i: nat): string
    requires i < 11
  {
    if i == 0 then "unspecified"
    else if i == 1 then "keyCompromise"
    else if i == 2 then "CACompromise"
    else if i == 3 then "affiliationChanged"
    else if i == 4 then "superseded"
    else if i == 5 then "cessationOfOperation"
    else if i == 6 then "certificateHold"
    else if i == 7 then "removeFromCRL"
    else if i == 8 then "holdInstruction"
    else if i == 9 then "keyTime"
    else "CAkeyTime"
  }

  /** The first of the first `n` reasons that equals the text up to case, or -1. */
  function FindReason(text: string, n: nat): (i: int)
    requires n <= 11
    ensures -1 <= i < n
    ensures i >= 0 ==> SameNoCase(text, Reason(i)) && forall k :: 0 <= k < i ==> !SameNoCase(text, Reason(k))
    ensures i < 0 ==> forall k :: 0 <= k < n ==> !SameNoCase(text, Reason(k))
  {
    if n == 0 then -1
    else
      var i := FindReason(text, n - 1);
      if i >= 0 then i else if SameNoCase(text, Reason(n - 1)) then n - 1 else -1
  }

  /** The reason and the extra argument of the field, when the argument is accepted. OBJ_txt2obj is
      the parameter `oid`. */
  function Parts(t: RevType, arg: string, oid: string -> bool): Option<(Option<string>, Option<string>)> {
    match t
    case RevNone => Some((None, None))
    case CrlReason => var i := FindReason(arg, 8); if i < 0 then None else Some((Some(Reason(i)), None))
    case Hold => if oid(arg) then Some((Some("holdInstruction"), Some(arg))) else None
    case KeyCompromise => if GeneralizedCheck(arg) then Some((Some("keyTime"), Some(arg))) else None
    case CaCompromise => if GeneralizedCheck(arg) then Some((Some("CAkeyTime"), Some(arg))) else None
  }

  function Join(now: string, reason: Option<string>, other: Option<string>): string {
    now + (if reason.Some? then "," + reason.value else "") + (if other.Some? then "," + other.value else "")
  }

  function Field(now: string, t: RevType, arg: string, oid: string -> bool): Option<string> {
    var p := Parts(t, arg, oid);
    if p.None? then None else Some(Join(now, p.value.0, p.value.1))
  }

  function StrLCpy(src: string, size: nat): (s: string)
    ensures |src| < size ==> s == src
  {
    if size == 0 then [] else if |src| < size then src else src[..size - 1]
  }

  /** BUF_strlcat: appends what still fits in front of the terminator. */
  function StrLCat(dst: string, src: string, size: nat): (s: string)
    ensures |dst| + |src| < size ==> s == dst + src
  {
    dst + StrLCpy(src, if |dst| < size then size - |dst| else 0)
  }

  method LookUpReason(text: string, n: nat) returns (i: int)
    requires n <= 11
    ensures i == FindReason(text, n)
  {
    for k := 0 to n
      invariant FindReason(text, k) == -1
    {
      if SameNoCase(text, Reason(k)) {
        FirstReason(text, k, n);
        return k;
      }
    }
    return -1;
  }

  method MakeRevocationStr(now: string, t: RevType, arg: string, oid: string -> bool) returns (str: Option<string>)
    ensures str == Field(now, t, arg, oid)
  {
    var reason: Option<string>, other: Option<string> := None, None;
    match t {
      case RevNone =>
      case CrlReason =>
        var i := LookUpReason(arg, 8);
        if i < 0 {
          return None;
        }
        reason := Some(Reason(i));
      case Hold =>
        if !oid(arg) {
          return None;
        }
        reason, other := Some("holdInstruction"), Some(arg);
      case KeyCompromise =>
        if !GeneralizedCheck(arg) {
          return None;
        }
        reason, other := Some("keyTime"), Some(arg);
      case CaCompromise =>
        if !GeneralizedCheck(arg) {
          return None;
        }
        reason, other := Some("CAkeyTime"), Some(arg);
    }
    var s, size := Concatenate(now, reason, other);
    str := Some(s);
  }

  /** The text always has exactly the length that was allocated for it, so nothing is cut off. */
  method Concatenate(now: string, reason: Option<string>, other: Option<string>) returns (s: string, size: nat)
    ensures s == Join(now, reason, other) && |s| + 1 == size
  {
    hide StrLCpy, StrLCat;
    size := |now| + 1;
    if reason.Some? {
      size := size + |reason.value| + 1;
    }
    if other.Some? {
      size := size + |other.value| + 1;
    }
    s := StrLCpy(now, size);
    assert s == now && now + "" == now;
    if reason.Some? {
      s := StrLCat(s, ",", size);
      s := StrLCat(s, reason.value, size);
      assert s == now + ("," + reason.value);
    }
    ghost var front := s;
    if other.Some? {
      s := StrLCat(s, ",", size);
      s := StrLCat(s, other.value, size);
      assert s == front + ("," + other.value);
    } else {
      assert front + "" == front;
    }
  }

  lemma {:induction false} FirstReason(text: string, i: nat, n: nat)
    requires i < n <= 11 && SameNoCase(text, Reason(i)) && FindReason(text, i) == -1
    ensures FindReason(text, n) == i
  {
    if n > i + 1 { FirstReason(text, i, n - 1); }
  }

  // ---- reading the field ----

  datatype RevInfo = RevInfo(time: string, reason: int, hold: Option<string>, compromised: Option<string>)

  function IndexOf(s: string, c: char): (i: nat)
    ensures i <= |s| && c !in s[..i] && (i < |s| ==> s[i] == c)
  {
    if s == [] || s[0] == c then 0
    else
      var i := 1 + IndexOf(s[1..], c);
      assert s[..i] == [s[0]] + s[1..][..i - 1];
      i
  }

  /** The text in front of the first comma, the text between the first two, and all the rest. */
  function Split(str: string): (string, Option<string>, Option<string>) {
    var i := IndexOf(str, ',');
    if i == |str| then (str, None, None)
    else
      var tail := str[i + 1..];
      var j := IndexOf(tail, ',');
      if j == |tail| then (str[..i], Some(tail), None) else (str[..i], Some(tail[..j]), Some(tail[j + 1..]))
  }

  const REV_NOSTATUS := -1

  /** The checks on the three parts, in the order of the code. */
  function Interpret(time: string, reason: Option<string>, arg: Option<string>, oid: string -> bool): Option<RevInfo> {
    if !UtcCheck(time) then None
    else if reason.None? then Some(RevInfo(time, REV_NOSTATUS, None, None))
    else
      var code := FindReason(reason.value, 11);
      if code < 0 then None
      else if code == 7 then Some(RevInfo(time, 8, None, None))
      else if code == 8 then
        if arg.None? || !oid(arg.value) then None else Some(RevInfo(time, 6, arg, None))
      else if code >= 9 then
        if arg.None? || !GeneralizedCheck(arg.value) then None
        else Some(RevInfo(time, if code == 9 then 1 else 2, None, arg))
      else Some(RevInfo(time, code, None, None))
  }

  function Unpack(str: string, oid: string -> bool): Option<RevInfo> {
    var p := Split(str);
    Interpret(p.0, p.1, p.2, oid)
  }

  // ---- the split in place ----

  method StrChr(buf: array<char>, p: nat, c: char, ghost n: nat) returns (r: int)
    requires p <= n < buf.Length && c != NUL
    requires buf[n] == NUL && forall k :: p <= k < n ==> buf[k] != NUL
    ensures r == if IndexOf(buf[p..n], c) == n - p then -1 else p + IndexOf(buf[p..n], c)
  {
    var q := p;
    ghost var whole := buf[p..n];
    while buf[q] != NUL
      invariant p <= q <= n && IndexOf(whole, c) == q - p + IndexOf(buf[q..n], c)
      decreases n - q
    {
      assert buf[q..n] == [buf[q]] + buf[q + 1..n];
      if buf[q] == c {
        return q;
      }
      q := q + 1;
    }
    return -1;
  }

  /** The buffer after the commas found have been overwritten. */
  ghost predicate Parted(tmp: seq<char>, str: string, reason: int, arg: int) {
    var whole, i := str + [NUL], IndexOf(str, ',');
    if i == |str| then reason == arg == -1 && tmp == whole
    else
      var j := IndexOf(str[i + 1..], ',');
      reason == i + 1
      && if j == |str| - i - 1 then arg == -1 && tmp == whole[i := NUL]
         else arg == i + j + 2 && tmp == whole[i := NUL][i + j + 1 := NUL]
  }

  method SplitInPlace(tmp: array<char>, ghost str: string) returns (reason: int, arg: int)
    requires NulFree(str) && tmp[..] == str + [NUL]
    modifies tmp
    ensures Parted(tmp[..], str, reason, arg)
  {
    hide IndexOf;
    reason, arg := -1, -1;
    assert tmp[0..|str|] == str && forall k :: 0 <= k < |str| ==> tmp[k] == str[k] && str[k] in str;
    var p := Cut(tmp, 0, |str|);
    if p != -1 {
      reason := p + 1;
      assert tmp[..] == (str + [NUL])[p := NUL];
      assert forall k :: reason <= k <= |str| ==> tmp[k] == (str + [NUL])[k];
      assert tmp[reason..|str|] == str[reason..];
      p := Cut(tmp, reason, |str|);
      if p != -1 {
        arg := p + 1;
      }
    }
  }

  /** strchr, and the terminator put in the place of the comma. */
  method Cut(buf: array<char>, p: nat, ghost n: nat) returns (q: int)
    requires p <= n < buf.Length && buf[n] == NUL && forall k :: p <= k < n ==> buf[k] != NUL
    modifies buf
    ensures var i := IndexOf(old(buf[p..n]), ',');
            if i == n - p then q == -1 && buf[..] == old(buf[..]) else q == p + i && buf[..] == old(buf[..])[q := NUL]
  {
    q := StrChr(buf, p, ',', n);
    if q != -1 {
      buf[q] := NUL;
    }
  }

  /** The commas are overwritten by terminators and the parts are read through pointers. */
  method UnpackRevInfo(str: string, oid: string -> bool) returns (r: Option<RevInfo>)
    requires NulFree(str)
    ensures r == Unpack(str, oid)
  {
    var tmp := new char[|str| + 1](i requires 0 <= i => if i < |str| then str[i] else NUL);
    assert tmp[..] == str + [NUL];
    var reason, arg := SplitInPlace(tmp, str);
    PointersDenoteParts(tmp[..], str, reason, arg);
    r := Interpret(CStr(tmp[..], 0),
                   if reason == -1 then None else Some(CStr(tmp[..], reason)),
                   if arg == -1 then None else Some(CStr(tmp[..], arg)), oid);
  }

  lemma PointersDenoteParts(tmp: seq<char>, str: string, reason: int, arg: int)
    requires NulFree(str) && Parted(tmp, str, reason, arg)
    ensures reason >= -1 && arg >= -1
    ensures CStr(tmp, 0) == Split(str).0
    ensures (if reason == -1 then None else Some(CStr(tmp, reason))) == Split(str).1
    ensures (if arg == -1 then None else Some(CStr(tmp, arg))) == Split(str).2
  {
    hide CStr, IndexOf;
    var n, i := |str|, IndexOf(str, ',');
    if i == n {
      FirstPart(tmp, str, n);
      assert str[..n] == str;
    } else {
      FirstPart(tmp, str, i);
      TailParts(tmp, str, i, IndexOf(str[i + 1..], ','));
    }
  }

  lemma FirstPart(tmp: seq<char>, str: string, i: nat)
    requires NulFree(str) && i <= |str| < |tmp| && tmp[..i] == str[..i] && tmp[i] == NUL
    ensures CStr(tmp, 0) == str[..i]
  {
    assert tmp[0..i] == tmp[..i];
    CStrIs(tmp, 0, i);
  }

  lemma TailParts(tmp: seq<char>, str: string, i: nat, j: nat)
    requires NulFree(str) && i < |str| && j <= |str| - i - 1
    requires tmp == if j == |str| - i - 1 then (str + [NUL])[i := NUL] else (str + [NUL])[i := NUL][i + j + 1 := NUL]
    ensures j == |str| - i - 1 ==> CStr(tmp, i + 1) == str[i + 1..]
    ensures j < |str| - i - 1 ==> CStr(tmp, i + 1) == str[i + 1..][..j] && CStr(tmp, i + j + 2) == str[i + 1..][j + 1..]
  {
    hide CStr;
    var n := |str|;
    if j == n - i - 1 {
      assert tmp[i + 1..n] == str[i + 1..];
      CStrIs(tmp, i + 1, n);
    } else {
      assert tmp[i + 1..i + j + 1] == str[i + 1..][..j];
      CStrIs(tmp, i + 1, i + j + 1);
      assert tmp[i + j + 2..n] == str[i + 1..][j + 1..];
      CStrIs(tmp, i + j + 2, n);
    }
  }

  // ---- round trip ----

  lemma {:induction false} IndexOfFirst(a: string, c: char, b: string)
    requires c !in a
    ensures IndexOf(a + [c] + b, c) == |a|
  {
    if a != [] {
      assert (a + [c] + b)[1..] == a[1..] + [c] + b;
      IndexOfFirst(a[1..], c, b);
    }
  }

  lemma {:induction false} IndexOfNone(a: string, c: char)
    requires c !in a
    ensures IndexOf(a, c) == |a|
  {
    if a != [] { IndexOfNone(a[1..], c); }
  }

  /** The parts come back verbatim; only the last one may contain commas. */
  lemma SplitJoin(now: string, reason: Option<string>, other: Option<string>)
    requires ',' !in now && (reason.Some? ==> ',' !in reason.value) && (other.Some? ==> reason.Some?)
    ensures Split(Join(now, reason, other)) == (now, reason, other)
  {
    var str := Join(now, reason, other);
    if reason.None? {
      assert str == now;
      IndexOfNone(now, ',');
    } else {
      var tail := reason.value + (if other.Some? then "," + other.value else "");
      assert str == now + [','] + tail;
      IndexOfFirst(now, ',', tail);
      assert str[|now| + 1..] == tail && str[..|now|] == now;
      if other.None? {
        assert tail == reason.value;
        IndexOfNone(tail, ',');
      } else {
        assert tail == reason.value + [','] + other.value;
        IndexOfFirst(reason.value, ',', other.value);
        assert tail[|reason.value| + 1..] == other.value && tail[..|reason.value|] == reason.value;
      }
    }
  }

  /** The CRLReason values of section 5.3.1 of RFC 5280; 7 is not used. */
  function Rfc5280Code(reason: string): int {
    if reason == "unspecified" then 0
    else if reason == "keyCompromise" then 1
    else if reason == "CACompromise" then 2
    else if reason == "affiliationChanged" then 3
    else if reason == "superseded" then 4
    else if reason == "cessationOfOperation" then 5
    else if reason == "certificateHold" then 6
    else if reason == "removeFromCRL" then 8
    else -1
  }

  /** What a revocation with these arguments means. */
  function Meaning(now: string, t: RevType, arg: string): RevInfo
    requires t == CrlReason ==> FindReason(arg, 8) >= 0
  {
    match t
    case RevNone => RevInfo(now, REV_NOSTATUS, None, None)
    case CrlReason => RevInfo(now, Rfc5280Code(Reason(FindReason(arg, 8))), None, None)
    case Hold => RevInfo(now, 6, Some(arg), None)
    case KeyCompromise => RevInfo(now, 1, None, Some(arg))
    case CaCompromise => RevInfo(now, 2, None, Some(arg))
  }

  /** Length and first letter tell the reasons apart. */
  function Shape(i: nat): (int, char) {
    if i == 0 then (11, 'u') else if i == 1 then (13, 'k') else if i == 2 then (12, 'c')
    else if i == 3 then (18, 'a') else if i == 4 then (10, 's') else if i == 5 then (20, 'c')
    else if i == 6 then (15, 'c') else if i == 7 then (13, 'r') else if i == 8 then (15, 'h')
    else if i == 9 then (7, 'k') else (9, 'c')
  }

  lemma ReasonShape(i: nat)
    requires i < 11
    ensures Reason(i) != "" && (|Reason(i)|, Lower(Reason(i)[0])) == Shape(i) && ',' !in Reason(i)
  {
  }

  lemma ReasonFindsItself(i: nat)
    requires i < 11
    ensures FindReason(Reason(i), 11) == i && ',' !in Reason(i)
  {
    var k := FindReason(Reason(i), 11);
    ReasonShape(i);
    assert SameNoCase(Reason(i), Reason(i));
    assert k >= 0;
    ReasonShape(k);
    assert Shape(i) == Shape(k);
  }

  /** Whenever the arguments are accepted, the field reads back exactly as what they mean, if and
      only if the clock text is a UTCTime (X509_gmtime_adj yields one until 2049). */
  lemma FieldRoundTripIff(now: string, t: RevType, arg: string, oid: string -> bool)
    requires ',' !in now && Field(now, t, arg, oid).Some?
    ensures t == CrlReason ==> FindReason(arg, 8) >= 0
    ensures Unpack(Field(now, t, arg, oid).value, oid) == (if UtcCheck(now) then Some(Meaning(now, t, arg)) else None)
    ensures Meaning(now, t, arg).reason in {-1, 0, 1, 2, 3, 4, 5, 6, 8}
  {
    var parts := Parts(t, arg, oid).value;
    PartsName(t, arg, oid);
    if t != RevNone { ReasonFindsItself(NameOf(t, arg)); }
    SplitJoin(now, parts.0, parts.1);
    InterpretParts(now, t, arg, oid);
  }

  /** From 2050 on the clock prints as GeneralizedTime, and every field made is rejected. */
  lemma LateClockExample(oid: string -> bool)
    ensures var now := "20500101000000Z";
            && Field(now, CrlReason, "superseded", oid).Some?
            && Unpack(Field(now, CrlReason, "superseded", oid).value, oid) == None
  {
    var now := "20500101000000Z";
    ReasonFindsItself(4);
    assert !UtcCheck(now);
    FieldRoundTripIff(now, CrlReason, "superseded", oid);
  }

  /** The table entry whose name is written. */
  function NameOf(t: RevType, arg: string): nat
    requires t == CrlReason ==> FindReason(arg, 8) >= 0
    requires t != RevNone
  {
    match t
    case CrlReason => FindReason(arg, 8)
    case Hold => 8
    case KeyCompromise => 9
    case _ => 10
  }

  lemma PartsName(t: RevType, arg: string, oid: string -> bool)
    requires Parts(t, arg, oid).Some?
    ensures t == CrlReason ==> FindReason(arg, 8) >= 0
    ensures var p := Parts(t, arg, oid).value;
            if t == RevNone then p == (None, None)
            else p == (Some(Reason(NameOf(t, arg))), if t == CrlReason then None else Some(arg))
  {}

  lemma AcceptedArgument(t: RevType, arg: string, oid: string -> bool)
    requires Parts(t, arg, oid).Some?
    ensures t == Hold ==> oid(arg)
    ensures t == KeyCompromise || t == CaCompromise ==> GeneralizedCheck(arg)
  {}

  lemma InterpretParts(now: string, t: RevType, arg: string, oid: string -> bool)
    requires Parts(t, arg, oid).Some?
    ensures var p := Parts(t, arg, oid).value;
            Interpret(now, p.0, p.1, oid) == (if UtcCheck(now) then Some(Meaning(now, t, arg)) else None)
  {
    PartsName(t, arg, oid);
    AcceptedArgument(t, arg, oid);
    hide Reason, FindReason, Parts;
    if t == CrlReason {
      ReasonFindsItself(FindReason(arg, 8));
      PlainReason(now, FindReason(arg, 8), oid);
    } else if t != RevNone {
      ReasonFindsItself(NameOf(t, arg));
    }
  }

  lemma PlainReason(now: string, i: nat, oid: string -> bool)
    requires i < 8 && FindReason(Reason(i), 11) == i
    ensures Interpret(now, Some(Reason(i)), None, oid)
            == if UtcCheck(now) then Some(RevInfo(now, Rfc5280Code(Reason(i)), None, None)) else None
  {
    ReasonCode(i);
  }

  lemma ReasonCode(i: nat)
    requires i < 8
    ensures Rfc5280Code(Reason(i)) == if i == 7 then 8 else i
  {
  }

  // ---- the text of the field, and what else is read ----

  /** The reasons that -crl_reason takes. */
  const NAMES: seq<string> := [
    "unspecified", "keyCompromise", "CACompromise", "affiliationChanged",
    "superseded", "cessationOfOperation", "certificateHold", "removeFromCRL"
  ]

  lemma NamesAreReasons(i: nat)
    requires i < 8
    ensures NAMES[i] == Reason(i)
  {
  }

  lemma SameReason(text: string, i: nat, k: nat)
    requires i < 11 && k < 11 && SameNoCase(text, Reason(i)) && SameNoCase(text, Reason(k))
    ensures i == k
  {
    ReasonShape(i);
    ReasonShape(k);
    hide Reason;
    assert Lower(text[0]) == Lower(Reason(i)[0]) == Lower(Reason(k)[0]);
    assert Shape(i) == Shape(k);
  }

  lemma FoundReason(text: string, i: nat, n: nat)
    requires i < n <= 11 && SameNoCase(text, Reason(i))
    ensures FindReason(text, n) == i
  {
    hide Reason, SameNoCase;
    var k := FindReason(text, n);
    assert k >= 0;
    SameReason(text, i, k);
  }

  /** A reason is accepted exactly when it is one of the eight names in any case, and the field has the
      name in the spelling of the table. */
  lemma ReasonText(now: string, arg: string, oid: string -> bool, i: nat)
    requires i < 8
    ensures SameNoCase(arg, NAMES[i]) ==> Field(now, CrlReason, arg, oid) == Some(now + "," + NAMES[i])
    ensures (forall k :: 0 <= k < 8 ==> !SameNoCase(arg, NAMES[k])) ==> Field(now, CrlReason, arg, oid) == None
  {
    NamesAreReasons(i);
    if SameNoCase(arg, NAMES[i]) {
      FoundReason(arg, i, 8);
      assert now + ("," + Reason(i)) + "" == now + "," + Reason(i);
    }
    var k := FindReason(arg, 8);
    if k >= 0 { NamesAreReasons(k); }
    hide Reason, SameNoCase, NAMES;
  }

  /** The other fields: nothing but the time, or a pseudo reason and the argument. */
  lemma FieldText(now: string, arg: string, oid: string -> bool)
    ensures Field(now, RevNone, arg, oid) == Some(now)
    ensures Field(now, Hold, arg, oid) == if oid(arg) then Some(now + ",holdInstruction," + arg) else None
    ensures Field(now, KeyCompromise, arg, oid) ==
            if GeneralizedCheck(arg) then Some(now + ",keyTime," + arg) else None
    ensures Field(now, CaCompromise, arg, oid) ==
            if GeneralizedCheck(arg) then Some(now + ",CAkeyTime," + arg) else None
  {
    hide GeneralizedCheck;
    Texts(now, "holdInstruction", arg);
    Texts(now, "keyTime", arg);
    Texts(now, "CAkeyTime", arg);
    assert ",holdInstruction," == "," + "holdInstruction" + ",";
    assert ",keyTime," == "," + "keyTime" + "," && ",CAkeyTime," == "," + "CAkeyTime" + ",";
  }

  lemma Texts(now: string, reason: string, arg: string)
    ensures Join(now, Some(reason), Some(arg)) == now + ("," + reason + ",") + arg && Join(now, None, None) == now
  {
  }

  lemma NoComma(text: string, i: nat)
    requires i < 11 && SameNoCase(text, Reason(i))
    ensures ',' !in text
  {
    ReasonShape(i);
    hide Reason;
    forall j | 0 <= j < |text|
      ensures text[j] != ','
    {
      assert Reason(i)[j] in Reason(i) && Lower(text[j]) == Lower(Reason(i)[j]);
    }
  }

  /** Reading, too, takes the reasons in any case. A plain one may have an argument, which is ignored; the
      pseudo reasons need an accepted one. */
  lemma AnyCaseReads(now: string, text: string, other: Option<string>, oid: string -> bool, i: nat)
    requires UtcCheck(now) && i < 11 && SameNoCase(text, Reason(i))
    ensures Unpack(Join(now, Some(text), other), oid) ==
            if i < 8 then Some(RevInfo(now, Rfc5280Code(Reason(i)), None, None))
            else if i == 8 then
              (if other.Some? && oid(other.value) then Some(RevInfo(now, 6, other, None)) else None)
            else if other.Some? && GeneralizedCheck(other.value) then
              Some(RevInfo(now, if i == 9 then 1 else 2, None, other))
            else None
  {
    assert ',' !in now by { AcceptedChars(now); }
    NoComma(text, i);
    SplitJoin(now, Some(text), other);
    FoundReason(text, i, 11);
    if i < 8 { ReasonCode(i); }
    hide Reason, SameNoCase, UtcCheck, GeneralizedCheck, Rfc5280Code, Join;
  }

  /** And a field without a reason has none. */
  lemma BareTimeReads(now: string, oid: string -> bool)
    ensures ',' !in now ==>
              Unpack(now, oid) == if UtcCheck(now) then Some(RevInfo(now, REV_NOSTATUS, None, None)) else None
  {
    hide UtcCheck;
    if ',' !in now { SplitJoin(now, None, None); }
  }
}
