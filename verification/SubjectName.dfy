/** parse_name: the escaped subject grammar /type0=value0/type1=value1+type2=value2..., copied without
    escapes into one packed buffer. */
module SubjectName {
  import opened CStrings
  import opened Options

  /** `joined` marks an element that belongs to the same RDN as the one before it. */
  datatype Element = Element(typ: string, value: string, joined: bool)

  datatype Sep = End | Slash | Plus

  /** The collected text and what is left of the input. */
  datatype TypePart = TypePart(text: string, rest: string)
  datatype ValuePart = ValuePart(text: string, sep: Sep, rest: string)

  /** More text was collected in front. */
  function TypeAfter(t: string, r: Option<TypePart>): Option<TypePart> {
    if r.None? then None else Some(TypePart(t + r.value.text, r.value.rest))
  }

  function ValueAfter(t: string, r: Option<ValuePart>): Option<ValuePart> {
    if r.None? then None else Some(r.value.(text := t + r.value.text))
  }

  lemma TypeAfterTwice(t: string, u: string, r: Option<TypePart>)
    ensures TypeAfter(t, TypeAfter(u, r)) == TypeAfter(t + u, r) && TypeAfter([], r) == r
  {
    if r.Some? { assert t + (u + r.value.text) == (t + u) + r.value.text && [] + r.value.text == r.value.text; }
  }

  lemma ValueAfterTwice(t: string, u: string, r: Option<ValuePart>)
    ensures ValueAfter(t, ValueAfter(u, r)) == ValueAfter(t + u, r) && ValueAfter([], r) == r
  {
    if r.Some? { assert t + (u + r.value.text) == (t + u) + r.value.text && [] + r.value.text == r.value.text; }
  }

  /** The type loop: up to an unescaped '=' or the end; None for an escape at the end. */
  function TypeOf(s: string): (r: Option<TypePart>)
    ensures r.Some? ==> |r.value.rest| <= |s| && (s != [] ==> |r.value.rest| < |s|)
    ensures r.Some? && r.value.rest != [] ==> |r.value.text| + 1 + |r.value.rest| <= |s|
    ensures NulFree(s) && r.Some? ==> NulFree(r.value.text) && NulFree(r.value.rest)
    decreases |s|
  {
    if s == [] then Some(TypePart([], []))
    else if s[0] == '\\' then
      if |s| == 1 then None else TypeAfter([s[1]], TypeOf(s[2..]))
    else if s[0] == '=' then Some(TypePart([], s[1..]))
    else TypeAfter([s[0]], TypeOf(s[1..]))
  }

  /** The value loop: up to an unescaped '/', with multi-valued RDNs an unescaped '+', or the end. */
  function ValueOf(s: string, multi: bool): (r: Option<ValuePart>)
    ensures r.Some? ==> |r.value.rest| <= |s|
    ensures r.Some? ==> |r.value.text| + |r.value.rest| + (if r.value.sep == End then 0 else 1) <= |s|
    ensures r.Some? && r.value.sep == End ==> r.value.rest == []
    ensures r.Some? && r.value.sep == Plus ==> multi
    ensures NulFree(s) && r.Some? ==> NulFree(r.value.text) && NulFree(r.value.rest)
    decreases |s|
  {
    if s == [] then Some(ValuePart([], End, []))
    else if s[0] == '\\' then
      if |s| == 1 then None else ValueAfter([s[1]], ValueOf(s[2..], multi))
    else if s[0] == '/' then Some(ValuePart([], Slash, s[1..]))
    else if s[0] == '+' && multi then Some(ValuePart([], Plus, s[1..]))
    else ValueAfter([s[0]], ValueOf(s[1..], multi))
  }

  /** The element loop; an element whose type is not followed by anything is an error. */
  function Elements(s: string, multi: bool, joined: bool): Option<seq<Element>>
    decreases |s|
  {
    if s == [] then Some([])
    else
      var t := TypeOf(s);
      if t.None? || t.value.rest == [] then None
      else
        var v := ValueOf(t.value.rest, multi);
        if v.None? then None
        else
          var more := Elements(v.value.rest, multi, v.value.sep == Plus);
          if more.None? then None else Some([Element(t.value.text, v.value.text, joined)] + more.value)
  }

  function Parse(subject: string, multi: bool): Option<seq<Element>> {
    if subject == [] || subject[0] != '/' then None else Elements(subject[1..], multi, false)
  }

  // ---- printing ----

  predicate TypeSpecial(c: char) { c == '\\' || c == '=' }

  predicate ValueSpecial(c: char) { c == '\\' || c == '/' || c == '+' }

  /** Which characters have to be escaped in types and in values; any others may be. */
  ghost predicate Enough(ts: char -> bool, vs: char -> bool, multi: bool) {
    && ts('\\') && ts('=')
    && vs('\\') && vs('/') && (multi ==> vs('+'))
  }

  function Escape1(c: char, special: char -> bool): string {
    if special(c) then ['\\', c] else [c]
  }

  function Escape(s: string, special: char -> bool): string {
    if s == [] then [] else Escape1(s[0], special) + Escape(s[1..], special)
  }

  /** One element, and the separator that announces the next one. */
  function SpellElement(e: Element, ts: char -> bool, vs: char -> bool): string {
    Escape(e.typ, ts) + ['='] + Escape(e.value, vs)
  }

  function SpellElements(es: seq<Element>, ts: char -> bool, vs: char -> bool): string {
    if es == [] then []
    else SpellElement(es[0], ts, vs)
         + (if |es| == 1 then [] else [if es[1].joined then '+' else '/'] + SpellElements(es[1..], ts, vs))
  }

  /** The elements with the characters in `ts` and `vs` escaped. */
  function Spell(es: seq<Element>, ts: char -> bool, vs: char -> bool): string { ['/'] + SpellElements(es, ts, vs) }

  /** Only the special characters are escaped. */
  function Print(es: seq<Element>): string { Spell(es, TypeSpecial, ValueSpecial) }

  // ---- round trip ----

  lemma Assoc(a: string, b: string, c: string)
    ensures (a + b) + c == a + (b + c)
  {
  }

  lemma TypeStep(c: char, tail: string, ts: char -> bool)
    requires TypeOf(tail).Some? && ts('\\') && ts('=')
    ensures TypeOf(Escape1(c, ts) + tail) == Some(TypePart([c] + TypeOf(tail).value.text, TypeOf(tail).value.rest))
  {
    var s := Escape1(c, ts) + tail;
    assert if ts(c) then s[2..] == tail else s[1..] == tail;
  }

  lemma {:induction false} TypeOfEscaped(t: string, rest: string, ts: char -> bool)
    requires ts('\\') && ts('=')
    ensures TypeOf(Escape(t, ts) + ['='] + rest) == Some(TypePart(t, rest))
  {
    var s := Escape(t, ts) + ['='] + rest;
    if t == [] {
      assert s == ['='] + rest && s[1..] == rest;
    } else {
      hide TypeOf, Escape1;
      var tail := Escape(t[1..], ts) + ['='] + rest;
      TypeOfEscaped(t[1..], rest, ts);
      TypeStep(t[0], tail, ts);
      Assoc(Escape1(t[0], ts), Escape(t[1..], ts), ['=']);
      Assoc(Escape1(t[0], ts), Escape(t[1..], ts) + ['='], rest);
      assert t == [t[0]] + t[1..];
    }
  }

  /** What may follow an escaped value: nothing, or a separator and the rest. */
  function Following(sep: Sep, rest: string): string {
    match sep case End => [] case Slash => ['/'] + rest case Plus => ['+'] + rest
  }

  lemma ValueStep(c: char, tail: string, multi: bool, vs: char -> bool)
    requires ValueOf(tail, multi).Some? && vs('\\') && vs('/') && (multi ==> vs('+'))
    ensures ValueOf(Escape1(c, vs) + tail, multi)
            == Some(ValueOf(tail, multi).value.(text := [c] + ValueOf(tail, multi).value.text))
  {
    var s := Escape1(c, vs) + tail;
    assert if vs(c) then s[2..] == tail else s[1..] == tail;
  }

  lemma {:induction false} ValueOfEscaped(v: string, multi: bool, sep: Sep, rest: string, vs: char -> bool)
    requires (sep == Plus ==> multi) && (sep == End ==> rest == [])
    requires vs('\\') && vs('/') && (multi ==> vs('+'))
    ensures ValueOf(Escape(v, vs) + Following(sep, rest), multi) == Some(ValuePart(v, sep, rest))
  {
    var s := Escape(v, vs) + Following(sep, rest);
    hide ValueOf, Escape1, Following;
    if v == [] {
      assert s == Following(sep, rest);
      ValueEnds(multi, sep, rest);
    } else {
      var tail := Escape(v[1..], vs) + Following(sep, rest);
      ValueOfEscaped(v[1..], multi, sep, rest, vs);
      ValueStep(v[0], tail, multi, vs);
      Assoc(Escape1(v[0], vs), Escape(v[1..], vs), Following(sep, rest));
      assert v == [v[0]] + v[1..];
    }
  }

  lemma ValueEnds(multi: bool, sep: Sep, rest: string)
    requires (sep == Plus ==> multi) && (sep == End ==> rest == [])
    ensures ValueOf(Following(sep, rest), multi) == Some(ValuePart([], sep, rest))
  {
    assert sep != End ==> Following(sep, rest)[1..] == rest;
  }

  /** Without multi-valued RDNs no element is ever joined, and the first one never is. */
  lemma {:induction false} FlagsAreReadable(s: string, multi: bool, joined: bool)
    requires Elements(s, multi, joined).Some?
    ensures var es := Elements(s, multi, joined).value;
            (es != [] ==> es[0].joined == joined)
            && (!multi ==> forall i :: 1 <= i < |es| ==> !es[i].joined)
    decreases |s|
  {
    if s != [] {
      var v := ValueOf(TypeOf(s).value.rest, multi).value;
      FlagsAreReadable(v.rest, multi, v.sep == Plus);
    }
  }

  predicate Writable(es: seq<Element>, multi: bool) {
    forall i :: 1 <= i < |es| && es[i].joined ==> multi
  }

  /** The loop body on a spelled element. */
  lemma ElementSpelled(e: Element, multi: bool, joined: bool, sep: Sep, rest: string, ts: char -> bool,
                       vs: char -> bool)
    requires (sep == Plus ==> multi) && (sep == End ==> rest == []) && Enough(ts, vs, multi)
    ensures var s := SpellElement(e, ts, vs) + Following(sep, rest); var more := Elements(rest, multi, sep == Plus);
            Elements(s, multi, joined)
            == if (sep == End && e.value == []) || more.None? then None
               else Some([e.(joined := joined)] + more.value)
  {
    hide TypeOf, ValueOf, Escape1;
    var s, tail := SpellElement(e, ts, vs) + Following(sep, rest), Escape(e.value, vs) + Following(sep, rest);
    assert s == Escape(e.typ, ts) + ['='] + tail;
    TypeOfEscaped(e.typ, tail, ts);
    ValueOfEscaped(e.value, multi, sep, rest, vs);
    EscapeEmptyIff(e.value, vs);
  }

  lemma EscapeEmptyIff(v: string, vs: char -> bool)
    ensures Escape(v, vs) == [] <==> v == []
  {
  }

  lemma {:induction false} ParseSpelled(es: seq<Element>, multi: bool, joined: bool, ts: char -> bool, vs: char -> bool)
    requires Writable(es, multi) && Enough(ts, vs, multi)
    ensures Elements(SpellElements(es, ts, vs), multi, joined)
            == if es == [] then Some([])
               else if es[|es| - 1].value == [] then None
               else Some([es[0].(joined := joined)] + es[1..])
  {
    if es == [] {
      NoElements(multi, joined);
    } else {
      var e, tail := es[0], es[1..];
      assert es == [e] + tail;
      SpellFirst(e, tail, ts, vs);
      hide Elements, SpellElement, SpellElements, Following, Writable, Enough;
      if tail == [] {
        ElementSpelled(e, multi, joined, End, [], ts, vs);
        NoElements(multi, false);
      } else {
        TailWritable(e, tail, multi);
        ParseSpelled(tail, multi, tail[0].joined, ts, vs);
        ParseMore(e, tail, SpellElements(tail, ts, vs), multi, joined, ts, vs);
      }
    }
  }

  lemma TailWritable(e: Element, tail: seq<Element>, multi: bool)
    requires tail != [] && Writable([e] + tail, multi)
    ensures Writable(tail, multi) && (tail[0].joined ==> multi)
    ensures [tail[0].(joined := tail[0].joined)] + tail[1..] == tail
  {
    assert ([e] + tail)[1] == tail[0];
    assert forall i :: 0 <= i < |tail| ==> tail[i] == ([e] + tail)[i + 1];
  }

  lemma ParseMore(e: Element, tail: seq<Element>, rest: string, multi: bool, joined: bool, ts: char -> bool,
                  vs: char -> bool)
    requires tail != [] && (tail[0].joined ==> multi) && Enough(ts, vs, multi)
    requires Elements(rest, multi, tail[0].joined) == if tail[|tail| - 1].value == [] then None else Some(tail)
    ensures Elements(SpellElement(e, ts, vs) + Following(if tail[0].joined then Plus else Slash, rest), multi, joined)
            == if tail[|tail| - 1].value == [] then None else Some([e.(joined := joined)] + tail)
  {
    hide Elements, SpellElement, Following, Enough;
    ElementSpelled(e, multi, joined, if tail[0].joined then Plus else Slash, rest, ts, vs);
  }

  lemma SpellFirst(e: Element, tail: seq<Element>, ts: char -> bool, vs: char -> bool)
    ensures var sep := if tail == [] then End else if tail[0].joined then Plus else Slash;
            SpellElements([e] + tail, ts, vs)
            == SpellElement(e, ts, vs) + Following(sep, if tail == [] then [] else SpellElements(tail, ts, vs))
  {
    assert ([e] + tail)[1..] == tail;
  }

  lemma NoElements(multi: bool, joined: bool)
    ensures Elements([], multi, joined) == Some([])
  {
  }

  /** However elements are spelled, with the characters escaped that have to be and any others: parsing the
      text gives the list back exactly when its last value is not empty, its first element is not joined,
      and joined elements are allowed. */
  lemma SpellingIff(es: seq<Element>, multi: bool, ts: char -> bool, vs: char -> bool)
    requires Enough(ts, vs, multi)
    ensures Parse(Spell(es, ts, vs), multi) == Some(es) <==>
            (es != [] ==> es[|es| - 1].value != [] && !es[0].joined)
            && (multi || forall i :: 0 <= i < |es| ==> !es[i].joined)
  {
    hide Elements, SpellElements, Enough;
    var s := SpellElements(es, ts, vs);
    assert Spell(es, ts, vs)[1..] == s && Parse(Spell(es, ts, vs), multi) == Elements(s, multi, false);
    if Elements(s, multi, false) == Some(es) {
      FlagsAreReadable(s, multi, false);
      ParseSpelled(es, multi, false, ts, vs);
    } else if Writable(es, multi) {
      ParseSpelled(es, multi, false, ts, vs);
      assert es != [] && !es[0].joined ==> [es[0].(joined := false)] + es[1..] == es;
    }
  }

  /** In particular for the printed form. */
  lemma RoundTripIff(es: seq<Element>, multi: bool)
    ensures Parse(Print(es), multi) == Some(es) <==>
            (es != [] ==> es[|es| - 1].value != [] && !es[0].joined)
            && (multi || forall i :: 0 <= i < |es| ==> !es[i].joined)
  {
    hide Spell, Parse;
    SpellingIff(es, multi, TypeSpecial, ValueSpecial);
  }

  lemma {:induction false} UnendedType(t: string)
    requires '=' !in t
    ensures TypeOf(t).None? || TypeOf(t).value.rest == []
    decreases |t|
  {
    if |t| >= 2 && t[0] == '\\' {
      assert '=' !in t[2..];
      UnendedType(t[2..]);
    } else if t != [] && t[0] != '\\' {
      assert t[0] in t && '=' !in t[1..];
      UnendedType(t[1..]);
    }
  }

  /** `s` is the end of a text without escapes, and the lone escape behind it. */
  ghost predicate EndsAlone(s: string) { s != [] && s[|s| - 1] == '\\' && '\\' !in s[..|s| - 1] }

  lemma AloneTail(s: string)
    requires EndsAlone(s)
    ensures s[0] == '\\' ==> |s| == 1
    ensures |s| > 1 ==> EndsAlone(s[1..]) && s[1..] != []
  {
    if |s| > 1 {
      assert s[0] in s[..|s| - 1] && s[1..][..|s| - 2] == s[..|s| - 1][1..];
    }
  }

  lemma {:induction false} LoneTypeEnd(s: string)
    requires EndsAlone(s)
    ensures TypeOf(s).Some? ==> EndsAlone(TypeOf(s).value.rest)
    decreases |s|
  {
    AloneTail(s);
    if s[0] != '\\' && s[0] != '=' { LoneTypeEnd(s[1..]); }
  }

  lemma {:induction false} LoneValueEnd(s: string, multi: bool)
    requires EndsAlone(s)
    ensures ValueOf(s, multi).Some? ==> EndsAlone(ValueOf(s, multi).value.rest)
    decreases |s|
  {
    AloneTail(s);
    if s[0] != '\\' && s[0] != '/' && !(s[0] == '+' && multi) { LoneValueEnd(s[1..], multi); }
  }

  lemma {:induction false} LoneEscape(s: string, multi: bool, joined: bool)
    requires EndsAlone(s)
    ensures Elements(s, multi, joined) == None
    decreases |s|
  {
    LoneTypeEnd(s);
    var t := TypeOf(s);
    if t.Some? {
      LoneValueEnd(t.value.rest, multi);
      var v := ValueOf(t.value.rest, multi);
      hide TypeOf, ValueOf, EndsAlone;
      if v.Some? { LoneEscape(v.value.rest, multi, v.value.sep == Plus); }
    }
  }

  /** What is rejected: a subject that does not begin with a slash, a type that is not ended, and an escape
      with nothing behind it. */
  lemma Rejected(text: string, multi: bool)
    ensures text == "" || text[0] != '/' ==> Parse(text, multi) == None
    ensures '=' !in text && text != "" ==> Parse("/" + text, multi) == None
    ensures '\\' !in text ==> Parse("/" + text + "\\", multi) == None
  {
    assert ("/" + text)[1..] == text && ("/" + text + "\\")[1..] == text + "\\";
    if '=' !in text && text != "" { UnendedType(text); }
    if '\\' !in text {
      assert (text + "\\")[..|text|] == text;
      LoneEscape(text + "\\", multi, false);
    }
  }

  /** A text that was accepted is accepted again in its printed form, with the same elements, exactly
      when its last value is not empty. */
  lemma ReparseIff(subject: string, multi: bool)
    requires Parse(subject, multi).Some?
    ensures var es := Parse(subject, multi).value;
            Parse(Print(es), multi) == Some(es) <==> (es != [] ==> es[|es| - 1].value != [])
  {
    hide Elements, Print;
    FlagsAreReadable(subject[1..], multi, false);
    RoundTripIff(Parse(subject, multi).value, multi);
  }

  /** An empty last value is accepted in front of a closing slash only, which printing leaves out. */
  lemma ClosingSlash(multi: bool)
    ensures Parse("/CN=/", multi) == Some([Element("CN", "", false)])
    ensures Print([Element("CN", "", false)]) == "/CN=" && Parse("/CN=", multi) == None
  {
    var e := Element("CN", "", false);
    hide Elements, ValueOf;
    assert Escape("CN", TypeSpecial) == "CN" by {
      assert "CN"[1..] == "N" && "N"[1..] == "";
    }
    assert SpellElement(e, TypeSpecial, ValueSpecial) == "CN=";
    ElementSpelled(e, multi, false, Slash, "", TypeSpecial, ValueSpecial);
    ElementSpelled(e, multi, false, End, "", TypeSpecial, ValueSpecial);
    NoElements(multi, false);
    assert SpellElement(e, TypeSpecial, ValueSpecial) + Following(Slash, "") == "/CN=/"[1..];
    assert SpellElement(e, TypeSpecial, ValueSpecial) + Following(End, "") == "/CN="[1..];
    assert e.(joined := false) == e && [e] + [] == [e];
    assert SpellElements([e], TypeSpecial, ValueSpecial) == "CN=" + [] == "CN=";
    assert Print([e]) == ['/'] + "CN=" == "/CN=";
  }

  // ---- the loop over buffers ----

  /** The texts in the order in which they are packed. */
  function Texts(es: seq<Element>): (ss: seq<string>)
    ensures |ss| == 2 * |es|
    ensures forall k :: 0 <= k < |es| ==> ss[2 * k] == es[k].typ && ss[2 * k + 1] == es[k].value
  {
    if es == [] then [] else Texts(es[..|es| - 1]) + [es[|es| - 1].typ, es[|es| - 1].value]
  }

  ghost predicate Terminated(s: string) {
    s != [] && s[|s| - 1] == NUL && forall i :: 0 <= i < |s| - 1 ==> s[i] != NUL
  }

  /** The text that is still in front of a pointer into the subject. */
  function Ahead(s: string, sp: nat): string
    requires sp < |s|
  {
    s[sp..|s| - 1]
  }

  lemma AheadEmptyIff(s: string, sp: nat)
    requires Terminated(s) && sp < |s|
    ensures s[sp] == NUL <==> sp == |s| - 1
    ensures Ahead(s, sp) == [] <==> s[sp] == NUL
  {
  }

  /** The type grammar seen from a pointer. */
  lemma TypeAt(s: string, sp: nat)
    requires Terminated(s) && sp < |s| - 1
    ensures s[sp + 1] == NUL <==> sp + 1 == |s| - 1
    ensures TypeOf(Ahead(s, sp))
            == if s[sp] == '\\' then
                 if s[sp + 1] == NUL then None else TypeAfter([s[sp + 1]], TypeOf(Ahead(s, sp + 2)))
               else if s[sp] == '=' then Some(TypePart([], Ahead(s, sp + 1)))
               else TypeAfter([s[sp]], TypeOf(Ahead(s, sp + 1)))
  {
    assert Ahead(s, sp)[1..] == Ahead(s, sp + 1);
    if sp + 2 < |s| { assert Ahead(s, sp)[2..] == Ahead(s, sp + 2); }
  }

  lemma ValueAt(s: string, sp: nat, multi: bool)
    requires Terminated(s) && sp < |s| - 1
    ensures s[sp + 1] == NUL <==> sp + 1 == |s| - 1
    ensures ValueOf(Ahead(s, sp), multi)
            == if s[sp] == '\\' then
                 if s[sp + 1] == NUL then None else ValueAfter([s[sp + 1]], ValueOf(Ahead(s, sp + 2), multi))
               else if s[sp] == '/' then Some(ValuePart([], Slash, Ahead(s, sp + 1)))
               else if s[sp] == '+' && multi then Some(ValuePart([], Plus, Ahead(s, sp + 1)))
               else ValueAfter([s[sp]], ValueOf(Ahead(s, sp + 1), multi))
  {
    assert Ahead(s, sp)[1..] == Ahead(s, sp + 1);
    if sp + 2 < |s| { assert Ahead(s, sp)[2..] == Ahead(s, sp + 2); }
  }

  lemma AtEnd(s: string, multi: bool)
    requires Terminated(s)
    ensures TypeOf(Ahead(s, |s| - 1)) == Some(TypePart([], []))
            && ValueOf(Ahead(s, |s| - 1), multi) == Some(ValuePart([], End, []))
  {
  }

  /** The type loop. The error exits are an escape at the end and an end without a value. */
  method CollectType(subject: array<char>, ghost s: string, sp0: nat, buf: array<char>, bp0: nat)
    returns (ok: bool, sp: nat, bp: nat)
    requires subject != buf && subject[..] == s && Terminated(s) && buf.Length == |s|
    requires sp0 < |s| - 1 && bp0 < sp0
    modifies buf
    ensures sp0 <= sp < |s| && (ok ==> sp0 < sp && bp < sp)
    ensures var r := TypeOf(Ahead(s, sp0));
            && ok == (r.Some? && r.value.rest != [])
            && (ok ==> Ahead(s, sp) == r.value.rest && bp < buf.Length
                       && buf[..bp] == old(buf[..bp0]) + r.value.text + [NUL])
  {
    hide TypeOf, TypeAfter, Ahead, Terminated;
    ghost var whole, text := TypeOf(Ahead(s, sp0)), [];
    sp, bp := sp0, bp0;
    TypeAfterTwice([], [], whole);
    while subject[sp] != NUL
      invariant sp0 <= sp < |s| && bp < sp
      invariant buf[..bp] == old(buf[..bp0]) + text
      invariant whole == TypeAfter(text, TypeOf(Ahead(s, sp)))
      decreases |s| - sp
    {
      AheadEmptyIff(s, sp);
      TypeAt(s, sp);
      sp := sp + 1;
      var c := subject[sp - 1];
      if c == '\\' {
        c := subject[sp];
        if c == NUL {
          TypeFails(text);
          return false, sp, bp;
        }
        sp := sp + 1;
      } else if c == '=' {
        bp := Put(buf, bp, NUL);
        TypeEnds(text, Ahead(s, sp));
        AheadEmptyIff(s, sp);
        return subject[sp] != NUL, sp, bp;
      }
      TypeAfterTwice(text, [c], TypeOf(Ahead(s, sp)));
      text := text + [c];
      bp := Put(buf, bp, c);
    }
    AheadEmptyIff(s, sp);
    AtEnd(s, false);
    TypeEnds(text, []);
    return false, sp, bp;
  }

  lemma TypeFails(text: string)
    ensures TypeAfter(text, None) == None && ValueAfter(text, None) == None
  {
  }

  lemma TypeEnds(text: string, rest: string)
    ensures TypeAfter(text, Some(TypePart([], rest))) == Some(TypePart(text, rest))
  {
    assert text + [] == text;
  }

  lemma ValueEndsWith(text: string, sep: Sep, rest: string)
    ensures ValueAfter(text, Some(ValuePart([], sep, rest))) == Some(ValuePart(text, sep, rest))
  {
    assert text + [] == text;
  }

  /** The value loop; `sep` tells how it ended. */
  method CollectValue(subject: array<char>, ghost s: string, sp0: nat, multi: bool, buf: array<char>, bp0: nat)
    returns (ok: bool, sp: nat, bp: nat, sep: Sep)
    requires subject != buf && subject[..] == s && Terminated(s) && buf.Length == |s|
    requires sp0 < |s| && bp0 < sp0
    modifies buf
    ensures sp0 <= sp < |s|
    ensures var r := ValueOf(Ahead(s, sp0), multi);
            && ok == r.Some?
            && (ok ==> Ahead(s, sp) == r.value.rest && sep == r.value.sep
                       && bp <= sp && (sep != End ==> sp0 < sp && bp < sp)
                       && buf[..bp] == old(buf[..bp0]) + r.value.text + [NUL])
  {
    hide ValueOf, ValueAfter, Ahead, Terminated;
    ghost var whole, text := ValueOf(Ahead(s, sp0), multi), [];
    sp, bp, sep := sp0, bp0, End;
    ValueAfterTwice([], [], whole);
    while subject[sp] != NUL
      invariant sp0 <= sp < |s| && bp < sp
      invariant buf[..bp] == old(buf[..bp0]) + text
      invariant sep == End && whole == ValueAfter(text, ValueOf(Ahead(s, sp), multi))
      decreases |s| - sp
    {
      AheadEmptyIff(s, sp);
      ValueAt(s, sp, multi);
      sp := sp + 1;
      var c := subject[sp - 1];
      if c == '\\' {
        c := subject[sp];
        if c == NUL {
          TypeFails(text);
          return false, sp, bp, sep;
        }
        sp := sp + 1;
      } else if c == '/' {
        sep := Slash;
        break;
      } else if c == '+' && multi {
        sep := Plus;
        break;
      }
      ValueAfterTwice(text, [c], ValueOf(Ahead(s, sp), multi));
      text := text + [c];
      bp := Put(buf, bp, c);
    }
    if sep == End {
      AheadEmptyIff(s, sp);
      AtEnd(s, multi);
    }
    ValueEndsWith(text, sep, Ahead(s, sp));
    bp := Put(buf, bp, NUL);
    ok := true;
  }

  /** The three tables and the packed buffer hold the elements. */
  ghost predicate Holds(es: seq<Element>, buf: seq<char>, types: seq<nat>, values: seq<nat>, mval: seq<int>) {
    && |types| >= |es| && |values| >= |es| && |mval| >= |es|
    && forall k :: 0 <= k < |es| ==>
         CStr(buf, types[k]) == es[k].typ && CStr(buf, values[k]) == es[k].value
         && mval[k] == if es[k].joined then -1 else 0
  }

  /** The same while the buffer is being filled: the texts are packed, the tables point to them. */
  ghost predicate Packed(es: seq<Element>, packed: string, types: seq<nat>, values: seq<nat>, mval: seq<int>) {
    && |types| >= |es| && |values| >= |es| && |mval| >= |es|
    && packed == Flat(Texts(es))
    && forall k :: 0 <= k < |es| ==>
         types[k] == Offset(Texts(es), 2 * k) && values[k] == Offset(Texts(es), 2 * k + 1)
         && mval[k] == (if es[k].joined then -1 else 0) && NulFree(es[k].typ) && NulFree(es[k].value)
  }

  lemma PackedHolds(es: seq<Element>, buf: seq<char>, bp: nat, types: seq<nat>, values: seq<nat>, mval: seq<int>)
    requires bp <= |buf| && Packed(es, buf[..bp], types, values, mval)
    ensures Holds(es, buf, types, values, mval)
  {
    forall k | 0 <= k < |es|
      ensures CStr(buf, types[k]) == es[k].typ && CStr(buf, values[k]) == es[k].value
    {
      PackedString(buf, Texts(es), 2 * k);
      PackedString(buf, Texts(es), 2 * k + 1);
    }
  }

  /** Where the texts of one more element go. */
  lemma OneMoreText(ss: seq<string>, t: string, v: string)
    ensures Flat(ss + [t, v]) == Flat(ss) + t + [NUL] + v + [NUL]
    ensures Offset(ss + [t, v], |ss|) == |Flat(ss)| && Offset(ss + [t, v], |ss| + 1) == |Flat(ss)| + |t| + 1
  {
    assert ss + [t, v] == ss + [t] + [v];
    FlatSnoc(ss, t);
    FlatSnoc(ss + [t], v);
    assert (ss + [t, v])[..|ss|] == ss && (ss + [t, v])[..|ss| + 1] == ss + [t];
  }

  /** Earlier pointers stay right when an element is added. */
  lemma PackedBefore(es: seq<Element>, e: Element, packed: string, types: seq<nat>, values: seq<nat>, mval: seq<int>,
                     k: nat)
    requires Packed(es, packed, types, values, mval) && k < |es|
    ensures var ss := Texts(es) + [e.typ, e.value];
            types[k] == Offset(ss, 2 * k) && values[k] == Offset(ss, 2 * k + 1)
  {
    hide Offset, Flat, Texts;
    OffsetStable(Texts(es), [e.typ, e.value], 2 * k);
    OffsetStable(Texts(es), [e.typ, e.value], 2 * k + 1);
  }

  /** Packing one more element and recording its two pointers. */
  lemma PackOneMore(es: seq<Element>, e: Element, packed: string, packed': string,
                    types0: seq<nat>, values0: seq<nat>, mval0: seq<int>,
                    types: seq<nat>, values: seq<nat>, mval: seq<int>)
    requires Packed(es, packed, types0, values0, mval0)
    requires |types0| == |values0| == |mval0| == |types| == |values| == |mval| > |es|
    requires forall k :: 0 <= k < |es| ==> types[k] == types0[k] && values[k] == values0[k] && mval[k] == mval0[k]
    requires NulFree(e.typ) && NulFree(e.value) && mval[|es|] == if e.joined then -1 else 0
    requires types[|es|] == |packed| && values[|es|] == |packed| + |e.typ| + 1
    requires packed' == packed + e.typ + [NUL] + e.value + [NUL]
    ensures Packed(es + [e], packed', types, values, mval)
  {
    hide Offset, Flat;
    var es' := es + [e];
    assert Texts(es') == Texts(es) + [e.typ, e.value] by { assert es'[..|es|] == es; }
    OneMoreText(Texts(es), e.typ, e.value);
    forall k | 0 <= k < |es'|
      ensures types[k] == Offset(Texts(es'), 2 * k) && values[k] == Offset(Texts(es'), 2 * k + 1)
    {
      if k < |es| {
        PackedBefore(es, e, packed, types0, values0, mval0, k);
      }
    }
  }

  /** One round of the element loop. */
  lemma ElementsStep(s: string, multi: bool, joined: bool, done: seq<Element>)
    requires s != []
    ensures TypeOf(s).None? || TypeOf(s).value.rest == [] ==> Elements(s, multi, joined).None?
    ensures TypeOf(s).Some? && TypeOf(s).value.rest != [] ==>
              var t := TypeOf(s).value; var v := ValueOf(t.rest, multi);
              if v.None? then Elements(s, multi, joined).None?
              else Prepend(done, Elements(s, multi, joined))
                   == Prepend(done + [Element(t.text, v.value.text, joined)],
                                    Elements(v.value.rest, multi, v.value.sep == Plus))
  {
    var t := TypeOf(s);
    if t.Some? && t.value.rest != [] {
      var v := ValueOf(t.value.rest, multi);
      if v.Some? {
        var more := Elements(v.value.rest, multi, v.value.sep == Plus);
        var e := Element(t.value.text, v.value.text, joined);
        if more.Some? { assert done + ([e] + more.value) == done + [e] + more.value; }
      }
    }
  }

  /** parse_name up to the name entries: all buffers have the sizes the code computes from the length
      of the subject, and every access stays inside them. */
  method ParseName(subject: array<char>, multi: bool)
    returns (ok: bool, n: nat, buf: array<char>, types: array<nat>, values: array<nat>, mval: array<int>)
    requires Terminated(subject[..])
    ensures buf.Length == subject.Length && types.Length == values.Length == mval.Length == subject.Length / 2 + 1
    ensures var r := Parse(subject[..subject.Length - 1], multi);
            ok == r.Some? && (ok ==> n == |r.value| && Holds(r.value, buf[..], types[..], values[..], mval[..]))
  {
    ghost var s := subject[..];
    var buflen := subject.Length;
    var max := buflen / 2 + 1;
    buf := new char[buflen](_ => NUL);
    types, values := new nat[max](_ => 0), new nat[max](_ => 0);
    mval := new int[max](_ => 0);
    n := 0;
    if subject[0] != '/' {
      return false, n, buf, types, values, mval;
    }
    ghost var whole := Elements(Ahead(s, 1), multi, false);
    assert subject[..buflen - 1][1..] == Ahead(s, 1);
    ok, n := ElementLoop(subject, s, multi, buf, types, values, mval);
  }

  method ElementLoop(subject: array<char>, ghost s: string, multi: bool, buf: array<char>, types: array<nat>,
                     values: array<nat>,
                     mval: array<int>) returns (ok: bool, n: nat)
    requires subject != buf && subject[..] == s && Terminated(s) && buf.Length == |s| > 1
    requires types.Length == values.Length == mval.Length == |s| / 2 + 1 && types != values
    modifies buf, types, values, mval
    ensures var r := Elements(Ahead(s, 1), multi, false);
            ok == r.Some? && (ok ==> n == |r.value| && Holds(r.value, buf[..], types[..], values[..], mval[..]))
  {
    hide TypeOf, ValueOf, Elements, Ahead, Terminated, Packed, Holds;
    ghost var whole, done: seq<Element>, joined := Elements(Ahead(s, 1), multi, false), [], false;
    var sp, bp := 1, 0;
    n := 0;
    mval[0] := 0;
    NothingPacked(types[..], values[..], mval[..]);
    PrependNothing(whole);
    while subject[sp] != NUL
      invariant 1 <= sp < |s| && 0 <= bp <= sp && (subject[sp] != NUL ==> bp < sp)
      invariant n == |done| && 1 + 2 * n <= sp + (if subject[sp] == NUL then 1 else 0)
      invariant subject[sp] != NUL ==> mval[n] == if joined then -1 else 0
      invariant Packed(done, buf[..bp], types[..], values[..], mval[..])
      invariant whole == Prepend(done, Elements(Ahead(s, sp), multi, joined))
      decreases |s| - sp
    {
      AheadEmptyIff(s, sp);
      ElementsStep(Ahead(s, sp), multi, joined, done);
      ghost var e;
      var sep;
      ok, sp, bp, sep, e := ElementRound(subject, s, multi, buf, types, values, mval, sp, bp, n, done, joined);
      if !ok {
        return;
      }
      AheadEmptyIff(s, sp);
      done, joined := done + [e], sep == Plus;
      n := n + 1;
    }
    AheadEmptyIff(s, sp);
    NoElements(multi, joined);
    assert done + [] == done;
    PackedHolds(done, buf[..], bp, types[..], values[..], mval[..]);
    ok := true;
  }

  /** One element: its type and its value are packed, and the flag of the next one is set. */
  method ElementRound(subject: array<char>, ghost s: string, multi: bool, buf: array<char>, types: array<nat>,
                      values: array<nat>, mval: array<int>, sp0: nat, bp0: nat, n: nat, ghost done: seq<Element>,
                      ghost joined: bool)
    returns (ok: bool, sp: nat, bp: nat, sep: Sep, ghost e: Element)
    requires subject != buf && subject[..] == s && Terminated(s) && buf.Length == |s|
    requires types.Length == values.Length == mval.Length == |s| / 2 + 1 && types != values
    requires 1 <= sp0 < |s| - 1 && bp0 < sp0 && n == |done| && 1 + 2 * n <= sp0
    requires mval[n] == (if joined then -1 else 0) && Packed(done, buf[..bp0], types[..], values[..], mval[..])
    modifies buf, types, values, mval
    ensures sp < |s| && (ok ==> sp0 + 2 <= sp + (if sep == End then 1 else 0) && bp <= sp && (sep != End ==> bp < sp))
    ensures var t := TypeOf(Ahead(s, sp0));
            if t.None? || t.value.rest == [] then !ok
            else
              var v := ValueOf(t.value.rest, multi);
              && ok == v.Some?
              && (ok ==> e == Element(t.value.text, v.value.text, joined)
                         && sep == v.value.sep && Ahead(s, sp) == v.value.rest
                         && (sep == End ==> sp == |s| - 1)
                         && Packed(done + [e], buf[..bp], types[..], values[..], mval[..])
                         && (sep != End ==> mval[n + 1] == if sep == Plus then -1 else 0))
  {
    hide TypeOf, ValueOf, Elements, Ahead, Terminated, Packed, Holds;
    sp, bp, sep, e := sp0, bp0, End, Element("", "", false);
    AheadNulFree(s, sp);
    AheadEmptyIff(s, sp);
    ghost var packed, t, types0, values0, mval0 := buf[..bp], TypeOf(Ahead(s, sp)), types[..], values[..], mval[..];
    types[n] := bp;
    ok, sp, bp := CollectType(subject, s, sp, buf, bp);
    if !ok {
      return;
    }
    ghost var v := ValueOf(Ahead(s, sp), multi);
    values[n] := bp;
    ok, sp, bp, sep := CollectValue(subject, s, sp, multi, buf, bp);
    if !ok {
      return;
    }
    AheadEmptyIff(s, sp);
    if sep != End {
      mval[n + 1] := if sep == Plus then -1 else 0;
    }
    e := Element(t.value.text, v.value.text, joined);
    PackOneMore(done, e, packed, buf[..bp], types0, values0, mval0, types[..], values[..], mval[..]);
  }

  lemma AheadNulFree(s: string, sp: nat)
    requires Terminated(s) && sp < |s|
    ensures NulFree(Ahead(s, sp))
  {
  }

  lemma NothingPacked(types: seq<nat>, values: seq<nat>, mval: seq<int>)
    ensures Packed([], [], types, values, mval)
  {
  }
}
