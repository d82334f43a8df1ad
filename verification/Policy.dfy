/** The policy check of do_body: the subject is built from the request, rule by rule. */
module Policy {
  import opened Deletion
  import opened Positions

  /** An entry of a distinguished name: attribute object, string type and string contents. */
  datatype Entry = Entry(obj: int, typ: int, data: string)

  type Name = seq<Entry>

  /** A line of the policy section. */
  datatype Rule = Rule(attribute: string, value: string)

  const NID_UNDEF := 0

  /** X509_NAME_get_index_by_OBJ: the first entry of the object behind `last`, or -1. */
  function IndexByObj(name: Name, obj: int, last: int): (j: int)
    requires -1 <= last
    ensures j == -1 || (last < j < |name| && name[j].obj == obj)
    ensures forall k :: last < k < (if j < 0 then |name| else j) ==> name[k].obj != obj
    decreases |name| - last
  {
    if last + 1 >= |name| then -1
    else if name[last + 1].obj == obj then last + 1
    else IndexByObj(name, obj, last + 1)
  }

  // ---- what the policy means ----

  /** All entries of an attribute, in order. */
  function Entries(name: Name, obj: int): (es: Name)
    ensures forall e :: e in es <==> e in name && e.obj == obj
  {
    if name == [] then []
    else Entries(name[..|name| - 1], obj) + if name[|name| - 1].obj == obj then [name[|name| - 1]] else []
  }

  datatype Kind = Optional | Supplied | Match | Unknown

  function KindOf(value: string): Kind {
    if value == "optional" then Optional
    else if value == "supplied" then Supplied
    else if value == "match" then Match
    else Unknown
  }

  /** A rule is met when it is known, its attribute is present unless optional, and every value of the
      attribute occurs in the CA name if it has to match. `nid` is OBJ_txt2nid. */
  ghost predicate Met(r: Rule, req: Name, ca: Name, nid: string -> int) {
    && nid(r.attribute) != NID_UNDEF && KindOf(r.value) != Unknown
    && (KindOf(r.value) != Optional ==> exists e :: e in req && e.obj == nid(r.attribute))
    && (KindOf(r.value) == Match ==> forall e :: e in req && e.obj == nid(r.attribute) ==> e in ca)
  }

  /** Rule by rule, all request entries of the rule's attribute. */
  function Selected(policy: seq<Rule>, req: Name, nid: string -> int): Name {
    if policy == [] then []
    else Selected(policy[..|policy| - 1], req, nid) + Entries(req, nid(policy[|policy| - 1].attribute))
  }

  // ---- the loops ----

  /** From `again2`: the first CA entry of the object that equals `tne`. */
  method FindMatch(ca: Name, obj: int, tne: Entry) returns (j: int)
    requires tne.obj == obj
    ensures j < 0 <==> tne !in ca
    ensures j >= 0 ==> j < |ca| && ca[j] == tne
  {
    var last2 := -1;
    while true
      invariant -1 <= last2 < |ca|
      invariant forall k :: 0 <= k <= last2 ==> ca[k] != tne
      decreases |ca| - last2
    {
      j := IndexByObj(ca, obj, last2);
      if j < 0 {
        return;
      }
      last2 := j;
      if ca[j].data == tne.data && ca[j].typ == tne.typ {
        return;
      }
    }
  }

  /** One round of the inner loop: the request entry found, or none, against the kind of the rule. */
  method ApplyOnce(kind: Kind, req: Name, ca: Name, obj: int, j0: int, subject0: Name)
    returns (fail: bool, j: int, subject: Name)
    requires j0 == -1 || (0 <= j0 < |req| && req[j0].obj == obj)
    ensures fail <==> kind == Unknown || (j0 < 0 && kind != Optional) || (kind == Match && req[j0] !in ca)
    ensures !fail ==> (j < 0 <==> j0 < 0) && subject == subject0 + if j0 < 0 then [] else [req[j0]]
  {
    j, subject := j0, subject0;
    match kind {
      case Optional =>
        if j >= 0 {
          subject := subject + [req[j]];
        }
      case Supplied =>
        if j < 0 {
          return true, j, subject;
        }
        subject := subject + [req[j]];
      case Match =>
        if j < 0 {
          return true, j, subject;
        }
        j := FindMatch(ca, obj, req[j]);
        if j < 0 {
          return true, j, subject;
        }
        subject := subject + [ca[j]];
      case Unknown =>
        return true, j, subject;
    }
    fail := false;
  }

  /** The inner loop for one rule; `j` decides when it ends, and a successful match overwrites it. */
  method ApplyRule(rule: Rule, req: Name, ca: Name, nid: string -> int, subject0: Name)
    returns (ok: bool, subject: Name)
    ensures ok <==> Met(rule, req, ca, nid)
    ensures ok ==> subject == subject0 + Entries(req, nid(rule.attribute))
  {
    hide KindOf, Entries;
    subject := subject0;
    var obj := nid(rule.attribute);
    if obj == NID_UNDEF {
      return false, subject;
    }
    var last := -1;
    NoEntries(obj);
    assert req[..0] == [];
    while true
      invariant -1 <= last < |req| && (last >= 0 ==> req[last].obj == obj && KindOf(rule.value) != Unknown)
      invariant KindOf(rule.value) == Match ==> forall k :: 0 <= k <= last && req[k].obj == obj ==> req[k] in ca
      invariant subject == subject0 + Entries(req[..last + 1], obj)
      decreases |req| - last
    {
      var j := IndexByObj(req, obj, last);
      EntriesSkip(req, obj, last, if j < 0 then |req| else j);
      if j < 0 && last != -1 {
        break;
      }
      if j >= 0 {
        last := j;
        OneMoreEntry(req, obj, j);
      }
      var fail;
      fail, j, subject := ApplyOnce(KindOf(rule.value), req, ca, obj, j, subject);
      if fail {
        return false, subject;
      }
      if j < 0 {
        break;
      }
    }
    assert req[..|req|] == req;
    return true, subject;
  }

  lemma NoEntries(obj: int)
    ensures Entries([], obj) == []
  {
  }

  /** Skipping entries of other objects adds nothing. */
  lemma {:induction false} EntriesSkip(name: Name, obj: int, last: int, j: int)
    requires -1 <= last < j <= |name| && forall k :: last < k < j ==> name[k].obj != obj
    ensures Entries(name[..j], obj) == Entries(name[..last + 1], obj)
    decreases j - last
  {
    if last + 1 < j {
      EntriesSkip(name, obj, last, j - 1);
      assert name[..j][..j - 1] == name[..j - 1];
    }
  }

  lemma OneMoreEntry(name: Name, obj: int, j: int)
    requires 0 <= j < |name| && name[j].obj == obj
    ensures Entries(name[..j + 1], obj) == Entries(name[..j], obj) + [name[j]]
  {
    assert name[..j + 1][..j] == name[..j];
  }

  /** The whole check: it succeeds exactly when every rule is met, and then the subject is, rule by
      rule, all request entries of the rule's attribute. */
  method CheckPolicy(policy: seq<Rule>, req: Name, ca: Name, nid: string -> int) returns (ok: bool, subject: Name)
    ensures ok <==> forall i :: 0 <= i < |policy| ==> Met(policy[i], req, ca, nid)
    ensures ok ==> subject == Selected(policy, req, nid)
  {
    subject := [];
    for i := 0 to |policy|
      invariant forall k :: 0 <= k < i ==> Met(policy[k], req, ca, nid)
      invariant subject == Selected(policy[..i], req, nid)
    {
      assert policy[..i + 1][..i] == policy[..i];
      ok, subject := ApplyRule(policy[i], req, ca, nid, subject);
      if !ok {
        return;
      }
    }
    assert policy[..|policy|] == policy;
    ok := true;
  }

  function Obj(e: Entry): int { e.obj }

  /** Without e-mail in the subject every e-mail entry is deleted, one at a time. */
  method DeleteAll(name0: Name, obj: int) returns (name: Name)
    ensures name == Without(name0, Obj, obj)
  {
    name := name0;
    while true
      invariant Without(name, Obj, obj) == Without(name0, Obj, obj)
      decreases |name|
    {
      var i := IndexByObj(name, obj, -1);
      if i < 0 {
        WithoutNone(name, Obj, obj);
        return;
      }
      WithoutDeleted(name, Obj, obj, i);
      name := name[..i] + name[i + 1..];
    }
  }

  /** The subject of the certificate: the selected entries, or with preserve the request's name. */
  method BuildSubject(policy: seq<Rule>, req: Name, x509: Name, nid: string -> int, selfsign: bool, preserve: bool,
                      emailDn: bool, email: int)
    returns (ok: bool, dn: Name)
    ensures ok <==> forall i :: 0 <= i < |policy| ==> Met(policy[i], req, if selfsign then req else x509, nid)
    ensures ok ==> var subject := if preserve then req else Selected(policy, req, nid);
                   dn == if emailDn then subject else Without(subject, Obj, email)
  {
    var subject;
    ok, subject := CheckPolicy(policy, req, if selfsign then req else x509, nid);
    if !ok {
      return ok, [];
    }
    if preserve {
      subject := req;
    }
    dn := subject;
    if !emailDn {
      dn := DeleteAll(subject, email);
    }
  }

  // ---- consequences ----

  /** Signing with its own name, a request passes a matching rule as soon as the attribute is there. */
  lemma SelfSignedMatches(attribute: string, req: Name, nid: string -> int)
    ensures Met(Rule(attribute, "match"), req, req, nid) <==> Met(Rule(attribute, "supplied"), req, req, nid)
  {
    KindOfLiterals();
  }

  lemma KindOfLiterals()
    ensures KindOf("match") == Match && KindOf("supplied") == Supplied && KindOf("optional") == Optional
  {
    assert |"match"| == 5 && |"optional"| == 8 && |"supplied"| == 8 && "supplied"[0] == 's' && "optional"[0] == 'o';
  }

  ghost predicate Mentions(policy: seq<Rule>, obj: int, nid: string -> int) {
    exists i :: 0 <= i < |policy| && nid(policy[i].attribute) == obj
  }

  lemma MentionsLast(policy: seq<Rule>, obj: int, nid: string -> int)
    requires policy != []
    ensures Mentions(policy, obj, nid) <==>
            Mentions(policy[..|policy| - 1], obj, nid) || nid(policy[|policy| - 1].attribute) == obj
  {
    var init := policy[..|policy| - 1];
    if Mentions(init, obj, nid) {
      var i :| 0 <= i < |init| && nid(init[i].attribute) == obj;
      assert policy[i] == init[i];
    }
    if i :| 0 <= i < |policy| && nid(policy[i].attribute) == obj {
      assert i < |init| ==> init[i] == policy[i];
    }
  }

  /** The subject holds exactly the request entries whose attribute the policy mentions: nothing is
      invented and everything mentioned is kept. */
  lemma {:induction false} SelectedEntries(policy: seq<Rule>, req: Name, nid: string -> int, e: Entry)
    ensures e in Selected(policy, req, nid) <==> e in req && Mentions(policy, e.obj, nid)
  {
    hide Mentions, Entries;
    if policy == [] {
      NothingMentioned(e.obj, nid);
    } else {
      SelectedEntries(policy[..|policy| - 1], req, nid, e);
      MentionsLast(policy, e.obj, nid);
    }
  }

  lemma NothingMentioned(obj: int, nid: string -> int)
    ensures !Mentions([], obj, nid)
  {
  }

  ghost predicate NoneTwice(policy: seq<Rule>, nid: string -> int) {
    forall i, j :: 0 <= i < j < |policy| ==> nid(policy[i].attribute) != nid(policy[j].attribute)
  }

  /** When the policy mentions every attribute of the request, and none twice, the subject is a
      rearrangement of the request. */
  lemma SelectedPermutes(policy: seq<Rule>, req: Name, nid: string -> int)
    requires NoneTwice(policy, nid) && forall e :: e in req ==> Mentions(policy, e.obj, nid)
    ensures multiset(Selected(policy, req, nid)) == multiset(req)
  {
    forall e
      ensures multiset(Selected(policy, req, nid))[e] == multiset(req)[e]
    {
      CountSelected(policy, req, nid, e);
      if e !in req { assert multiset(req)[e] == 0; }
    }
  }

  lemma {:induction false} CountEntries(name: Name, obj: int, e: Entry)
    ensures multiset(Entries(name, obj))[e] == if e.obj == obj then multiset(name)[e] else 0
  {
    if name != [] {
      CountEntries(name[..|name| - 1], obj, e);
      assert name == name[..|name| - 1] + [name[|name| - 1]];
    }
  }

  lemma {:induction false} CountSelected(policy: seq<Rule>, req: Name, nid: string -> int, e: Entry)
    requires NoneTwice(policy, nid)
    ensures multiset(Selected(policy, req, nid))[e] == if Mentions(policy, e.obj, nid) then multiset(req)[e] else 0
  {
    hide Entries, Mentions;
    if policy == [] {
      NothingMentioned(e.obj, nid);
    } else {
      var n := |policy| - 1;
      CountSelected(policy[..n], req, nid, e);
      CountEntries(req, nid(policy[n].attribute), e);
      MentionsLast(policy, e.obj, nid);
      LastIsNew(policy, nid);
    }
  }

  lemma LastIsNew(policy: seq<Rule>, nid: string -> int)
    requires policy != [] && NoneTwice(policy, nid)
    ensures !Mentions(policy[..|policy| - 1], nid(policy[|policy| - 1].attribute), nid)
  {
  }

  // ---- the order of the subject ----

  function IsOf(obj: int): Entry -> bool { (e: Entry) => e.obj == obj }

  lemma {:induction false} EntriesPicks(name: Name, obj: int)
    ensures Picks(Entries(name, obj), name, Where(name, IsOf(obj)))
  {
    if name == [] {
      PicksNothing<Entry>(Where(name, IsOf(obj)));
    } else {
      var init, e := name[..|name| - 1], name[|name| - 1];
      assert name == init + [e];
      EntriesPicks(init, obj);
      assert Entries(init, obj) + [] == Entries(init, obj);
      PicksOneMore(Entries(init, obj), init, e, IsOf(obj));
    }
  }

  /** A rule and a request entry of its attribute, by their positions. */
  ghost predicate Meet(policy: seq<Rule>, req: Name, nid: string -> int, w: (nat, nat)) {
    w.0 < |policy| && w.1 < |req| && nid(policy[w.0].attribute) == req[w.1].obj
  }

  predicate Precedes(v: (nat, nat), w: (nat, nat)) { v.0 < w.0 || (v.0 == w.0 && v.1 < w.1) }

  /** Every meeting of a rule and an entry, the rules in order and for each rule the entries in order. */
  ghost predicate Walks(at: seq<(nat, nat)>, policy: seq<Rule>, req: Name, nid: string -> int) {
    && (forall k :: 0 <= k < |at| ==> Meet(policy, req, nid, at[k]))
    && (forall j, k :: 0 <= j < k < |at| ==> Precedes(at[j], at[k]))
    && (forall w :: Meet(policy, req, nid, w) ==> w in at)
  }

  ghost predicate Lined(subject: Name, req: Name, at: seq<(nat, nat)>) {
    |subject| == |at| && forall k :: 0 <= k < |at| ==> at[k].1 < |req| && subject[k] == req[at[k].1]
  }

  /** One rule more: its own meetings go behind the others. */
  function OfRule(rule: nat, at: seq<nat>): (w: seq<(nat, nat)>)
    ensures |w| == |at| && forall k :: 0 <= k < |at| ==> w[k] == (rule, at[k])
  {
    seq(|at|, k requires 0 <= k < |at| => (rule, at[k]))
  }

  lemma WalksOneMore(at: seq<(nat, nat)>, policy: seq<Rule>, r: Rule, req: Name, nid: string -> int, own: seq<nat>)
    requires Walks(at, policy, req, nid) && Lists(own, |req|, Where(req, IsOf(nid(r.attribute))))
    ensures Walks(at + OfRule(|policy|, own), policy + [r], req, nid)
  {
    var n, all := |policy|, at + OfRule(|policy|, own);
    forall k | 0 <= k < |all|
      ensures Meet(policy + [r], req, nid, all[k])
    {
      if k < |at| { assert Meet(policy, req, nid, at[k]); } else { assert all[k] == (n, own[k - |at|]); }
    }
    forall j, k | 0 <= j < k < |all|
      ensures Precedes(all[j], all[k])
    {
      if k >= |at| { assert all[k] == (n, own[k - |at|]); }
      if j < |at| { assert Meet(policy, req, nid, at[j]); } else { assert all[j] == (n, own[j - |at|]); }
    }
    forall w: (nat, nat) | Meet(policy + [r], req, nid, w)
      ensures w in all
    {
      if w.0 < n {
        assert Meet(policy, req, nid, w);
      } else {
        assert Where(req, IsOf(nid(r.attribute)))(w.1);
        var k :| 0 <= k < |own| && own[k] == w.1;
        assert all[|at| + k] == w;
      }
    }
  }

  lemma LinedOneMore(subject: Name, req: Name, at: seq<(nat, nat)>, rule: nat, es: Name, own: seq<nat>)
    requires Lined(subject, req, at) && At(es, req, own)
    ensures Lined(subject + es, req, at + OfRule(rule, own))
  {
  }

  ghost predicate InOrder(subject: Name, policy: seq<Rule>, req: Name, nid: string -> int) {
    exists at :: Walks(at, policy, req, nid) && Lined(subject, req, at)
  }

  lemma InOrderBy(subject: Name, policy: seq<Rule>, req: Name, nid: string -> int, at: seq<(nat, nat)>)
    requires Walks(at, policy, req, nid) && Lined(subject, req, at)
    ensures InOrder(subject, policy, req, nid)
  {
  }

  lemma InOrderOneMore(subject: Name, policy: seq<Rule>, r: Rule, req: Name, nid: string -> int)
    requires InOrder(subject, policy, req, nid)
    ensures InOrder(subject + Entries(req, nid(r.attribute)), policy + [r], req, nid)
  {
    var obj := nid(r.attribute);
    EntriesPicks(req, obj);
    var at: seq<(nat, nat)> :| Walks(at, policy, req, nid) && Lined(subject, req, at);
    var own: seq<nat> :| Lists(own, |req|, Where(req, IsOf(obj))) && At(Entries(req, obj), req, own);
    hide Walks, Lists, At, Lined, Entries, InOrder;
    WalksOneMore(at, policy, r, req, nid, own);
    LinedOneMore(subject, req, at, |policy|, Entries(req, obj), own);
    InOrderBy(subject + Entries(req, obj), policy + [r], req, nid, at + OfRule(|policy|, own));
  }

  /** The subject has one entry for each meeting of a rule and a request entry: the rules in policy
      order, and for each rule the entries in request order. */
  lemma {:induction false} SubjectInOrder(policy: seq<Rule>, req: Name, nid: string -> int)
    ensures InOrder(Selected(policy, req, nid), policy, req, nid)
  {
    if policy == [] {
      InOrderBy([], policy, req, nid, []);
    } else {
      var init, r := policy[..|policy| - 1], policy[|policy| - 1];
      assert policy == init + [r];
      SubjectInOrder(init, req, nid);
      hide InOrder, Entries;
      InOrderOneMore(Selected(init, req, nid), init, r, req, nid);
    }
  }

  /** With a policy that mentions no attribute twice: rules of earlier entries come no later. */
  lemma RulesInOrder(policy: seq<Rule>, req: Name, nid: string -> int, i: nat, j: nat, a: nat, b: nat)
    requires NoneTwice(policy, nid) && i < j < |Selected(policy, req, nid)| && a < |policy| && b < |policy|
    requires nid(policy[a].attribute) == Selected(policy, req, nid)[i].obj
    requires nid(policy[b].attribute) == Selected(policy, req, nid)[j].obj
    ensures a <= b
  {
    SubjectInOrder(policy, req, nid);
    var subject := Selected(policy, req, nid);
    var at: seq<(nat, nat)> :| Walks(at, policy, req, nid) && Lined(subject, req, at);
    assert Meet(policy, req, nid, at[i]) && Meet(policy, req, nid, at[j]) && Precedes(at[i], at[j]);
    assert at[i].0 == a && at[j].0 == b;
  }

  lemma {:induction false} EntriesConcat(x: Name, y: Name, obj: int)
    ensures Entries(x + y, obj) == Entries(x, obj) + Entries(y, obj)
  {
    if y == [] {
      assert x + y == x;
    } else {
      var init, e := y[..|y| - 1], y[|y| - 1];
      assert (x + y)[..|x + y| - 1] == x + init;
      EntriesConcat(x, init, obj);
    }
  }

  lemma EntriesSnoc(name: Name, e: Entry, obj: int)
    ensures Entries(name + [e], obj) == if e.obj == obj then Entries(name, obj) + [e] else Entries(name, obj)
  {
    assert (name + [e])[..|name|] == name;
    assert Entries(name, obj) + [] == Entries(name, obj);
  }

  lemma {:induction false} EntriesOfEntries(name: Name, o: int, obj: int)
    ensures Entries(Entries(name, o), obj) == if o == obj then Entries(name, obj) else []
  {
    if name != [] {
      var init, e := name[..|name| - 1], name[|name| - 1];
      assert name == init + [e];
      EntriesOfEntries(init, o, obj);
      hide Entries;
      EntriesSnoc(init, e, o);
      EntriesSnoc(init, e, obj);
      EntriesSnoc(Entries(init, o), e, obj);
    }
  }

  lemma {:induction false} EntriesOfSelected(policy: seq<Rule>, req: Name, nid: string -> int, obj: int)
    requires NoneTwice(policy, nid)
    ensures Entries(Selected(policy, req, nid), obj) == if Mentions(policy, obj, nid) then Entries(req, obj) else []
  {
    hide Mentions, Entries;
    if policy == [] {
      NothingMentioned(obj, nid);
      NoEntries(obj);
    } else {
      var n := |policy| - 1;
      var o := nid(policy[n].attribute);
      EntriesOfSelected(policy[..n], req, nid, obj);
      MentionsLast(policy, obj, nid);
      LastIsNew(policy, nid);
      EntriesConcat(Selected(policy[..n], req, nid), Entries(req, o), obj);
      EntriesOfEntries(req, o, obj);
    }
  }

  /** The same elements of one attribute, in the same order, at positions of the two names. */
  ghost predicate SameInOrder(x: Name, y: Name, obj: int) {
    exists s: seq<nat>, m: seq<nat> ::
      Lists(s, |x|, Where(x, IsOf(obj))) && Lists(m, |y|, Where(y, IsOf(obj))) && Matched(x, s, y, m)
  }

  ghost predicate Matched(x: Name, s: seq<nat>, y: Name, m: seq<nat>) {
    |s| == |m| && forall k :: 0 <= k < |s| ==> s[k] < |x| && m[k] < |y| && x[s[k]] == y[m[k]]
  }

  lemma SameEntries(x: Name, y: Name, obj: int)
    requires Entries(x, obj) == Entries(y, obj)
    ensures SameInOrder(x, y, obj)
  {
    EntriesPicks(x, obj);
    EntriesPicks(y, obj);
    hide Entries;
    var s: seq<nat> :| Lists(s, |x|, Where(x, IsOf(obj))) && At(Entries(x, obj), x, s);
    var m: seq<nat> :| Lists(m, |y|, Where(y, IsOf(obj))) && At(Entries(y, obj), y, m);
    hide Lists;
    assert Matched(x, s, y, m);
  }

  /** And for every attribute mentioned the entries of the subject are those of the request, in request
      order. */
  lemma AttributeInOrder(policy: seq<Rule>, req: Name, nid: string -> int, a: nat)
    requires NoneTwice(policy, nid) && a < |policy|
    ensures SameInOrder(Selected(policy, req, nid), req, nid(policy[a].attribute))
  {
    assert Mentions(policy, nid(policy[a].attribute), nid);
    EntriesOfSelected(policy, req, nid, nid(policy[a].attribute));
    SameEntries(Selected(policy, req, nid), req, nid(policy[a].attribute));
  }

  /** The only values of a rule that can be met. */
  lemma KindsKnown(value: string)
    ensures KindOf(value) == Unknown <==> value != "optional" && value != "supplied" && value != "match"
  {
    KindOfLiterals();
  }
}
