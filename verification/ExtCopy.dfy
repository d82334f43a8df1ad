/** copy_extensions: the extensions of the request go into the certificate. */
module ExtCopy {
  import opened Deletion
  import opened Positions

  datatype Ext = Ext(typ: int, value: string)

  function Typ(e: Ext): int { e.typ }

  datatype Mode = CopyNone | CopyAdd | CopyAll

  predicate Has(x: seq<Ext>, typ: int) { exists i :: 0 <= i < |x| && x[i].typ == typ }

  /** X509_get_ext_by_OBJ from the start: the first extension of the type, or -1. */
  function Find(x: seq<Ext>, typ: int): (i: int)
    ensures -1 <= i < |x| && (i >= 0 ==> x[i].typ == typ)
    ensures forall k :: 0 <= k < (if i < 0 then |x| else i) ==> x[k].typ != typ
    ensures i >= 0 <==> Has(x, typ)
  {
    if x == [] then -1
    else
      var i := Find(x[..|x| - 1], typ);
      if i >= 0 then i else if x[|x| - 1].typ == typ then |x| - 1 else -1
  }

  /** All extensions but those of the request's types, in order. */
  function Kept(cert: seq<Ext>, req: seq<Ext>): seq<Ext> {
    if cert == [] then []
    else Kept(cert[..|cert| - 1], req) + if Has(req, cert[|cert| - 1].typ) then [] else [cert[|cert| - 1]]
  }

  /** Each request extension that no later one of its type replaces, in request order. */
  function LastOfEach(req: seq<Ext>): seq<Ext> {
    if req == [] then []
    else Without(LastOfEach(req[..|req| - 1]), Typ, req[|req| - 1].typ) + [req[|req| - 1]]
  }

  /** Each request extension of a type found neither in the certificate nor earlier in the request. */
  function FirstOfNew(cert: seq<Ext>, req: seq<Ext>): seq<Ext> {
    if req == [] then []
    else
      var e := req[|req| - 1];
      FirstOfNew(cert, req[..|req| - 1]) + if Has(cert, e.typ) || Has(req[..|req| - 1], e.typ) then [] else [e]
  }

  lemma HasSnoc(init: seq<Ext>, e: Ext, typ: int)
    ensures Has(init + [e], typ) <==> Has(init, typ) || e.typ == typ
  {
    if i :| 0 <= i < |init| && init[i].typ == typ { assert (init + [e])[i] == init[i]; }
    if e.typ == typ { assert (init + [e])[|init|] == e; }
  }

  lemma HasConcat(x: seq<Ext>, y: seq<Ext>, typ: int)
    ensures Has(x + y, typ) <==> Has(x, typ) || Has(y, typ)
  {
    if i :| 0 <= i < |x| && x[i].typ == typ { assert (x + y)[i] == x[i]; }
    if i :| 0 <= i < |y| && y[i].typ == typ { assert (x + y)[|x| + i] == y[i]; }
    if i :| 0 <= i < |x + y| && (x + y)[i].typ == typ { assert i < |x| || y[i - |x|].typ == typ; }
  }

  lemma KeptSnoc(cert: seq<Ext>, c: Ext, req: seq<Ext>)
    ensures Kept(cert + [c], req) == if Has(req, c.typ) then Kept(cert, req) else Kept(cert, req) + [c]
  {
    assert (cert + [c])[..|cert|] == cert;
    assert Kept(cert, req) + [] == Kept(cert, req);
  }

  lemma LastSnoc(req: seq<Ext>, e: Ext)
    ensures LastOfEach(req + [e]) == Without(LastOfEach(req), Typ, e.typ) + [e]
  {
    assert (req + [e])[..|req|] == req;
  }

  lemma NewSnoc(cert: seq<Ext>, req: seq<Ext>, e: Ext)
    ensures FirstOfNew(cert, req + [e])
            == if Has(cert, e.typ) || Has(req, e.typ) then FirstOfNew(cert, req) else FirstOfNew(cert, req) + [e]
  {
    assert (req + [e])[..|req|] == req;
    assert FirstOfNew(cert, req) + [] == FirstOfNew(cert, req);
  }

  /** One more request extension takes its type out of what is kept. */
  lemma {:induction false} KeptOneMore(cert: seq<Ext>, req: seq<Ext>, e: Ext)
    ensures Without(Kept(cert, req), Typ, e.typ) == Kept(cert, req + [e])
  {
    if cert != [] {
      var init, c := cert[..|cert| - 1], cert[|cert| - 1];
      assert cert == init + [c];
      KeptOneMore(init, req, e);
      hide Kept, Without, Has;
      HasSnoc(req, e, c.typ);
      KeptSnoc(init, c, req);
      KeptSnoc(init, c, req + [e]);
      WithoutSnoc(Kept(init, req), c, Typ, e.typ);
    }
  }

  lemma {:induction false} KeptAll(cert: seq<Ext>)
    ensures Kept(cert, []) == cert
  {
    if cert == [] {
    } else {
      hide Kept;
      var init, c := cert[..|cert| - 1], cert[|cert| - 1];
      assert cert == init + [c];
      KeptAll(init);
      KeptSnoc(init, c, []);
    }
  }

  /** One copyall round: the type leaves the certificate, the extension comes last. */
  lemma ReplaceStep(cert: seq<Ext>, req: seq<Ext>, e: Ext)
    ensures Without(Kept(cert, req) + LastOfEach(req), Typ, e.typ) + [e]
            == Kept(cert, req + [e]) + LastOfEach(req + [e])
  {
    hide Kept, Without, LastOfEach, Has;
    WithoutConcat(Kept(cert, req), LastOfEach(req), Typ, e.typ);
    KeptOneMore(cert, req, e);
    LastSnoc(req, e);
  }

  /** After copying, the certificate has its own types and those of the request so far. */
  lemma {:induction false} AddedTypes(cert: seq<Ext>, req: seq<Ext>, typ: int)
    ensures Has(cert + FirstOfNew(cert, req), typ) <==> Has(cert, typ) || Has(req, typ)
  {
    HasConcat(cert, FirstOfNew(cert, req), typ);
    if req != [] {
      var init, e := req[..|req| - 1], req[|req| - 1];
      assert req == init + [e];
      AddedTypes(cert, init, typ);
      HasConcat(cert, FirstOfNew(cert, init), typ);
      NewSnoc(cert, init, e);
      hide FirstOfNew, Has;
      HasSnoc(init, e, typ);
      HasSnoc(FirstOfNew(cert, init), e, typ);
    }
  }

  /** One copy round: the extension is added exactly when its type is not there yet. */
  lemma AddStep(cert: seq<Ext>, req: seq<Ext>, e: Ext)
    ensures cert + FirstOfNew(cert, req + [e])
            == if Has(cert + FirstOfNew(cert, req), e.typ) then cert + FirstOfNew(cert, req)
               else (cert + FirstOfNew(cert, req)) + [e]
  {
    AddedTypes(cert, req, e.typ);
    NewSnoc(cert, req, e);
    hide FirstOfNew, Has;
    assert cert + (FirstOfNew(cert, req) + [e]) == (cert + FirstOfNew(cert, req)) + [e];
  }

  /** What copying leaves: copyall keeps the other types in order and gets the last request
      extension of each type; copy keeps everything and gets the first of each new type. */
  function Copied(cert: seq<Ext>, req: seq<Ext>, mode: Mode): seq<Ext> {
    match mode
    case CopyNone => cert
    case CopyAll => Kept(cert, req) + LastOfEach(req)
    case CopyAdd => cert + FirstOfNew(cert, req)
  }

  lemma CopiedNothing(cert: seq<Ext>, mode: Mode)
    ensures Copied(cert, [], mode) == cert
  {
    KeptAll(cert);
  }

  lemma CopiedOneMore(cert: seq<Ext>, req: seq<Ext>, e: Ext, mode: Mode)
    requires mode != CopyNone
    ensures Copied(cert, req + [e], mode)
            == if mode == CopyAll then Without(Copied(cert, req, mode), Typ, e.typ) + [e]
               else if Has(Copied(cert, req, mode), e.typ) then Copied(cert, req, mode)
               else Copied(cert, req, mode) + [e]
  {
    hide Kept, Without, LastOfEach, FirstOfNew, Has;
    if mode == CopyAll { ReplaceStep(cert, req, e); } else { AddStep(cert, req, e); }
  }

  /** A certificate under construction: its list of extensions is changed in place. */
  class Certificate {
    var extensions: seq<Ext>

    /** X509_delete_ext */
    method DeleteExt(idx: nat)
      requires idx < |extensions|
      modifies this
      ensures extensions == old(extensions)[..idx] + old(extensions)[idx + 1..]
    {
      extensions := extensions[..idx] + extensions[idx + 1..];
    }

    /** The inner loop: every extension of the type is deleted, the first one found each time. */
    method DeleteType(typ: int)
      requires Has(extensions, typ)
      modifies this
      ensures extensions == Without(old(extensions), Typ, typ)
    {
      var idx := Find(extensions, typ);
      while idx != -1
        invariant idx == Find(extensions, typ)
        invariant Without(extensions, Typ, typ) == Without(old(extensions), Typ, typ)
        decreases |extensions|
      {
        hide Without;
        WithoutDeleted(extensions, Typ, typ, idx);
        DeleteExt(idx);
        idx := Find(extensions, typ);
      }
      WithoutNone(extensions, Typ, typ);
    }

    method CopyExtensions(req: seq<Ext>, mode: Mode)
      modifies this
      ensures extensions == Copied(old(extensions), req, mode)
    {
      hide Copied, Without, Has, Find;
      if mode == CopyNone {
        NothingCopied(extensions, req);
        return;
      }
      CopiedNothing(extensions, mode);
      for i := 0 to |req|
        invariant extensions == Copied(old(extensions), req[..i], mode)
      {
        var ext := req[i];
        assert req[..i + 1] == req[..i] + [ext];
        CopiedOneMore(old(extensions), req[..i], ext, mode);
        var idx := Find(extensions, ext.typ);
        if idx != -1 {
          if mode == CopyAdd {
            continue;
          }
          DeleteType(ext.typ);
        } else {
          WithoutNone(extensions, Typ, ext.typ);
        }
        extensions := extensions + [ext];
      }
      assert req[..|req|] == req;
    }
  }

  lemma NothingCopied(cert: seq<Ext>, req: seq<Ext>)
    ensures Copied(cert, req, CopyNone) == cert
  {}

  // ---- what the results mean ----

  /** How often a type occurs. */
  function Count(x: seq<Ext>, typ: int): nat {
    if x == [] then 0 else Count(x[..|x| - 1], typ) + if x[|x| - 1].typ == typ then 1 else 0
  }

  lemma CountSnoc(x: seq<Ext>, e: Ext, typ: int)
    ensures Count(x + [e], typ) == Count(x, typ) + if e.typ == typ then 1 else 0
  {
    assert (x + [e])[..|x|] == x;
  }

  lemma {:induction false} CountConcat(x: seq<Ext>, y: seq<Ext>, typ: int)
    ensures Count(x + y, typ) == Count(x, typ) + Count(y, typ)
  {
    if y == [] {
      assert x + y == x;
    } else {
      assert (x + y)[..|x + y| - 1] == x + y[..|y| - 1];
      CountConcat(x, y[..|y| - 1], typ);
    }
  }

  lemma {:induction false} CountPositive(x: seq<Ext>, typ: int)
    ensures Count(x, typ) > 0 <==> Has(x, typ)
  {
    if x != [] {
      var init, e := x[..|x| - 1], x[|x| - 1];
      assert x == init + [e];
      CountPositive(init, typ);
      hide Count, Has;
      HasSnoc(init, e, typ);
      CountSnoc(init, e, typ);
    }
  }

  lemma {:induction false} CountWithout(x: seq<Ext>, t: int, typ: int)
    ensures Count(Without(x, Typ, t), typ) == if t == typ then 0 else Count(x, typ)
  {
    if x == [] {
    } else {
      hide Count, Without;
      var init, e := x[..|x| - 1], x[|x| - 1];
      assert x == init + [e];
      CountWithout(init, t, typ);
      CountSnoc(init, e, typ);
      WithoutSnoc(init, e, Typ, t);
      if e.typ != t { CountSnoc(Without(init, Typ, t), e, typ); }
    }
  }

  lemma {:induction false} CountKept(cert: seq<Ext>, req: seq<Ext>, typ: int)
    ensures Count(Kept(cert, req), typ) == if Has(req, typ) then 0 else Count(cert, typ)
  {
    if cert == [] {
    } else {
      hide Count, Kept, Has;
      var init, c := cert[..|cert| - 1], cert[|cert| - 1];
      assert cert == init + [c];
      CountKept(init, req, typ);
      CountSnoc(init, c, typ);
      KeptSnoc(init, c, req);
      if !Has(req, c.typ) { CountSnoc(Kept(init, req), c, typ); }
    }
  }

  lemma {:induction false} CountLast(req: seq<Ext>, typ: int)
    ensures Count(LastOfEach(req), typ) == if Has(req, typ) then 1 else 0
  {
    if req != [] {
      var init, e := req[..|req| - 1], req[|req| - 1];
      assert req == init + [e];
      CountLast(init, typ);
      hide Count, LastOfEach, Has;
      LastSnoc(init, e);
      HasSnoc(init, e, typ);
      CountWithout(LastOfEach(init), e.typ, typ);
      CountSnoc(Without(LastOfEach(init), Typ, e.typ), e, typ);
    }
  }

  lemma {:induction false} CountNew(cert: seq<Ext>, req: seq<Ext>, typ: int)
    ensures Count(FirstOfNew(cert, req), typ) == if Has(req, typ) && !Has(cert, typ) then 1 else 0
  {
    if req != [] {
      var init, e := req[..|req| - 1], req[|req| - 1];
      assert req == init + [e];
      CountNew(cert, init, typ);
      hide Count, FirstOfNew, Has;
      NewSnoc(cert, init, e);
      HasSnoc(init, e, typ);
      CountSnoc(FirstOfNew(cert, init), e, typ);
    }
  }

  /** With copyall every type of the request occurs exactly once and every other type as often as
      before; with copy no type that was there changes, and a new type occurs exactly once. */
  lemma CopiedCounts(cert: seq<Ext>, req: seq<Ext>, typ: int)
    ensures Count(Copied(cert, req, CopyAll), typ) == if Has(req, typ) then 1 else Count(cert, typ)
    ensures Count(Copied(cert, req, CopyAdd), typ)
            == if Has(cert, typ) then Count(cert, typ) else if Has(req, typ) then 1 else 0
  {
    hide Count, Kept, LastOfEach, FirstOfNew, Has;
    CountConcat(Kept(cert, req), LastOfEach(req), typ);
    CountKept(cert, req, typ);
    CountLast(req, typ);
    CountConcat(cert, FirstOfNew(cert, req), typ);
    CountNew(cert, req, typ);
    CountPositive(cert, typ);
  }

  lemma {:induction false} LastKept(req: seq<Ext>, i: nat)
    requires i < |req| && !Has(req[i + 1..], req[i].typ)
    ensures req[i] in LastOfEach(req)
    decreases |req|
  {
    var init, e := req[..|req| - 1], req[|req| - 1];
    assert req == init + [e];
    LastSnoc(init, e);
    hide Without, LastOfEach, Has;
    if i < |init| {
      assert req[i + 1..] == init[i + 1..] + [e];
      HasSnoc(init[i + 1..], e, req[i].typ);
      LastKept(init, i);
      WithoutMembers(LastOfEach(init), Typ, e.typ, req[i]);
    }
  }

  lemma {:induction false} FirstAdded(cert: seq<Ext>, req: seq<Ext>, i: nat)
    requires i < |req| && !Has(cert, req[i].typ) && !Has(req[..i], req[i].typ)
    ensures req[i] in FirstOfNew(cert, req)
  {
    var init, e := req[..|req| - 1], req[|req| - 1];
    assert req == init + [e];
    NewSnoc(cert, init, e);
    hide FirstOfNew, Has;
    if i < |init| {
      assert req[..i] == init[..i];
      FirstAdded(cert, init, i);
    } else {
      assert req[..i] == init;
    }
  }

  /** The one extension of a request type is the request's last of that type after copyall, and its
      first of that type after copy when the certificate had none. */
  lemma WhoWins(cert: seq<Ext>, req: seq<Ext>, i: nat)
    requires i < |req|
    ensures !Has(req[i + 1..], req[i].typ) ==> req[i] in Copied(cert, req, CopyAll)
    ensures !Has(cert, req[i].typ) && !Has(req[..i], req[i].typ) ==> req[i] in Copied(cert, req, CopyAdd)
  {
    hide Has;
    if !Has(req[i + 1..], req[i].typ) { LastKept(req, i); }
    if !Has(cert, req[i].typ) && !Has(req[..i], req[i].typ) { FirstAdded(cert, req, i); }
  }

  lemma {:induction false} KeptConcat(x: seq<Ext>, y: seq<Ext>, req: seq<Ext>)
    ensures Kept(x + y, req) == Kept(x, req) + Kept(y, req)
  {
    if y == [] {
      assert x + y == x;
    } else {
      var init, c := y[..|y| - 1], y[|y| - 1];
      assert y == init + [c] && x + y == (x + init) + [c];
      KeptConcat(x, init, req);
      hide Kept, Has;
      KeptSnoc(x + init, c, req);
      KeptSnoc(init, c, req);
    }
  }

  lemma {:induction false} KeptAgain(cert: seq<Ext>, req: seq<Ext>)
    ensures Kept(Kept(cert, req), req) == Kept(cert, req)
  {
    if cert != [] {
      var init, c := cert[..|cert| - 1], cert[|cert| - 1];
      assert cert == init + [c];
      KeptAgain(init, req);
      hide Kept, Has;
      KeptSnoc(init, c, req);
      KeptSnoc(Kept(init, req), c, req);
    }
  }

  /** Nothing is kept of a list whose types are all the request's. */
  lemma {:induction false} KeptNothing(x: seq<Ext>, req: seq<Ext>)
    requires forall e :: e in x ==> Has(req, e.typ)
    ensures Kept(x, req) == []
  {
    if x != [] { KeptNothing(x[..|x| - 1], req); }
  }

  lemma LastAreOfRequest(req: seq<Ext>, e: Ext)
    requires e in LastOfEach(req)
    ensures Has(req, e.typ)
  {
    hide Count, Has, LastOfEach;
    CountLast(req, e.typ);
    CountPositive(LastOfEach(req), e.typ);
    InHas(LastOfEach(req), e);
  }

  lemma InHas(x: seq<Ext>, e: Ext)
    requires e in x
    ensures Has(x, e.typ)
  {}

  lemma {:induction false} NothingNew(cert: seq<Ext>, req: seq<Ext>)
    requires forall e :: e in req ==> Has(cert, e.typ)
    ensures FirstOfNew(cert, req) == []
  {
    if req != [] { NothingNew(cert, req[..|req| - 1]); }
  }

  /** Copying the same request a second time changes nothing, in every mode. */
  lemma CopyTwice(cert: seq<Ext>, req: seq<Ext>, mode: Mode)
    ensures Copied(Copied(cert, req, mode), req, mode) == Copied(cert, req, mode)
  {
    hide Kept, LastOfEach, FirstOfNew, Has, Without;
    match mode
    case CopyNone =>
    case CopyAll =>
      KeptConcat(Kept(cert, req), LastOfEach(req), req);
      KeptAgain(cert, req);
      forall e | e in LastOfEach(req) ensures Has(req, e.typ) { LastAreOfRequest(req, e); }
      KeptNothing(LastOfEach(req), req);
    case CopyAdd =>
      var x := cert + FirstOfNew(cert, req);
      forall e | e in req ensures Has(x, e.typ) {
        InHas(req, e);
        AddedTypes(cert, req, e.typ);
      }
      NothingNew(x, req);
  }

  // ---- the order of what is copied ----

  ghost function NotOf(req: seq<Ext>): Ext -> bool { (e: Ext) => !Has(req, e.typ) }

  lemma {:induction false} KeptPicks(cert: seq<Ext>, req: seq<Ext>)
    ensures Picks(Kept(cert, req), cert, Where(cert, NotOf(req)))
  {
    if cert == [] {
      PicksNothing<Ext>(Where(cert, NotOf(req)));
    } else {
      var init, c := cert[..|cert| - 1], cert[|cert| - 1];
      assert cert == init + [c];
      KeptPicks(init, req);
      KeptSnoc(init, c, req);
      hide Kept, Has;
      PicksOneMore(Kept(init, req), init, c, NotOf(req));
    }
  }

  /** The positions of the last extension of each type. */
  ghost function LastOfType(req: seq<Ext>): nat -> bool {
    (i: nat) => i < |req| && !Has(req[i + 1..], req[i].typ)
  }

  lemma LastOfTypeSnoc(init: seq<Ext>, e: Ext, i: nat)
    requires i < |init|
    ensures LastOfType(init + [e])(i) <==> LastOfType(init)(i) && init[i].typ != e.typ
  {
    assert (init + [e])[i + 1..] == init[i + 1..] + [e];
    HasSnoc(init[i + 1..], e, init[i].typ);
  }

  lemma LastOfTypeSteps(init: seq<Ext>, e: Ext)
    ensures var p, q := Both(LastOfType(init), Where(init, Differs(Typ, e.typ))), LastOfType(init + [e]);
            q(|init|) && forall i :: 0 <= i < |init| ==> (p(i) <==> q(i))
  {
    var p, q := Both(LastOfType(init), Where(init, Differs(Typ, e.typ))), LastOfType(init + [e]);
    assert q(|init|) by { assert (init + [e])[|init| + 1..] == []; }
    forall i: nat | i < |init|
      ensures p(i) <==> q(i)
    {
      LastOfTypeSnoc(init, e, i);
    }
  }

  lemma LastPicksStep(init: seq<Ext>, e: Ext)
    requires Picks(LastOfEach(init), init, LastOfType(init))
    ensures Picks(LastOfEach(init + [e]), init + [e], LastOfType(init + [e]))
  {
    hide LastOfEach, Without, Has, Picks, LastOfType, Both;
    var old_ := LastOfEach(init);
    var others := Without(old_, Typ, e.typ);
    var p, q := Both(LastOfType(init), Where(init, Differs(Typ, e.typ))), LastOfType(init + [e]);
    LastSnoc(init, e);
    LastOfTypeSteps(init, e);
    WithoutPicks(old_, Typ, e.typ);
    PicksTwice(others, old_, init, LastOfType(init), Differs(Typ, e.typ));
    PicksSnoc(others, init, e, p, q);
  }

  lemma {:induction false} LastPicks(req: seq<Ext>)
    ensures Picks(LastOfEach(req), req, LastOfType(req))
  {
    if req == [] {
      PicksNothing<Ext>(LastOfType(req));
    } else {
      var init, e := req[..|req| - 1], req[|req| - 1];
      assert req == init + [e];
      LastPicks(init);
      LastPicksStep(init, e);
    }
  }

  /** The positions of the first extension of each type that the certificate does not have. */
  ghost function FirstOfType(cert: seq<Ext>, req: seq<Ext>): nat -> bool {
    (i: nat) => i < |req| && !Has(cert, req[i].typ) && !Has(req[..i], req[i].typ)
  }

  lemma {:induction false} NewPicks(cert: seq<Ext>, req: seq<Ext>)
    ensures Picks(FirstOfNew(cert, req), req, FirstOfType(cert, req))
  {
    if req == [] {
      PicksNothing<Ext>(FirstOfType(cert, req));
    } else {
      var init, e := req[..|req| - 1], req[|req| - 1];
      assert req == init + [e];
      NewPicks(cert, init);
      NewSnoc(cert, init, e);
      hide FirstOfNew, Has;
      assert forall i :: 0 <= i < |init| ==> req[..i] == init[..i];
      assert req[..|init|] == init;
      PicksSnoc(FirstOfNew(cert, init), init, e, FirstOfType(cert, init), FirstOfType(cert, req));
    }
  }

  /** What is left of the certificate's own extensions comes first, in its order, and what is taken from
      the request comes last, in the order of the request. */
  lemma CopiedInOrder(cert: seq<Ext>, req: seq<Ext>)
    ensures var x := Copied(cert, req, CopyAll);
            exists n: nat :: n <= |x| && Picks(x[..n], cert, Where(cert, NotOf(req)))
                             && Picks(x[n..], req, LastOfType(req))
    ensures var x := Copied(cert, req, CopyAdd);
            |cert| <= |x| && x[..|cert|] == cert && Picks(x[|cert|..], req, FirstOfType(cert, req))
    ensures Copied(cert, req, CopyNone) == cert
  {
    KeptPicks(cert, req);
    LastPicks(req);
    NewPicks(cert, req);
    hide Kept, LastOfEach, FirstOfNew, Has, Picks;
    var n, x := |Kept(cert, req)|, Copied(cert, req, CopyAll);
    assert x[..n] == Kept(cert, req) && x[n..] == LastOfEach(req);
  }
}
