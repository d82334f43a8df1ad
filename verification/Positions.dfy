/** Lists made of the elements at certain positions of another list, in order. */
module Positions {

  /** In increasing order exactly the positions below `n` that satisfy `p`. */
  ghost predicate Lists(at: seq<nat>, n: nat, p: nat -> bool) {
    && (forall k :: 0 <= k < |at| ==> at[k] < n && p(at[k]))
    && (forall j, k :: 0 <= j < k < |at| ==> at[j] < at[k])
    && (forall i :: 0 <= i < n && p(i) ==> i in at)
  }

  ghost predicate At<T>(out: seq<T>, src: seq<T>, at: seq<nat>) {
    |out| == |at| && forall k :: 0 <= k < |at| ==> at[k] < |src| && out[k] == src[at[k]]
  }

  /** The elements of `src` at exactly those positions, in order. */
  ghost predicate Picks<T>(out: seq<T>, src: seq<T>, p: nat -> bool) {
    exists at :: Lists(at, |src|, p) && At(out, src, at)
  }

  lemma ListsNothing(p: nat -> bool)
    ensures Lists([], 0, p)
  {
  }

  lemma ListsSnoc(at: seq<nat>, n: nat, p: nat -> bool, q: nat -> bool)
    requires Lists(at, n, p) && forall i :: 0 <= i < n ==> (p(i) <==> q(i))
    ensures Lists(if q(n) then at + [n] else at, n + 1, q)
  {
    if q(n) {
      var b := at + [n];
      assert b[|at|] == n;
      forall i | 0 <= i <= n && q(i)
        ensures i in b
      {
        if i < n { assert p(i) && i in at; }
      }
    }
  }

  lemma PicksNothing<T>(p: nat -> bool)
    ensures Picks<T>([], [], p)
  {
    ListsNothing(p);
    assert At<T>([], [], []);
  }

  lemma PicksSnoc<T>(out: seq<T>, src: seq<T>, x: T, p: nat -> bool, q: nat -> bool)
    requires Picks(out, src, p) && forall i :: 0 <= i < |src| ==> (p(i) <==> q(i))
    ensures Picks(if q(|src|) then out + [x] else out, src + [x], q)
  {
    hide Lists, At;
    var at: seq<nat> :| Lists(at, |src|, p) && At(out, src, at);
    hide Picks;
    ListsSnoc(at, |src|, p, q);
    AtSnoc(out, src, x, at);
    PicksBy(if q(|src|) then out + [x] else out, src + [x], q, if q(|src|) then at + [|src|] else at);
  }

  lemma PicksBy<T>(out: seq<T>, src: seq<T>, p: nat -> bool, at: seq<nat>)
    requires Lists(at, |src|, p) && At(out, src, at)
    ensures Picks(out, src, p)
  {
  }

  lemma AtSnoc<T>(out: seq<T>, src: seq<T>, x: T, at: seq<nat>)
    requires At(out, src, at)
    ensures At(out, src + [x], at) && At(out + [x], src + [x], at + [|src|])
  {
    assert (src + [x])[|src|] == x && forall i :: 0 <= i < |src| ==> (src + [x])[i] == src[i];
  }

  /** The positions of the elements that satisfy `keep`. */
  function Where<T>(src: seq<T>, keep: T -> bool): nat -> bool {
    (i: nat) => i < |src| && keep(src[i])
  }

  /** One more element, kept or not. */
  lemma PicksOneMore<T>(out: seq<T>, src: seq<T>, x: T, keep: T -> bool)
    requires Picks(out, src, Where(src, keep))
    ensures Picks(if keep(x) then out + [x] else out, src + [x], Where(src + [x], keep))
  {
    PicksSnoc(out, src, x, Where(src, keep), Where(src + [x], keep));
  }

  function Both(p: nat -> bool, q: nat -> bool): nat -> bool {
    (i: nat) => p(i) && q(i)
  }

  /** Positions among positions. */
  function Composed(at: seq<nat>, again: seq<nat>): (both: seq<nat>)
    requires forall k :: 0 <= k < |again| ==> again[k] < |at|
    ensures |both| == |again| && forall k :: 0 <= k < |both| ==> both[k] == at[again[k]]
  {
    seq(|again|, k requires 0 <= k < |again| => at[again[k]])
  }

  lemma ListsTwice<T>(mid: seq<T>, src: seq<T>, p: nat -> bool, keep: T -> bool, at: seq<nat>, again: seq<nat>)
    requires Lists(at, |src|, p) && At(mid, src, at) && Lists(again, |mid|, Where(mid, keep))
    ensures Lists(Composed(at, again), |src|, Both(p, Where(src, keep)))
  {
    var both := Composed(at, again);
    forall i | 0 <= i < |src| && p(i) && keep(src[i])
      ensures i in both
    {
      var k :| 0 <= k < |at| && at[k] == i;
      assert Where(mid, keep)(k);
      var m :| 0 <= m < |again| && again[m] == k;
      assert both[m] == i;
    }
  }

  /** Picking among the elements picked. */
  lemma PicksTwice<T>(out: seq<T>, mid: seq<T>, src: seq<T>, p: nat -> bool, keep: T -> bool)
    requires Picks(mid, src, p) && Picks(out, mid, Where(mid, keep))
    ensures Picks(out, src, Both(p, Where(src, keep)))
  {
    var at: seq<nat> :| Lists(at, |src|, p) && At(mid, src, at);
    var again: seq<nat> :| Lists(again, |mid|, Where(mid, keep)) && At(out, mid, again);
    ListsTwice(mid, src, p, keep, at, again);
    assert At(out, src, Composed(at, again));
  }
}
