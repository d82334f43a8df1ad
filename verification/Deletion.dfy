/** Lists from which every element with one key is deleted. */
module Deletion {
  import opened Positions

  /** The elements with another key, in order. */
  function Without<T>(x: seq<T>, key: T -> int, k: int): seq<T> {
    if x == [] then []
    else Without(x[..|x| - 1], key, k) + if key(x[|x| - 1]) == k then [] else [x[|x| - 1]]
  }

  /** Deleting one element with the key brings the list closer to that. */
  lemma {:induction false} WithoutDeleted<T>(x: seq<T>, key: T -> int, k: int, i: nat)
    requires i < |x| && key(x[i]) == k
    ensures Without(x[..i] + x[i + 1..], key, k) == Without(x, key, k)
  {
    var n := |x| - 1;
    if i < n {
      WithoutDeleted(x[..n], key, k, i);
      assert (x[..i] + x[i + 1..])[..n - 1] == x[..n][..i] + x[..n][i + 1..];
    } else {
      assert x[..i] + x[i + 1..] == x[..n];
    }
  }

  lemma {:induction false} WithoutNone<T>(x: seq<T>, key: T -> int, k: int)
    requires forall i :: 0 <= i < |x| ==> key(x[i]) != k
    ensures Without(x, key, k) == x
  {
    if x != [] {
      WithoutNone(x[..|x| - 1], key, k);
      assert x == x[..|x| - 1] + [x[|x| - 1]];
    }
  }

  lemma {:induction false} WithoutConcat<T>(x: seq<T>, y: seq<T>, key: T -> int, k: int)
    ensures Without(x + y, key, k) == Without(x, key, k) + Without(y, key, k)
  {
    if y == [] {
      assert x + y == x;
    } else {
      assert (x + y)[..|x + y| - 1] == x + y[..|y| - 1];
      WithoutConcat(x, y[..|y| - 1], key, k);
    }
  }

  lemma WithoutSnoc<T>(x: seq<T>, e: T, key: T -> int, k: int)
    ensures Without(x + [e], key, k) == if key(e) == k then Without(x, key, k) else Without(x, key, k) + [e]
  {
    assert (x + [e])[..|x|] == x;
    assert Without(x, key, k) + [] == Without(x, key, k);
  }

  lemma {:induction false} WithoutMembers<T>(x: seq<T>, key: T -> int, k: int, e: T)
    ensures e in Without(x, key, k) <==> e in x && key(e) != k
  {
    if x != [] {
      WithoutMembers(x[..|x| - 1], key, k, e);
      assert x == x[..|x| - 1] + [x[|x| - 1]];
    }
  }

  function Differs<T>(key: T -> int, k: int): T -> bool { (e: T) => key(e) != k }

  /** What is left are exactly the elements with another key, in their order. */
  lemma {:induction false} WithoutPicks<T>(x: seq<T>, key: T -> int, k: int)
    ensures Picks(Without(x, key, k), x, Where(x, Differs(key, k)))
  {
    if x == [] {
      PicksNothing<T>(Where(x, Differs(key, k)));
    } else {
      var n := |x| - 1;
      assert x == x[..n] + [x[n]];
      WithoutPicks(x[..n], key, k);
      WithoutSnoc(x[..n], x[n], key, k);
      hide Without;
      PicksOneMore(Without(x[..n], key, k), x[..n], x[n], Differs(key, k));
    }
  }
}
