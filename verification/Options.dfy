/** A value that may be absent: a NULL pointer or a failed conversion. */
module Options {
  datatype Option<+T> = None | Some(value: T)

  /** What was found before, in front of what is found from here on. */
  function Prepend<T>(s: seq<T>, r: Option<seq<T>>): (all: Option<seq<T>>)
    ensures all.Some? <==> r.Some?
  {
    if r.None? then None else Some(s + r.value)
  }

  lemma PrependNothing<T>(r: Option<seq<T>>)
    ensures Prepend([], r) == r
  {
    if r.Some? { assert [] + r.value == r.value; }
  }

  lemma PrependTwice<T>(s: seq<T>, t: seq<T>, r: Option<seq<T>>)
    ensures Prepend(s, Prepend(t, r)) == Prepend(s + t, r)
  {
    if r.Some? { assert s + (t + r.value) == (s + t) + r.value; }
  }

  lemma PrependSome<T>(s: seq<T>, t: seq<T>)
    ensures Prepend(s, Some(t)) == Some(s + t)
  {
  }
}
