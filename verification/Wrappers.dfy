/** Result shapes shared by every module. Which error a failing call reports is not modelled. */
module Wrappers {
  datatype Option<+T> = None | Some(value: T)

  // What a loop that pushes to a vector has found so far, in front of what the rest of the input gives.

  ghost function Prefixed<T>(front: seq<T>, rest: Option<seq<T>>): Option<seq<T>> {
    match rest case None => None case Some(r) => Some(front + r)
  }

  lemma {:induction false} PrefixedNothing<T>(rest: Option<seq<T>>)
    ensures Prefixed([], rest) == rest
  {
    if rest.Some? {
      assert [] + rest.value == rest.value;
    }
  }

  lemma {:induction false} PrefixedTwice<T>(front: seq<T>, middle: seq<T>, rest: Option<seq<T>>)
    ensures Prefixed(front, Prefixed(middle, rest)) == Prefixed(front + middle, rest)
  {
    if rest.Some? {
      assert front + (middle + rest.value) == (front + middle) + rest.value;
    }
  }

  lemma {:induction false} PrefixedMore<T>(front: seq<T>, x: T, rest: Option<seq<T>>)
    ensures Prefixed(front, match rest case None => None case Some(r) => Some([x] + r)) == Prefixed(front + [x], rest)
  {
    PrefixedTwice(front, [x], rest);
  }

  lemma {:induction false} PrefixedEnd<T>(front: seq<T>)
    ensures Prefixed(front, Some([])) == Some(front)
  {
    assert front + [] == front;
  }

  /** The same with a cursor beside the vector. */
  ghost function PrefixedAt<T, C>(front: seq<T>, rest: Option<(seq<T>, C)>): Option<(seq<T>, C)> {
    match rest case None => None case Some((r, c)) => Some((front + r, c))
  }

  lemma {:induction false} PrefixedAtNothing<T, C>(rest: Option<(seq<T>, C)>)
    ensures PrefixedAt([], rest) == rest
  {
    if rest.Some? {
      assert [] + rest.value.0 == rest.value.0;
    }
  }

  lemma {:induction false} PrefixedAtMore<T, C>(front: seq<T>, x: T, rest: Option<(seq<T>, C)>)
    ensures PrefixedAt(front, match rest case None => None case Some((r, c)) => Some(([x] + r, c))) == PrefixedAt(front + [x], rest)
  {
    if rest.Some? {
      assert front + ([x] + rest.value.0) == (front + [x]) + rest.value.0;
    }
  }

  lemma {:induction false} PrefixedAtEnd<T, C>(front: seq<T>, c: C)
    ensures PrefixedAt(front, Some(([], c))) == Some((front, c))
  {
    assert front + [] == front;
  }
}
