/** Option and Result types standing in for the source's exceptions and
    out-parameter flags. */
module Wrappers {

  datatype Option<+T> = None | Some(value: T)

  datatype Result<+T, +E> = Ok(value: T) | Err(error: E) {
    predicate IsFailure() {
      Err?
    }

    function PropagateFailure<U>(): Result<U, E>
      requires Err?
    {
      Err(error)
    }

    function Extract(): T
      requires Ok?
    {
      value
    }
  }

  /** Puts s in front of a successful result; an error passes through. */
  function Prepend<T, E>(s: seq<T>, r: Result<seq<T>, E>): Result<seq<T>, E>
  {
    if r.Ok? then Ok(s + r.value) else r
  }

  lemma PrependNil<T, E>(r: Result<seq<T>, E>)
    ensures Prepend([], r) == r
  {
    if r.Ok? { assert [] + r.value == r.value; }
  }

  lemma PrependPrepend<T, E>(s: seq<T>, t: seq<T>, r: Result<seq<T>, E>)
    ensures Prepend(s, Prepend(t, r)) == Prepend(s + t, r)
  {
    if r.Ok? { assert s + (t + r.value) == (s + t) + r.value; }
  }

  /** Two results built the same way from two results that are
      themselves related by a prefix. */
  lemma PrependChain<T, E>(x: Result<seq<T>, E>, x': Result<seq<T>, E>,
                           y: Result<seq<T>, E>, y': Result<seq<T>, E>,
                           s: seq<T>, tail: Result<seq<T>, E>)
    requires x'.Ok? && x == Prepend(s, x') && y == Prepend(s, y')
    requires y' == Prepend(x'.value, tail)
    ensures x.Ok? && y == Prepend(x.value, tail)
  {
    PrependPrepend(s, x'.value, tail);
  }
}
