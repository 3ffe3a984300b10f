/** Values that may be missing. */
module Wrappers {

  datatype Option<+T> = None | Some(value: T)

  /** A sequence, if there is a rest of it. */
  function Before<T>(first: seq<T>, rest: Option<seq<T>>): Option<seq<T>> {
    match rest
    case None => None
    case Some(more) => Some(first + more)
  }

  lemma BeforeBefore<T>(first: seq<T>, second: seq<T>, rest: Option<seq<T>>)
    ensures Before(first, Before(second, rest)) == Before(first + second, rest)
  {
    match rest
    case None =>
    case Some(more) => assert first + (second + more) == first + second + more;
  }

  lemma BeforeEnds<T>(first: seq<T>, rest: Option<seq<T>>)
    ensures Before(first, None) == None && Before(first, Some([])) == Some(first)
    ensures Before([], rest) == rest
  {
    assert first + [] == first;
    match rest
    case None =>
    case Some(more) => assert [] + more == more;
  }
}
