module Wrappers {
  datatype Option<+T> = None | Some(value: T)

  /** What a call comes to: a value, a reported error, or a Go panic. */
  datatype Outcome<+T> = Done(value: T) | Failed | Crashed

  /** The outcome of a loop that has gathered `front` before the rest of it runs. */
  function Prepend<T>(front: seq<T>, r: Outcome<seq<T>>): Outcome<seq<T>>
  {
    match r
    case Done(rest) => Done(front + rest)
    case bad => bad
  }

  lemma PrependTwice<T>(front: seq<T>, more: seq<T>, r: Outcome<seq<T>>)
    ensures Prepend(front, Prepend(more, r)) == Prepend(front + more, r)
    ensures Prepend([], r) == r
  {
    if r.Done? {
      assert front + (more + r.value) == front + more + r.value;
      assert [] + r.value == r.value;
    }
  }
}
