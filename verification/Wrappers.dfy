// Optional values, and results that may be errors.
module Wrappers {
  datatype Option<+T> = None | Some(value: T)

  datatype Outcome<+T, +E> = Ok(value: T) | Err(error: E) {
    predicate IsFailure() {
      Err?
    }

    function PropagateFailure<U>(): Outcome<U, E>
      requires Err?
    {
      Err(error)
    }

    function Extract(): T
      requires Ok?
    {
      value
    }
  }

  // What a loop has already decoded, followed by what is still to come.
  function Following<T, E>(done: seq<T>, rest: Outcome<seq<T>, E>): (r: Outcome<seq<T>, E>)
  {
    if rest.Err? then rest else Ok(done + rest.value)
  }

  lemma FollowingNothing<T, E>(rest: Outcome<seq<T>, E>)
    ensures Following([], rest) == rest
  {
    if rest.Ok? {
      assert [] + rest.value == rest.value;
    }
  }
}
