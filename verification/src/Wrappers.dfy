/** Failure-compatible datatypes shared by every component. */
module Wrappers {

  datatype Option<+T> = None | Some(value: T) {
    predicate IsFailure() {
      None?
    }

    function PropagateFailure<U>(): Option<U>
      requires None?
    {
      None
    }

    function Extract(): T
      requires Some?
    {
      value
    }
  }

  datatype Result<+T, +E> = Ok(value: T) | Err(error: E) {
    predicate IsFailure() {
      Err?
    }

    function PropagateFailure<U>(): Result<U, E>
      requires Err?
    {
      Err(error)
    }

    function Extract(): T
      requires Ok?
    {
      value
    }
  }

  // What a loop over a list yields when `done` was collected before `rest`, which comes
  // with the state it ends in.
  ghost function Prepend<S, A, E>(done: seq<A>, rest: (S, Result<seq<A>, E>)): (S, Result<seq<A>, E>) {
    (rest.0, if rest.1.Err? then rest.1 else Ok(done + rest.1.value))
  }

  lemma PrependNothing<S, A, E>(rest: (S, Result<seq<A>, E>))
    ensures Prepend([], rest) == rest
  {
    assert rest.1.Ok? ==> [] + rest.1.value == rest.1.value;
  }

  lemma PrependTwice<S, A, E>(done: seq<A>, more: seq<A>, rest: (S, Result<seq<A>, E>))
    ensures Prepend(done, Prepend(more, rest)) == Prepend(done + more, rest)
  {
    assert rest.1.Ok? ==> done + (more + rest.1.value) == done + more + rest.1.value;
  }
}
