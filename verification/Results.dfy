/** Options and fallible results shared by every module of the model. */
module Results {

  datatype Option<+T> = None | Some(value: T)

  /** The outcome of a fallible operation; usable with `:-`. */
  datatype Result<+T, +E> = Ok(value: T) | Err(error: E) {
    predicate IsFailure() {
      Err?
    }

    function PropagateFailure<U>(): Result<U, E>
      requires Err?
    {
      Err(error)
    }

    function Extract(): T
      requires Ok?
    {
      value
    }
  }

  /** Put `xs` in front of a successful list. */
  function Prepend<T, E>(xs: seq<T>, r: Result<seq<T>, E>): Result<seq<T>, E> {
    match r
    case Ok(ys) => Ok(xs + ys)
    case Err(e) => Err(e)
  }

  /** Prepending one list after the other is prepending both at once. */
  lemma {:induction false} PrependTwice<T, E>(xs: seq<T>, ys: seq<T>, r: Result<seq<T>, E>)
    ensures Prepend(xs, Prepend(ys, r)) == Prepend(xs + ys, r)
    ensures Prepend([], r) == r
  {
    if r.Ok? {
      assert xs + (ys + r.value) == (xs + ys) + r.value;
      assert [] + r.value == r.value;
    }
  }

  lemma {:induction false} PrependDone<T, E>(xs: seq<T>, r: Result<seq<T>, E>)
    requires r == Ok([])
    ensures Prepend(xs, r) == Ok(xs)
  {
    assert xs + [] == xs;
  }
}
