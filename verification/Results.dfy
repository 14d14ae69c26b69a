/** The result types shared by every component: a value or an error, and an optional value. */
module Results {

  datatype Option<+T> = None | Some(value: T)

  /** A value, or the error that replaced it. Usable with `:-`. */
  datatype Result<+T, +E> = Ok(value: T) | Err(error: E) {
    predicate IsFailure() {
      Err?
    }

    function PropagateFailure<U>(): Result<U, E>
      requires Err?
    {
      Err(error)
    }

    function Extract(): T
      requires Ok?
    {
      value
    }
  }

  /** The outcome of a guard: it passes, or it names the error to report. */
  datatype Guard<+E> = Pass | Fail(error: E) {
    predicate IsFailure() {
      Fail?
    }

    function PropagateFailure<U>(): Result<U, E>
      requires Fail?
    {
      Err(error)
    }
  }

  /** `:- Require(condition, error)` stands for the program's `require!`. */
  function Require<E>(condition: bool, error: E): Guard<E> {
    if condition then Pass else Fail(error)
  }
}
