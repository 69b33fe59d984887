/** Failure-compatible result types for the persistence layer.

    The original signals failures with exceptions; here every fallible
    operation returns one of these values instead. */
module Outcomes {

  /** The three exception kinds that save and load may raise: an I/O failure
      (a field that cannot be read), an InconsistenceException (a non-empty
      table, a duplicated or unmapped handle) and a RuntimeException (a
      misconfigured repository registry). */
  datatype ErrorKind = IO | Inconsistency | Runtime

  datatype Result<+T> = Ok(value: T) | Fail(kind: ErrorKind) {
    predicate IsFailure() { Fail? }

    function PropagateFailure<U>(): Result<U>
      requires Fail?
    {
      Fail(kind)
    }

    function Extract(): T
      requires Ok?
    {
      value
    }
  }

  /** Outcome of a decoder: `None` when the fields do not have the expected shape. */
  datatype Option<+T> = None | Some(value: T) {
    predicate IsFailure() { None? }

    function PropagateFailure<U>(): Option<U>
      requires None?
    {
      None
    }

    function Extract(): T
      requires Some?
    {
      value
    }
  }

  /** A read that runs short or meets an unexpected field is an I/O failure. */
  function OrIO<T>(o: Option<T>): (r: Result<T>)
    ensures r.Ok? <==> o.Some?
    ensures r.Ok? ==> r.value == o.value
    ensures r.Fail? ==> r.kind == IO
  {
    match o
    case Some(v) => Ok(v)
    case None => Fail(IO)
  }
}
