/** The outcome of an endpoint: its value, or the status code and detail of the `HTTPException` it raises. */
module Http {

  datatype Reply<+T> = Done(value: T) | Refused(status: int, detail: string) {

    predicate IsFailure() {
      Refused?
    }

    function PropagateFailure<U>(): Reply<U>
      requires Refused?
    {
      Refused(status, detail)
    }

    function Extract(): T
      requires Done?
    {
      value
    }
  }
}
