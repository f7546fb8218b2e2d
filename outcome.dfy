/** The (value, error) pairs the Go code returns: `Ok` carries the value of a call whose error is
    nil, `Err` the error text of one that failed (the value returned beside it is the zero value
    and is not modelled). A call that returns only an `error` gives a `Status`. */
module Outcome {
  datatype Result<T> = Ok(value: T) | Err(msg: string)

  datatype Status = Done | Fail(msg: string)
}
