/** Option and Result, the two failure-carrying types the Rust code returns. */
module Wrappers {

  datatype Option<+T> = None | Some(value: T)

  datatype Result<+R, +E> = Ok(value: R) | Err(error: E) {

    /** Result::ok: the success value, forgetting the error. */
    function ToOption(): (o: Option<R>)
      ensures o.Some? <==> this.Ok?
      ensures o.Some? ==> o.value == this.value
    {
      match this
      case Ok(v) => Some(v)
      case Err(_) => None
    }
  }

  /** The unit error `()` that several Rust functions return. */
  datatype Unit = Unit
}
