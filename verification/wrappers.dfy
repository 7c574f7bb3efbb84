/** Failure-carrying datatypes shared by the modules of this model: the Rust
    `Option<T>` and `Result<T, E>` of the modelled crate. */
module Wrappers {

  /** Rust's `Option<T>`. */
  datatype Option<+T> = None | Some(value: T)

  /** Rust's `Result<T, E>`. */
  datatype Result<+T, +E> = Ok(value: T) | Err(error: E) {

    /** `Result::ok`: the success value, forgetting the error. */
    function ToOption(): (o: Option<T>)
      ensures o.Some? <==> this.Ok?
      ensures o.Some? ==> o.value == this.value
    {
      match this
      case Ok(v) => Some(v)
      case Err(_) => None
    }
  }
}
