/** Option and Result: the model's stand-ins for C# null references and thrown exceptions. */
module Optional {

  /** A value that may be missing, as a C# reference that may be null. */
  datatype Option<T> = None | Some(value: T) {

    /** The value, or `default` when it is missing (the C# `??` operator). */
    function GetOr(default: T): T
    {
      match this
      case Some(v) => v
      case None => default
    }
  }

  /** The outcome of an operation that either returns a value or throws an exception. */
  datatype Result<T, E> = Ok(value: T) | Err(error: E)
}
