/** Option for C# null references, Result for the exceptions the modelled code can raise. */
module Wrappers {

  datatype Option<T> = None | Some(value: T)

  /** The .NET exceptions the core can throw. */
  datatype Error =
    | NullReference       // member access on a null reference
    | ArgumentOutOfRange  // String.Substring with a negative length

  datatype Result<T> = Ok(value: T) | Failure(error: Error)
}
