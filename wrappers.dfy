/** Absence and failure values shared by the model: `Option` stands for a Java
    reference that may be null, `Outcome` for a call that may throw. */
module Wrappers {

  datatype Option<+T> = None | Some(value: T)

  /** The result of a Java call that either returns normally or throws. */
  datatype Outcome<+T, +E> = Ok(result: T) | Thrown(error: E)

  /** The runtime exceptions the modelled code can throw. */
  datatype JavaException = IndexOutOfBounds | IllegalArgument | IllegalState | ClassCast | NullPointer
}
