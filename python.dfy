/** The few Python runtime notions the engine's behaviour depends on: a value
    that may be `None`, the exceptions the engine can raise, and the outcome of
    an operation that either returns a value or raises. */
module Python {

  /** A Python value that may be `None`. */
  datatype Option<+T> = None | Some(value: T)

  /** The exceptions the modelled code can raise. Their messages are not modelled. */
  datatype Exception =
    | TypeError          // joining None into a string, `x in "..."` on a non-string
    | AttributeError     // a method called on None, a missing instance attribute
    | FileNotFoundError  // os.remove on a missing path
    | IsADirectoryError  // os.remove or open(..., "w") on a directory
    | UnboundLocalError  // a local variable read before anything is assigned to it

  /** Either the value an operation returns or the exception it raises. */
  datatype Result<+T> = Ok(value: T) | Raise(error: Exception)
}
