/** Results and the Python exceptions the modelled scripts can raise. */
module Common {

  datatype Option<+T> = None | Some(value: T) {
    function GetOr(default: T): T {
      match this
      case Some(v) => v
      case None => default
    }
  }

  datatype Result<+T> = Ok(value: T) | Err(error: Error)

  /** The exceptions raised by the modelled code, by Python class. */
  datatype Error =
    | UnpackError(expected: nat, got: nat)   // ValueError: wrong number of values to unpack
    | IndexError                             // a list index out of range
    | KeyError(key: string)                  // a missing dictionary key
    | UnboundLocalError(name: string)        // a local read before assignment
    | ZeroDivisionError                      // a division by zero
    | AttributeError                         // a method called on None
    | FloatParseError(text: string)          // ValueError from float()
}
