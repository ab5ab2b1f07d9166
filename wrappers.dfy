/** Option and Result, and the exceptions the Python code can raise on the paths modelled. */
module Wrappers {

  datatype Option<+T> = None | Some(value: T)

  /** The Python exception classes that the decoding pipeline can raise. */
  datatype Error =
    | StructError                   // struct.unpack given the wrong number of bytes, or pack out of range
    | AssertionError                // a failed `assert` (short read, redundant length mismatch, non-empty Disconnect)
    | IndexError                    // indexing an empty bytes object
    | KeyError                      // missing dictionary key (unknown order type, unknown client id, ...)
    | TypeError                     // indexing or int() applied to a value of the wrong shape
    | AttributeError                // `.get` called on a markup leaf (a str)
    | ValueError                    // int() of a string that is not a number
    | OSError                       // seek to a negative absolute position
    | BadEndMarker(endMarker: int)  // "Invalid end marker"
    | BadStartMarker(startMarker: int) // "Invalid start marker"

  datatype Result<+R> = Ok(value: R) | Err(error: Error) {
    predicate IsFailure() { Err? }

    function PropagateFailure<U>(): Result<U>
      requires Err?
    {
      Err(error)
    }

    function Extract(): R
      requires Ok?
    {
      value
    }
  }
}
