/** Errors the Python source raises, and the result type that carries them. */
module Outcomes {

  /** The exceptions the modelled code can raise, named after the Python ones. */
  datatype Error =
    | IndexError        // a list or bit index past the end
    | KeyError          // a dictionary lookup of a missing key
    | TypeError         // subscripting None
    | AttributeError    // reading a field of None
    | UnicodeDecodeError  // an 8-bit symbol slot that is not one UTF-8 character
    | InterpretError    // reading an empty bit string as an unsigned integer
    | TruncatedSymbol   // a leaf marker with no symbol bits after it
    | NoProgress        // a decode step that consumes no bits (the source loops forever)

  datatype Option<T> = None | Some(value: T)

  datatype Result<T> = Ok(value: T) | Err(error: Error)
}
