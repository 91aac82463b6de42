/** Outcomes shared by the whole codec. The text of an error message is not kept. */
module Results {
  datatype Error =
    | UnexpectedEOF           // io.ErrUnexpectedEOF
    | IntOverflow             // a varint of more than ten bytes
    | InvalidLength           // a length, or the index it leads to, is negative as an int
    | UnexpectedEndOfGroup    // an end-group tag with no group open, inside the skipper
    | EndGroupForNonGroup     // a message field that starts with an end-group tag
    | IllegalTag              // a field number that is not positive as an int32
    | WrongWireType           // a known field that is not length-delimited
    | IllegalWireType         // wire type 6 or 7
    | PayloadRejected         // the library type of a field refused its payload

  datatype Option<+T> = None | Some(value: T)

  datatype Result<+T> = Ok(value: T) | Err(error: Error)

  /** What decoding leaves behind: the state is there also after a failure, because the decoder writes into the
      message as it goes. */
  datatype Outcome<+S> = Done(state: S) | Failed(error: Error, state: S)
}
