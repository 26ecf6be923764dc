/** Outcomes of the operations whose C++ raises exceptions. */
module Results {

  datatype Error =
    | LogicError
    | OutOfRange
    | UnexpectedToken
    | ConversionUnavailable
    | InvalidNumber
    | InvalidSize
    | IoError
    | NotYetImplemented

  datatype Result<+T> = Ok(value: T) | Err(error: Error)

  datatype Option<+T> = None | Some(value: T)
}
