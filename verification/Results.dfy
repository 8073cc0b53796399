/** The outcome of an operation that the library may refuse by throwing an exception. */
module Results {

  datatype Error =
    | DomainError      // an argument outside its range
    | InvalidArgument  // arguments that contradict each other
    | LengthError      // a vector longer than an int can count
    | DataTooLong      // the data fits no permitted version
    | LogicError       // a failed internal assertion

  datatype Result<+T> = Ok(value: T) | Err(error: Error)

  datatype Option<+T> = None | Some(value: T)
}
