/** The two ways an operation of the matrix library can fail, and the result
    type that carries either a value or one of them. The library throws
    std::out_of_range from element access and ShapeMismatchException from
    the binary operations; only the kind of the error is modelled, not its
    message text. */
module Outcome {

  datatype Error =
    | OutOfRange     // a row or column index outside the matrix
    | ShapeMismatch  // operand shapes that the operation cannot combine

  datatype Result<+T> = Ok(value: T) | Err(error: Error)
}
