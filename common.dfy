/** Result and error values shared by the picking model. */
module Common {

  datatype Option<+T> = None | Some(value: T)

  /** The ways a call into the picking core can fail, named after the Python
      exception each one stands for. */
  datatype Error =
    | ArgmaxOfEmptySequence   // ValueError: numpy argmax along a zero-length sample axis
    | ArgminOfEmptySequence   // ValueError: numpy argmin of an empty pick array
    | IndexOutOfBounds        // IndexError: geometry has no row for the chosen sensor
    | UnexpectedArgument      // TypeError: pick() called with a geometry it does not take

  datatype Result<+T> = Ok(value: T) | Err(error: Error)

  function Max(a: int, b: int): int { if a < b then b else a }

  function Min(a: int, b: int): int { if a < b then a else b }
}
