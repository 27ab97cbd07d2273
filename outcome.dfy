/** The failures of the threshold-signing code that the model keeps as values:
    the explicit `panic!` calls, the `unwrap()` of a missing field inverse and
    the u128 subtractions that would go below zero. */
module Outcome {

  datatype Error =
    | ZeroHasNoInverse      // `invmod(0, p)`
    | NoInverse             // `invmod` did not reach 1 within `p` rounds
    | DivisionByZero        // `p / r` inside `invmod` after `r` reached 0
    | SubtractionUnderflow  // `(cs - 1)` in `decrypt` with `cs == 0`
    | NotInvertible         // `invert().unwrap()` on a field element without inverse

  datatype Result<+T> = Ok(value: T) | Err(error: Error)

  /** Rust's `Option`, as returned by a field inversion. */
  datatype Option<+T> = None | Some(value: T)
}
