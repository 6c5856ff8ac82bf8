/** Outcomes shared by every component: optional values, the errors the
    C++ code throws (or the undefined behaviour it can run into), and a
    value-or-error result. */
module Wrappers {

  datatype Option<T> = None | Some(value: T)

  /** One constructor per failure the repository can raise. */
  datatype Error =
    | InvalidThreshold   // std::invalid_argument: t > n
    | LengthError        // std::vector constructed with a negative size
    | RandomFailure      // BN_rand_range reported failure
    | TooFewShares       // fewer than two shares supplied to reconstruction
    | DuplicateX         // two shares whose x agree modulo the order
    | NoInverse          // a modular inverse was reported missing
    | DivisionByZero     // the C++ divides by zero (undefined behaviour)

  datatype Result<T> = Ok(value: T) | Err(error: Error)
}
