/**
 * The ways the cracker and the decryption fail. Each is a `ZeroDivisionError` in the
 * original program; they are told apart here by where they happen.
 */
module Outcomes {

  datatype CrackError =
    | IcDivisionByZero  // `N * (N - 1)` is zero for a piece shorter than 2 letters
    | ChiDivisionByZero // `N * e_i` is zero for an empty text
    | ModuloByZero      // `i % key_len` or `i % len(key)` with a length of 0

  datatype Result<T> = Success(value: T) | Failure(error: CrackError)
}
