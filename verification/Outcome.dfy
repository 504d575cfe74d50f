/** What the wallet and the server both speak of: slot vectors, and answers that may be an error. */
module Outcome {
  /** A homomorphic ciphertext, as the vector of its plaintext slots. */
  type Slots = seq<nat>

  datatype Result<+T, +E> = Ok(value: T) | Err(error: E)
}
