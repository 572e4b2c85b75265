/** The error taxonomy of the library (src/errors.rs). */
module Errors {

  /** The opaque error of the `getrandom` crate; it carries the operating system's code. */
  datatype RandomError = RandomError(code: nat)

  /** The opaque error of the AEAD crate; it carries no detail at all. */
  datatype AeadError = AeadError

  /**
   * `CryptoError`. The first five variants are the Rust enum's; `MalformedEnvelope`
   * is not in the Rust enum and is raised only by the corrected decryption entry
   * point `Lib.Decrypt`, for an envelope too short to hold a nonce.
   */
  datatype CryptoError =
    | InvalidKeySize(size: nat)
    | EmptyData
    | NonceGeneration(randomCause: RandomError)
    | Encryption(sealCause: AeadError)
    | Decryption(openCause: AeadError)
    | MalformedEnvelope
}
