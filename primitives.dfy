/**
 * The two collaborators the envelope layer calls but does not implement: the
 * XChaCha20-Poly1305 AEAD (section 2.8 of RFC 8439, extended to a 24-byte nonce by
 * draft-irtf-cfrg-xchacha) and the operating system's random source. Both are
 * passed in as values, so every statement about the envelope holds for every
 * AEAD and every outcome of the random source that meet the stated hypotheses.
 */
module Primitives {
  import opened Wrappers
  import opened Constants
  import opened Errors

  /**
   * An AEAD instance without associated data: `seal(key, nonce, plaintext)` gives
   * ciphertext followed by the tag, `open(key, nonce, sealed)` checks the tag and
   * gives the plaintext back. Either may fail with the crate's opaque error.
   */
  datatype Aead = Aead(
    seal: (Key, Nonce, seq<byte>) -> Result<seq<byte>, AeadError>,
    open: (Key, Nonce, seq<byte>) -> Result<seq<byte>, AeadError>)

  /**
   * What the envelope layer relies on from the AEAD at one key, nonce and
   * plaintext: a successful seal is exactly one tag longer than the plaintext,
   * and opening it with the same key and nonce gives the plaintext back.
   */
  ghost predicate LawfulAt(aead: Aead, k: Key, n: Nonce, p: seq<byte>) {
    aead.seal(k, n, p).Ok? ==>
      |aead.seal(k, n, p).value| == |p| + POLY1305_AUTH_TAG_SIZE &&
      aead.open(k, n, aead.seal(k, n, p).value) == Ok(p)
  }

  /** The AEAD keeps its laws at every key, nonce and plaintext. */
  ghost predicate Lawful(aead: Aead) {
    forall k: Key, n: Nonce, p: seq<byte> :: LawfulAt(aead, k, n, p)
  }

  /** What the operating system's random source does with the next 24-byte fill request. */
  datatype Entropy = Filled(bytes: Nonce) | Unavailable(cause: RandomError)
}
