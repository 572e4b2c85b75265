/** The sizes that govern the envelope (src/constants.rs). */
module Constants {
  /** Length of an XChaCha20-Poly1305 key, in bytes. */
  const KEY_SIZE: nat := 32
  /** Length of the extended nonce, in bytes. */
  const NONCE_SIZE: nat := 24
  /** Length of the Poly1305 authentication tag the AEAD appends, in bytes. */
  const POLY1305_AUTH_TAG_SIZE: nat := 16

  /** An unsigned 8-bit value, Rust's `u8`. */
  type byte = b: int | 0 <= b < 256

  /** `[u8; KEY_SIZE]`: a key once it has been narrowed to a fixed-size array. */
  type Key = k: seq<byte> | |k| == KEY_SIZE witness seq(32, _ => 0)

  /** `[u8; NONCE_SIZE]`, the `XNonce` of the AEAD. */
  type Nonce = n: seq<byte> | |n| == NONCE_SIZE witness seq(24, _ => 0)
}
