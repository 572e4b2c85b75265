# XChaCha20-Poly1305 envelope layer, modelled in Dafny

This project models the core of a small WebAssembly encryption library. The library
has two entry points, `encrypt(plaintext, key)` and `decrypt(envelope, key)`. Both
wrap the XChaCha20-Poly1305 AEAD: the 256-bit-key, 16-byte-tag construction of
section 2.8 of RFC 8439, extended to a 24-byte nonce by draft-irtf-cfrg-xchacha.
Encryption draws a fresh 24-byte nonce from the operating system. It returns the
*envelope* `nonce || ciphertext || tag`. Decryption splits the nonce off and opens
the rest.

Modules, one per source file or collaborator:

- `Constants` (`constants.dfy`): `KEY_SIZE` = 32, `NONCE_SIZE` = 24, `POLY1305_AUTH_TAG_SIZE` = 16, plus the `byte`, `Key` (`[u8; 32]`) and `Nonce` (`[u8; 24]`) types.
- `Errors` (`errors.dfy`): the `CryptoError` enum.
- `Primitives` (`primitives.dfy`): the two collaborators, passed in as values.
  - `Aead` is a pair of total functions `seal` and `open`.
  - `Lawful(aead)` states what the envelope layer assumes about them: a sealed buffer is 16 bytes longer than its plaintext, and `open` undoes `seal` under the same key and nonce.
  - `Entropy` is what the random source does with one 24-byte fill request: it delivers the bytes or fails with an OS error.
- `ByteVecs` (`byte_vec.dfy`): the `Vec<u8>` the envelope is built in, as a class over an array with a length and a capacity.
- `CryptUtils` (`crypt_utils.dfy`): the validators, nonce generation, the envelope codec, and the length and round-trip lemmas.
  - `SealedEnvelope` is the function that specifies `perform_encryption`.
  - The method `PerformEncryption` builds the envelope in a `ByteVec` and is proved equal to `SealedEnvelope`.
- `Lib` (`lib.rs` entry points, `lib.dfy`): `Encrypt`, `Decrypt` and `DecryptAsWritten` as functions over `Result`, plus the lemmas on check order and the end-to-end round trip.

How `decrypt` is modelled:

- `Lib.DecryptAsWritten` follows the source exactly. It returns an `Outcome`, so it can show the panic that the source reaches for an envelope of 1 to 23 bytes (see Findings).
- `Lib.Decrypt` is the corrected version. It rejects an envelope shorter than a nonce with a dedicated `MalformedEnvelope` error. This variant is not in `src/errors.rs`: it is a hardening the model adds.

The code fixes the order of the checks: key size first, then emptiness of the payload. Only one error is reported per call, the first failing check's.

## Model

| member | source | states |
|---|---|---|
| `CryptUtils.ValidateKeySize` | src/crypt_utils.rs:48-53 | succeeds iff the key is exactly 32 bytes; any other length, shorter or longer, gives `InvalidKeySize { size: 32 }` |
| `CryptUtils.ValidateNonEmptyData` | src/crypt_utils.rs:58-63 | succeeds iff the data is non-empty; otherwise `EmptyData` |
| `CryptUtils.NonceFrom` | src/crypt_utils.rs:65-69 | succeeds iff the random source fills the buffer, and then gives exactly the drawn 24 bytes; a failing source gives `NonceGeneration` carrying its cause |
| `CryptUtils.GenerateRandomNonce` | src/crypt_utils.rs:65-69 | filling a zeroed 24-byte buffer from the random source gives exactly `NonceFrom(source)`, the nonce the envelope function uses |
| `CryptUtils.SealedEnvelope` | src/crypt_utils.rs:15-30 | nonce failure gives `NonceGeneration` (and is reported before sealing); seal failure gives `Encryption` with no envelope; success iff both succeed, and then the first 24 bytes are the nonce and the rest is exactly the sealed output |
| `CryptUtils.PerformEncryption` | src/crypt_utils.rs:15-30 | returns a fresh vector whose contents are the specified envelope, with the same error otherwise; under a lawful AEAD its capacity equals its length, `|plaintext| + 16 + 24`, so the preallocation is exact and never reallocated |
| `ByteVecs.ByteVec.WithCapacity` | src/crypt_utils.rs:20 | a new empty vector with exactly the requested capacity |
| `ByteVecs.ByteVec.ExtendFromSlice` | src/crypt_utils.rs:21-27 | contents become old contents followed by the slice; the array is kept whenever the result fits the capacity |
| `CryptUtils.PerformDecryption` | src/crypt_utils.rs:36-43 | defined only for at least 24 bytes (the slice's bounds); succeeds iff `open` succeeds on bytes 0..24 as nonce and bytes 24.. as sealed data, and then returns exactly `open`'s plaintext; a failure is `Decryption` carrying `open`'s error |
| `CryptUtils.EnvelopeLength` | src/crypt_utils.rs:20-29 | under a lawful AEAD a successful envelope is exactly `|plaintext| + POLY1305_AUTH_TAG_SIZE + NONCE_SIZE` bytes |
| `CryptUtils.DistinctNoncesDistinctEnvelopes` | src/crypt_utils.rs:17-21 | two draws that yield different nonces give different envelopes for the same plaintext and key |
| `CryptUtils.NonceFailureSkipsSeal` | src/crypt_utils.rs:17 | with a failing random source the result is `NonceGeneration` whatever the AEAD does, so `seal` is never consulted |
| `CryptUtils.EnvelopeRoundTrip` | src/crypt_utils.rs:15-43 | under a lawful AEAD, decrypting a successful envelope with the same key gives back the plaintext |
| `CryptUtils.HelloWorldRoundTrip` | src/crypt_utils.rs:84-90 | the unit test's case: "Hello, world!" under the all-zero key gives a 53-byte envelope that decrypts back to the same 13 bytes |
| `Lib.TryIntoKey` | src/lib.rs:31 | narrowing a slice to `[u8; 32]` succeeds iff it has 32 bytes and keeps the bytes unchanged |
| `Lib.Encrypt` | src/lib.rs:26-38 | a wrong-size key gives `InvalidKeySize` whatever the plaintext; a 32-byte key with empty plaintext gives `EmptyData`; otherwise the result is exactly the codec's; the key `unwrap` is proved never to panic |
| `Lib.DecryptAsWritten` | src/lib.rs:44-57 | same check order as `encrypt`; panics iff the key is 32 bytes and the envelope has 1 to 23 bytes; from 24 bytes on it returns exactly what the codec returns |
| `Lib.Decrypt` | src/lib.rs:44-57 | the corrected entry point: wrong key size, then empty, then shorter than a nonce (`MalformedEnvelope`), otherwise exactly the codec's result |
| `Lib.ShortEnvelopePanics` | src/lib.rs:47 | a 10-byte envelope with a 32-byte key makes `decrypt` as written panic; the corrected one reports `MalformedEnvelope` |
| `Lib.DecryptOnlyReplacesPanic` | src/lib.rs:46-53 | wherever `decrypt` as written returns, the corrected one returns the same; it reports `MalformedEnvelope` exactly where the original panics |
| `Lib.EncryptRejectsBeforeCodec` | src/lib.rs:28-34 | when a check fails, the result is an error that depends neither on the random source nor on the AEAD |
| `Lib.EncryptSucceeds` | src/lib.rs:26-38 | `encrypt` succeeds iff key and plaintext pass the checks, the random source delivers and seal succeeds; the envelope then starts with the drawn nonce and is 40 bytes longer than the plaintext |
| `Lib.EndToEndRoundTrip` | src/lib.rs:26-57 | under a lawful AEAD, `decrypt` (as written and corrected) of what `encrypt` returned gives the plaintext back under the same key |

## Left out

- XChaCha20-Poly1305 itself (`XChaCha20Poly1305::new`, `encrypt`, `decrypt` at src/crypt_utils.rs:16, 23-24, 37-41) is an external crate. It appears only as the `Aead` parameter and the `Lawful` hypothesis.
- Tamper detection and wrong-key rejection (the second half of the test at src/crypt_utils.rs:92-95) are properties of the primitive, so they cannot be stated over an arbitrary lawful AEAD.
- `getrandom` is operating-system I/O. It is the `Entropy` parameter. Nonce uniqueness across calls is probabilistic, so only its consequence is proved: distinct nonces give distinct envelopes.
- The host-runtime glue is left out: the `Uint8Array` conversions (src/lib.rs:37, 56), the `console.log` binding (src/lib.rs:16-20) and `From<CryptoError> for JsValue` (src/errors.rs:22-26).
- The `thiserror` display strings (src/errors.rs:10-19) are message formatting. Only the variants are kept.
- The cause of `NonceGeneration` is kept only as a numeric OS code. The crate's AEAD error carries no data.
- benches/crypto_benchmark.rs is a performance benchmark with no behaviour to state.
- `ByteVecs.ByteVec.ExtendFromSlice`: the contract does not fix Rust's exact growth policy. The body doubles the capacity or grows to the needed size. The model relies only on two facts: a result that fits the capacity keeps the buffer, and the contents are exact.
- `CryptUtils.PerformEncryption`: machine-width (`usize`) arithmetic and allocation failure are not modelled. `Vec::with_capacity(plaintext.len() + 16 + 24)` panics with a capacity overflow once the sum exceeds `isize::MAX`; on wasm32 a plaintext just under 2 GiB is enough. A failed allocation aborts. The model computes the capacity in unbounded `nat` and allocates with `new`, which never fails.
- `Lib.Encrypt`: because of the line above, the model of `encrypt` never traps, whereas the source can trap for a plaintext near 2 GiB or when memory runs out.
- `CryptUtils.PerformEncryption`: `append(&mut result_buffer)` also empties `result_buffer`. That buffer is dropped right away, so the model appends with `ExtendFromSlice` and does not model the emptied buffer.

## Findings

| source | as written | input that shows it | evidently intended | confidence | as-written member | corrected member |
|---|---|---|---|---|---|---|
| src/lib.rs:47 with src/crypt_utils.rs:38 | `decrypt` checks only that the envelope is non-empty; `perform_decryption` then slices `[..NONCE_SIZE]`, which panics for 1 to 23 bytes (a trap in the host, not a `CryptoError`) | a 10-byte envelope with any 32-byte key | reject an envelope shorter than the nonce with an error | high; not executed | `Lib.DecryptAsWritten`, `Lib.ShortEnvelopePanics` | `Lib.Decrypt`, `Lib.DecryptOnlyReplacesPanic`, `Lib.EndToEndRoundTrip` |
