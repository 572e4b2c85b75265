/**
 * The two entry points the host calls (src/lib.rs). Each validates the key size,
 * then the payload's emptiness, narrows the key to a fixed-size array and hands
 * over to the codec; the first failing step's error is the call's result.
 */
module Lib {
  import opened Wrappers
  import opened Constants
  import opened Errors
  import opened Primitives
  import opened CryptUtils

  /** How a call ends: with a returned `Result`, or with a Rust panic (a trap in the host). */
  datatype Outcome<T> = Returned(result: Result<T, CryptoError>) | Panicked

  /** `<&[u8; KEY_SIZE]>::try_from(key)`: succeeds exactly for a slice of `KEY_SIZE` bytes. */
  function TryIntoKey(key: seq<byte>): (r: Option<Key>)
    ensures r.Some? <==> |key| == KEY_SIZE
    ensures r.Some? ==> r.value == key
  {
    if |key| == KEY_SIZE then Some(key) else None
  }

  /**
   * `encrypt`. The key-size check runs first, so a bad key is reported whatever
   * the plaintext; an empty plaintext is reported before any nonce is drawn; past
   * both checks the `unwrap` of the narrowed key cannot panic (its precondition
   * is discharged here) and the result is exactly the codec's.
   */
  function Encrypt(plaintext: seq<byte>, key: seq<byte>, source: Entropy, aead: Aead): (r: Result<seq<byte>, CryptoError>)
    ensures |key| != KEY_SIZE ==> r == Err(InvalidKeySize(KEY_SIZE))
    ensures |key| == KEY_SIZE && |plaintext| == 0 ==> r == Err(EmptyData)
    ensures |key| == KEY_SIZE && |plaintext| > 0 ==> r == SealedEnvelope(plaintext, key, source, aead)
  {
    var _ :- ValidateKeySize(key);
    var _ :- ValidateNonEmptyData(plaintext);
    var keyData := TryIntoKey(key).Unwrap();
    var ciphertext :- SealedEnvelope(plaintext, keyData, source, aead);
    Ok(ciphertext)
  }

  /**
   * `decrypt` as written: the same two checks, then the codec. The checks only
   * establish a non-empty envelope, while the codec slices off `NONCE_SIZE` bytes;
   * an envelope of 1 to 23 bytes therefore fails that slice's bounds check and
   * panics. The `if` below is that bounds check, not a check `decrypt` makes.
   */
  function DecryptAsWritten(ciphertext: seq<byte>, key: seq<byte>, aead: Aead): (r: Outcome<seq<byte>>)
    ensures |key| != KEY_SIZE ==> r == Returned(Err(InvalidKeySize(KEY_SIZE)))
    ensures |key| == KEY_SIZE && |ciphertext| == 0 ==> r == Returned(Err(EmptyData))
    ensures r.Panicked? <==> |key| == KEY_SIZE && 0 < |ciphertext| < NONCE_SIZE
    ensures |key| == KEY_SIZE && |ciphertext| >= NONCE_SIZE ==>
      r == Returned(PerformDecryption(ciphertext, key, aead))
  {
    match ValidateKeySize(key)
    case Err(e) => Returned(Err(e))
    case Ok(_) =>
      match ValidateNonEmptyData(ciphertext)
      case Err(e) => Returned(Err(e))
      case Ok(_) =>
        var keyData := TryIntoKey(key).Unwrap();
        if |ciphertext| < NONCE_SIZE then Panicked
        else Returned(PerformDecryption(ciphertext, keyData, aead))
  }

  /**
   * `decrypt` with the missing guard: an envelope too short to hold a nonce is
   * rejected with `MalformedEnvelope` instead of reaching the codec's slice.
   */
  function Decrypt(ciphertext: seq<byte>, key: seq<byte>, aead: Aead): (r: Result<seq<byte>, CryptoError>)
    ensures |key| != KEY_SIZE ==> r == Err(InvalidKeySize(KEY_SIZE))
    ensures |key| == KEY_SIZE && |ciphertext| == 0 ==> r == Err(EmptyData)
    ensures |key| == KEY_SIZE && 0 < |ciphertext| < NONCE_SIZE ==> r == Err(MalformedEnvelope)
    ensures |key| == KEY_SIZE && |ciphertext| >= NONCE_SIZE ==> r == PerformDecryption(ciphertext, key, aead)
  {
    var _ :- ValidateKeySize(key);
    var _ :- ValidateNonEmptyData(ciphertext);
    if |ciphertext| < NONCE_SIZE then Err(MalformedEnvelope)
    else
      var keyData := TryIntoKey(key).Unwrap();
      var plaintext :- PerformDecryption(ciphertext, keyData, aead);
      Ok(plaintext)
  }

  /** A 10-byte envelope under a well-sized key makes `decrypt` as written panic. */
  lemma ShortEnvelopePanics(aead: Aead)
    ensures DecryptAsWritten(seq(10, _ => 0), seq(KEY_SIZE, _ => 0), aead) == Panicked
    ensures Decrypt(seq(10, _ => 0), seq(KEY_SIZE, _ => 0), aead) == Err(MalformedEnvelope)
  {
  }

  /**
   * The corrected `decrypt` changes nothing but the panic: wherever `decrypt` as
   * written returns, both return the same; where it panics, the correction
   * reports `MalformedEnvelope`, and nothing else does.
   */
  lemma DecryptOnlyReplacesPanic(ciphertext: seq<byte>, key: seq<byte>, aead: Aead)
    ensures DecryptAsWritten(ciphertext, key, aead).Returned? ==>
      Decrypt(ciphertext, key, aead) == DecryptAsWritten(ciphertext, key, aead).result
    ensures DecryptAsWritten(ciphertext, key, aead).Panicked? <==>
      Decrypt(ciphertext, key, aead) == Err(MalformedEnvelope)
  {
  }

  /**
   * When a check fails, `encrypt` never reaches the codec: its result does not
   * depend on the random source or the AEAD.
   */
  lemma EncryptRejectsBeforeCodec(plaintext: seq<byte>, key: seq<byte>,
                                  s1: Entropy, a1: Aead, s2: Entropy, a2: Aead)
    requires |key| != KEY_SIZE || |plaintext| == 0
    ensures Encrypt(plaintext, key, s1, a1) == Encrypt(plaintext, key, s2, a2)
    ensures Encrypt(plaintext, key, s1, a1).Err?
  {
  }

  /**
   * `encrypt` succeeds exactly when the inputs pass both checks, the random
   * source delivers and the seal succeeds; the envelope then starts with the
   * drawn nonce and is 40 bytes longer than the plaintext.
   */
  lemma EncryptSucceeds(plaintext: seq<byte>, key: seq<byte>, source: Entropy, aead: Aead)
    requires Lawful(aead)
    ensures Encrypt(plaintext, key, source, aead).Ok? <==>
      |key| == KEY_SIZE && |plaintext| > 0 && source.Filled? &&
      aead.seal(key, source.bytes, plaintext).Ok?
    ensures Encrypt(plaintext, key, source, aead).Ok? ==>
      |Encrypt(plaintext, key, source, aead).value| == |plaintext| + POLY1305_AUTH_TAG_SIZE + NONCE_SIZE &&
      Encrypt(plaintext, key, source, aead).value[..NONCE_SIZE] == source.bytes
  {
    if |key| == KEY_SIZE {
      EnvelopeLength(plaintext, key, source, aead);
    }
  }

  /**
   * End to end: what `encrypt` returns, `decrypt` (as written, and corrected)
   * turns back into the plaintext under the same key.
   */
  lemma EndToEndRoundTrip(plaintext: seq<byte>, key: seq<byte>, source: Entropy, aead: Aead)
    requires Lawful(aead)
    requires Encrypt(plaintext, key, source, aead).Ok?
    ensures Decrypt(Encrypt(plaintext, key, source, aead).value, key, aead) == Ok(plaintext)
    ensures DecryptAsWritten(Encrypt(plaintext, key, source, aead).value, key, aead) == Returned(Ok(plaintext))
  {
    EnvelopeRoundTrip(plaintext, key, source, aead);
  }
}
