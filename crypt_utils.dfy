/**
 * The envelope codec and its input guards (src/crypt_utils.rs). An envelope is
 * the 24-byte nonce followed by what the AEAD's seal produced for it: the
 * ciphertext and then the 16-byte tag.
 */
module CryptUtils {
  import opened Wrappers
  import opened Constants
  import opened Errors
  import opened Primitives
  import opened ByteVecs

  /** `validate_key_size`: only a key of exactly `KEY_SIZE` bytes passes. */
  function ValidateKeySize(key: seq<byte>): (r: Result<(), CryptoError>)
    ensures r.Ok? <==> |key| == KEY_SIZE
    ensures r.Err? ==> r.error == InvalidKeySize(KEY_SIZE)
  {
    if |key| != KEY_SIZE then Err(InvalidKeySize(KEY_SIZE)) else Ok(())
  }

  /** `validate_non_empty_data`: any non-empty payload passes. */
  function ValidateNonEmptyData(data: seq<byte>): (r: Result<(), CryptoError>)
    ensures r.Ok? <==> |data| > 0
    ensures r.Err? ==> r.error == EmptyData
  {
    if |data| == 0 then Err(EmptyData) else Ok(())
  }

  /** The nonce the random source yields, or the error `generate_random_nonce` maps its failure to. */
  function NonceFrom(source: Entropy): (r: Result<Nonce, CryptoError>)
    ensures r.Ok? <==> source.Filled?
    ensures source.Filled? ==> r.value == source.bytes
    ensures source.Unavailable? ==> r == Err(NonceGeneration(source.cause))
  {
    match source
    case Filled(bytes) => Ok(bytes)
    case Unavailable(cause) => Err(NonceGeneration(cause))
  }

  /**
   * `generate_random_nonce`: a zeroed 24-byte buffer that the random source fills;
   * a failing source becomes `NonceGeneration`.
   */
  method GenerateRandomNonce(source: Entropy) returns (r: Result<Nonce, CryptoError>)
    ensures r == NonceFrom(source)
  {
    var rawNonce := new byte[NONCE_SIZE](_ => 0);
    match source {
      case Unavailable(cause) =>
        return Err(NonceGeneration(cause));
      case Filled(bytes) =>
        forall i | 0 <= i < NONCE_SIZE {
          rawNonce[i] := bytes[i];
        }
        assert rawNonce[..] == bytes;
    }
    return Ok(rawNonce[..]);
  }

  /**
   * The value `perform_encryption` computes: the drawn nonce followed by the
   * sealed plaintext. Nonce failure is reported before the AEAD is consulted,
   * and a failing seal yields `Encryption` with no envelope at all.
   */
  function SealedEnvelope(plaintext: seq<byte>, key: Key, source: Entropy, aead: Aead): (r: Result<seq<byte>, CryptoError>)
    ensures source.Unavailable? ==> r == Err(NonceGeneration(source.cause))
    ensures source.Filled? && aead.seal(key, source.bytes, plaintext).Err? ==>
      r == Err(Encryption(aead.seal(key, source.bytes, plaintext).error))
    ensures r.Ok? <==> source.Filled? && aead.seal(key, source.bytes, plaintext).Ok?
    ensures r.Ok? ==> (|r.value| >= NONCE_SIZE &&
      r.value[..NONCE_SIZE] == source.bytes &&
      r.value[NONCE_SIZE..] == aead.seal(key, source.bytes, plaintext).value)
  {
    var nonce :- NonceFrom(source);
    match aead.seal(key, nonce, plaintext)
    case Err(e) => Err(Encryption(e))
    case Ok(sealed) => Ok(nonce + sealed)
  }

  /**
   * `perform_encryption`: draws the nonce, preallocates the output for
   * plaintext, tag and nonce, writes the nonce, then appends the sealed bytes.
   * Under a lawful AEAD the envelope fills the preallocated capacity exactly,
   * so the buffer is never reallocated.
   */
  method PerformEncryption(plaintext: seq<byte>, key: Key, source: Entropy, aead: Aead)
    returns (r: Result<ByteVec, CryptoError>)
    ensures r.Ok? <==> SealedEnvelope(plaintext, key, source, aead).Ok?
    ensures r.Err? ==> r.error == SealedEnvelope(plaintext, key, source, aead).error
    ensures r.Ok? ==> (fresh(r.value) && fresh(r.value.buf) && r.value.Valid() &&
      r.value.Contents() == SealedEnvelope(plaintext, key, source, aead).value)
    ensures r.Ok? && Lawful(aead) ==>
      r.value.Capacity() == |r.value.Contents()| == |plaintext| + POLY1305_AUTH_TAG_SIZE + NONCE_SIZE
  {
    var rawNonce :- GenerateRandomNonce(source);
    if Lawful(aead) {
      EnvelopeLength(plaintext, key, source, aead);
    }
    var ciphertext := new ByteVec.WithCapacity(|plaintext| + POLY1305_AUTH_TAG_SIZE + NONCE_SIZE);
    ciphertext.ExtendFromSlice(rawNonce);
    match aead.seal(key, rawNonce, plaintext) {
      case Err(e) =>
        return Err(Encryption(e));
      case Ok(resultBuffer) =>
        // `append` moves exactly these bytes into the vector.
        ciphertext.ExtendFromSlice(resultBuffer);
        return Ok(ciphertext);
    }
  }

  /**
   * `perform_decryption`: the first `NONCE_SIZE` bytes are the nonce, the rest is
   * handed to the AEAD's open, and a failing open becomes `Decryption`. The
   * precondition is the bounds check of the slice `[..NONCE_SIZE]`.
   */
  function PerformDecryption(ciphertext: seq<byte>, key: Key, aead: Aead): (r: Result<seq<byte>, CryptoError>)
    requires |ciphertext| >= NONCE_SIZE
    ensures r.Err? ==> r.error.Decryption?
    ensures r.Ok? <==> aead.open(key, ciphertext[..NONCE_SIZE], ciphertext[NONCE_SIZE..]).Ok?
    ensures r.Ok? ==> r.value == aead.open(key, ciphertext[..NONCE_SIZE], ciphertext[NONCE_SIZE..]).value
    ensures r.Err? ==> r == Err(Decryption(aead.open(key, ciphertext[..NONCE_SIZE], ciphertext[NONCE_SIZE..]).error))
  {
    var nonce: Nonce := ciphertext[..NONCE_SIZE];
    match aead.open(key, nonce, ciphertext[NONCE_SIZE..])
    case Err(e) => Err(Decryption(e))
    case Ok(plaintext) => Ok(plaintext)
  }

  /**
   * Under a lawful AEAD an envelope is nonce, ciphertext and tag: exactly
   * `NONCE_SIZE + POLY1305_AUTH_TAG_SIZE` bytes longer than the plaintext.
   */
  lemma EnvelopeLength(plaintext: seq<byte>, key: Key, source: Entropy, aead: Aead)
    requires Lawful(aead)
    ensures SealedEnvelope(plaintext, key, source, aead).Ok? ==>
      |SealedEnvelope(plaintext, key, source, aead).value| == |plaintext| + POLY1305_AUTH_TAG_SIZE + NONCE_SIZE
  {
    if source.Filled? {
      assert LawfulAt(aead, key, source.bytes, plaintext);
    }
  }

  /**
   * Two draws that yield different nonces give different envelopes: the nonce
   * is the envelope's prefix.
   */
  lemma DistinctNoncesDistinctEnvelopes(plaintext: seq<byte>, key: Key, s1: Entropy, s2: Entropy, aead: Aead)
    requires SealedEnvelope(plaintext, key, s1, aead).Ok? && SealedEnvelope(plaintext, key, s2, aead).Ok?
    requires s1.bytes != s2.bytes
    ensures SealedEnvelope(plaintext, key, s1, aead).value != SealedEnvelope(plaintext, key, s2, aead).value
  {
  }

  /** A nonce failure is decided without the AEAD: any two AEADs give the same error. */
  lemma NonceFailureSkipsSeal(plaintext: seq<byte>, key: Key, source: Entropy, a1: Aead, a2: Aead)
    requires source.Unavailable?
    ensures SealedEnvelope(plaintext, key, source, a1) == SealedEnvelope(plaintext, key, source, a2)
    ensures SealedEnvelope(plaintext, key, source, a1).error == NonceGeneration(source.cause)
  {
  }

  /** Decrypting an envelope with the key it was sealed under gives the plaintext back. */
  lemma EnvelopeRoundTrip(plaintext: seq<byte>, key: Key, source: Entropy, aead: Aead)
    requires Lawful(aead)
    requires SealedEnvelope(plaintext, key, source, aead).Ok?
    ensures |SealedEnvelope(plaintext, key, source, aead).value| >= NONCE_SIZE
    ensures PerformDecryption(SealedEnvelope(plaintext, key, source, aead).value, key, aead) == Ok(plaintext)
  {
    var envelope := SealedEnvelope(plaintext, key, source, aead).value;
    var sealed := aead.seal(key, source.bytes, plaintext).value;
    assert envelope[..NONCE_SIZE] == source.bytes;
    assert envelope[NONCE_SIZE..] == sealed;
    assert LawfulAt(aead, key, source.bytes, plaintext);
  }

  /**
   * The unit test's scenario: "Hello, world!" under the all-zero key seals into a
   * 53-byte envelope that decrypts back to the same 13 bytes.
   */
  lemma HelloWorldRoundTrip(source: Entropy, aead: Aead)
    requires Lawful(aead)
    requires SealedEnvelope(HelloWorld(), seq(KEY_SIZE, _ => 0), source, aead).Ok?
    ensures |SealedEnvelope(HelloWorld(), seq(KEY_SIZE, _ => 0), source, aead).value| == 53
    ensures PerformDecryption(SealedEnvelope(HelloWorld(), seq(KEY_SIZE, _ => 0), source, aead).value,
                              seq(KEY_SIZE, _ => 0), aead) == Ok(HelloWorld())
  {
    EnvelopeLength(HelloWorld(), seq(KEY_SIZE, _ => 0), source, aead);
    EnvelopeRoundTrip(HelloWorld(), seq(KEY_SIZE, _ => 0), source, aead);
  }

  /** The bytes of "Hello, world!". */
  function HelloWorld(): seq<byte> {
    [72, 101, 108, 108, 111, 44, 32, 119, 111, 114, 108, 100, 33]
  }
}
