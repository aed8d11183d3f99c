/**
 * Field encryption and key wrapping (app/crypto_utils.py).
 *
 * AES-256-GCM (NIST SP 800-38D) is modelled symbolically. A blob is a
 * sequence of octets; the first 12 are the nonce, drawn from the random
 * source, and the rest is the AEAD output, one octet per byte of ciphertext
 * and 16 more for the tag. An AEAD output octet records the key, nonce,
 * plaintext and associated data it was produced from and its position, so
 * that it can be neither forged nor altered without detection; authenticated
 * decryption succeeds exactly on the complete output of an encryption under
 * the same key, nonce and associated data.
 *
 * Vault's transit engine is modelled the same way: a wrapped key is a token
 * sealed under the engine's current key generation. When Vault loses its key
 * material (a dev-mode restart), the generation moves on and every earlier
 * token becomes undecryptable, which Vault reports as HTTP 400.
 */
module CryptoUtils {
  import opened Wrappers
  import opened Binary
  import opened Exceptions
  import Base64

  /** The nonce length used by aes_gcm_encrypt: 96 bits, as section 5.2.1.1 of SP 800-38D recommends. */
  const NONCE_LEN: nat := 12
  /** The length of the GCM authentication tag appended to the ciphertext. */
  const TAG_LEN: nat := 16
  /** The shortest nonce AESGCM.decrypt accepts. */
  const MIN_NONCE_LEN: nat := 8

  /** One byte of a stored blob. */
  datatype Octet =
    | Raw(b: byte)
    | Sealed(key: Bytes, nonce: Bytes, plaintext: Bytes, aad: Bytes, pos: nat)

  type Blob = seq<Octet>

  function RawOctets(b: Bytes): (r: Blob)
    ensures |r| == |b|
  {
    seq(|b|, k requires 0 <= k < |b| => Raw(b[k]))
  }

  /** AESGCM accepts 128-, 192- and 256-bit keys only. */
  predicate ValidKeyLength(key: Bytes) {
    |key| == 16 || |key| == 24 || |key| == 32
  }

  /** The AEAD output of `AESGCM(key).encrypt(nonce, plaintext, aad)`: ciphertext then tag. */
  function Seal(key: Bytes, nonce: Bytes, plaintext: Bytes, aad: Bytes): (c: Blob)
    ensures |c| == |plaintext| + TAG_LEN
  {
    seq(|plaintext| + TAG_LEN, k requires 0 <= k < |plaintext| + TAG_LEN => Sealed(key, nonce, plaintext, aad, k))
  }

  /**
   * `AESGCM(key).decrypt(nonce, ciphertext, aad)` on a well-formed key and
   * nonce: the plaintext when the ciphertext is exactly an AEAD output under
   * this key, nonce and associated data, InvalidTag otherwise.
   */
  function Open(key: Bytes, nonce: Blob, ciphertext: Blob, aad: Bytes): (r: Result<Bytes, Error>)
    ensures r.Failure? ==> r.error == InvalidTag
  {
    if |ciphertext| > 0 && ciphertext[0].Sealed?
       && nonce == RawOctets(ciphertext[0].nonce)
       && ciphertext == Seal(key, ciphertext[0].nonce, ciphertext[0].plaintext, aad)
    then Success(ciphertext[0].plaintext)
    else Failure(InvalidTag)
  }

  /** `aes_gcm_encrypt`: the nonce followed by the AEAD output. */
  function AesGcmEncrypt(key: Bytes, plaintext: Bytes, aad: Bytes, nonce: Bytes): (r: Result<Blob, Error>)
    requires |nonce| == NONCE_LEN
    ensures r.Success? <==> ValidKeyLength(key)
    ensures r.Failure? ==> r.error == InvalidKeyLength
    ensures r.Success? ==> |r.value| == NONCE_LEN + |plaintext| + TAG_LEN
    ensures r.Success? ==> r.value[..NONCE_LEN] == RawOctets(nonce)
    ensures r.Success? ==> r.value[NONCE_LEN..] == Seal(key, nonce, plaintext, aad)
  {
    if !ValidKeyLength(key) then Failure(InvalidKeyLength)
    else Success(RawOctets(nonce) + Seal(key, nonce, plaintext, aad))
  }

  /** `aes_gcm_decrypt`: split the blob at byte 12 into nonce and AEAD output, then authenticate. */
  function AesGcmDecrypt(key: Bytes, blob: Blob, aad: Bytes): (r: Result<Bytes, Error>)
    ensures !ValidKeyLength(key) ==> r == Failure(InvalidKeyLength)
    ensures ValidKeyLength(key) && |blob| < MIN_NONCE_LEN ==> r == Failure(InvalidNonceLength)
    ensures ValidKeyLength(key) && MIN_NONCE_LEN <= |blob| < NONCE_LEN + TAG_LEN ==> r == Failure(InvalidTag)
  {
    if !ValidKeyLength(key) then Failure(InvalidKeyLength)
    else
      var cut := if |blob| < NONCE_LEN then |blob| else NONCE_LEN;
      var nonce, ciphertext := blob[..cut], blob[cut..];
      if |nonce| < MIN_NONCE_LEN then Failure(InvalidNonceLength)
      else Open(key, nonce, ciphertext, aad)
  }

  /** Decrypting what was encrypted, with the same key and associated data, gives the plaintext back. */
  lemma DecryptEncrypt(key: Bytes, plaintext: Bytes, aad: Bytes, nonce: Bytes)
    requires |nonce| == NONCE_LEN && ValidKeyLength(key)
    ensures AesGcmEncrypt(key, plaintext, aad, nonce).Success?
    ensures AesGcmDecrypt(key, AesGcmEncrypt(key, plaintext, aad, nonce).value, aad) == Success(plaintext)
  {
    var blob := AesGcmEncrypt(key, plaintext, aad, nonce).value;
    assert blob[NONCE_LEN..][0] == Sealed(key, nonce, plaintext, aad, 0);
  }

  /** A different key or different associated data makes authentication fail. */
  lemma DecryptWrongContext(key: Bytes, plaintext: Bytes, aad: Bytes, nonce: Bytes, key': Bytes, aad': Bytes)
    requires |nonce| == NONCE_LEN && ValidKeyLength(key)
    requires key' != key || aad' != aad
    ensures AesGcmDecrypt(key', AesGcmEncrypt(key, plaintext, aad, nonce).value, aad').Failure?
  {
    var ct := AesGcmEncrypt(key, plaintext, aad, nonce).value[NONCE_LEN..];
    var s := Seal(key', ct[0].nonce, ct[0].plaintext, aad');
    assert ct[0] == Sealed(key, nonce, plaintext, aad, 0);
    assert s[0] == Sealed(key', nonce, plaintext, aad', 0);
    assert s != ct;
  }

  /** Replacing any one octet of an encrypted blob by a different one makes decryption fail. */
  lemma DecryptTampered(key: Bytes, plaintext: Bytes, aad: Bytes, nonce: Bytes, i: nat, o: Octet)
    requires |nonce| == NONCE_LEN && ValidKeyLength(key)
    requires i < NONCE_LEN + |plaintext| + TAG_LEN
    requires o != AesGcmEncrypt(key, plaintext, aad, nonce).value[i]
    ensures AesGcmDecrypt(key, AesGcmEncrypt(key, plaintext, aad, nonce).value[i := o], aad).Failure?
  {
    var blob := AesGcmEncrypt(key, plaintext, aad, nonce).value;
    var t := blob[i := o];
    var ct, ct' := blob[NONCE_LEN..], t[NONCE_LEN..];
    assert ct == Seal(key, nonce, plaintext, aad);
    if i < NONCE_LEN {
      // The nonce no longer matches the one bound into the AEAD output.
      assert ct' == ct;
      assert ct'[0].nonce == nonce;
      assert t[..NONCE_LEN][i] != RawOctets(nonce)[i];
    } else if ct'[0].Sealed? {
      var j := i - NONCE_LEN;
      var s := Seal(key, ct'[0].nonce, ct'[0].plaintext, aad);
      assert ct'[j] != ct[j];
      var other := if j == 0 then 1 else 0;
      assert ct'[other] == Sealed(key, nonce, plaintext, aad, other);
      if ct'[0].nonce == nonce && ct'[0].plaintext == plaintext {
        assert s == ct != ct';
      } else {
        assert s[other] != ct'[other];
      }
    }
  }

  // ---------------------------------------------------------------------
  // Vault transit

  /** The string Vault's transit engine returns for an encrypted key. */
  datatype WrappedKey = WrappedKey(generation: nat, plaintext: string)

  /**
   * The Vault transit key named by the configuration: the generation of its
   * key material, and an outage status that every request currently meets.
   */
  datatype Kms = Kms(generation: nat, outage: Option<ErrorStatus>)

  /** A Vault HTTP reply: 200 with a body, or an error status. */
  datatype Reply<T> = Ok(body: T) | Status(code: ErrorStatus)

  /** The 400 Vault answers for a ciphertext it cannot decrypt. */
  const BAD_REQUEST: ErrorStatus := 400

  /** POST /v1/transit/encrypt/{key}: seals the base64 plaintext under the current generation. */
  function TransitEncrypt(kms: Kms, plaintext: string): Reply<WrappedKey> {
    match kms.outage
    case Some(s) => Status(s)
    case None => Ok(WrappedKey(kms.generation, plaintext))
  }

  /** POST /v1/transit/decrypt/{key}: only a token of the current generation decrypts. */
  function TransitDecrypt(kms: Kms, token: WrappedKey): Reply<string> {
    match kms.outage
    case Some(s) => Status(s)
    case None => if token.generation == kms.generation then Ok(token.plaintext) else Status(BAD_REQUEST)
  }

  /** Vault loses its key material: a later generation, which no token sealed so far belongs to. */
  function Lose(kms: Kms): (k: Kms)
    ensures k.generation > kms.generation && k.outage == kms.outage
  {
    Kms(kms.generation + 1, kms.outage)
  }

  /** `vault_encrypt_key`: sends the base64 of the DEK and returns Vault's ciphertext. */
  function VaultEncryptKey(kms: Kms, dek: Bytes): (r: Result<WrappedKey, Error>)
    ensures r.Success? <==> kms.outage.None?
    ensures r.Failure? ==> r.error == HttpError(kms.outage.value)
    ensures r.Success? ==> r.value.generation == kms.generation
  {
    match TransitEncrypt(kms, Base64.Encode(dek))
    case Ok(token) => Success(token)
    case Status(s) => Failure(HttpError(s))
  }

  /** `vault_decrypt_key`: asks Vault for the plaintext and base64-decodes it. */
  function VaultDecryptKey(kms: Kms, token: WrappedKey): (r: Result<Bytes, Error>)
    ensures kms.outage.Some? ==> r == Failure(HttpError(kms.outage.value))
    ensures kms.outage.None? && token.generation != kms.generation ==> r == Failure(HttpError(400))
  {
    match TransitDecrypt(kms, token)
    case Ok(plaintext) => Base64.Decode(plaintext)
    case Status(s) => Failure(HttpError(s))
  }

  /** A token Vault can decrypt right now. */
  predicate Unwrappable(kms: Kms, token: WrappedKey) {
    kms.outage.None? && token.generation == kms.generation
  }

  /** Unwrapping a key Vault has just wrapped gives the same DEK bytes back. */
  lemma UnwrapWrap(kms: Kms, dek: Bytes)
    requires kms.outage.None?
    ensures VaultEncryptKey(kms, dek).Success?
    ensures Unwrappable(kms, VaultEncryptKey(kms, dek).value)
    ensures VaultDecryptKey(kms, VaultEncryptKey(kms, dek).value) == Success(dek)
  {
    Base64.DecodeEncode(dek);
  }

  /** Once Vault has lost its key material, no earlier token unwraps: each meets a 400. */
  lemma UnwrapAfterLoss(kms: Kms, dek: Bytes)
    requires kms.outage.None?
    ensures VaultDecryptKey(Lose(kms), VaultEncryptKey(kms, dek).value) == Failure(HttpError(400))
  {
  }
}
