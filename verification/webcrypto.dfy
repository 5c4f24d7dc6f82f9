/**
 The platform cryptography the envelope protocol calls (assets/js/crypto/crypto.ts):
 SHA-256, HMAC-SHA-256, HKDF-SHA-512 with an empty info string producing a 256-bit
 AES-GCM key, and AES-GCM with its default 128-bit tag. Their internals are not
 modelled; each is a function value, and `Axioms` states what the protocol relies on.
 */
module WebCrypto {
  import opened Common

  /** Output length of SHA-256. */
  const DIGEST_BYTES := 32
  /** Output length of HMAC with SHA-256. */
  const MAC_BYTES := 32
  /** `AES_KEY_LENGTH_256_BITS`. */
  const AES_KEY_BYTES := 32
  /** The authentication tag AES-GCM appends when no tag length is given. */
  const TAG_BYTES := 16

  /**
   The key `hkdf` returns. In the source it is a non-extractable `CryptoKey` usable
   only to encrypt and decrypt; the protocol never reads its material.
   */
  datatype CryptoKey = CryptoKey(material: Bytes)

  /** The primitives, with the argument order of crypto.ts. */
  datatype Primitives = Primitives(
    sha256: Bytes -> Bytes,                                   // sha256(data)
    hkdf: (Bytes, Bytes) -> CryptoKey,                        // hkdf(sourceKeyMaterial, salt)
    hmacSign: (Bytes, Bytes) -> Bytes,                        // hmacSign(data, key)
    hmacVerify: (Bytes, Bytes, Bytes) -> bool,                // hmacVerify(signature, data, key)
    aesGcmEncrypt: (Bytes, Bytes, CryptoKey) -> Bytes,        // aesGCMEncrypt(plaintext, iv, key)
    aesGcmDecrypt: (Bytes, Bytes, CryptoKey) -> Option<Bytes> // aesGCMDecrypt(ciphertext, iv, key); None where it rejects
  )

  /**
   What the protocol relies on: fixed output lengths, verification that accepts
   exactly the signature `hmacSign` computes, decryption that opens what encryption
   sealed under the same non-empty IV and key, rejects everything under an empty IV
   (section 5.2.1.1 of NIST SP 800-38D requires an IV of at least one bit), and
   accepts a ciphertext only when it is the sealing of the plaintext it returns (so
   no truncated or altered plaintext).
   */
  ghost predicate Axioms(p: Primitives) {
    && (forall data :: |p.sha256(data)| == DIGEST_BYTES)
    && (forall data, key :: |p.hmacSign(data, key)| == MAC_BYTES)
    && (forall signature, data, key :: p.hmacVerify(signature, data, key) <==> signature == p.hmacSign(data, key))
    && (forall secret, salt :: |p.hkdf(secret, salt).material| == AES_KEY_BYTES)
    && (forall plaintext, iv, key :: |p.aesGcmEncrypt(plaintext, iv, key)| == |plaintext| + TAG_BYTES)
    && (forall plaintext, iv, key | iv != [] ::
          p.aesGcmDecrypt(p.aesGcmEncrypt(plaintext, iv, key), iv, key) == Some(plaintext))
    && (forall ciphertext, key :: p.aesGcmDecrypt(ciphertext, [], key).None?)
    && (forall ciphertext, iv, key ::
          p.aesGcmDecrypt(ciphertext, iv, key).Some? ==>
            p.aesGcmEncrypt(p.aesGcmDecrypt(ciphertext, iv, key).value, iv, key) == ciphertext)
  }

  /**
   Whether `importHMACKey` accepts raw key data. The Web Cryptography API rejects an
   HMAC import of zero-length data with a DataError, so `hmacSign` and `hmacVerify`
   reject under such a key; the function values above are consulted only for keys
   this admits.
   */
  predicate HmacKeyImportable(key: Bytes) {
    |key| > 0
  }

  function Zeros(n: nat): Bytes {
    seq(n, _ => 0)
  }

  /**
   A stand-in that meets `Axioms` (constant hashes, the identity cipher with a zero
   tag). It has no cryptographic strength; it shows the axioms can all hold at once.
   */
  function StandIn(): Primitives {
    Primitives(
      data => Zeros(DIGEST_BYTES),
      (secret, salt) => CryptoKey(Zeros(AES_KEY_BYTES)),
      (data, key) => Zeros(MAC_BYTES),
      (signature, data, key) => signature == Zeros(MAC_BYTES),
      (plaintext, iv, key) => plaintext + Zeros(TAG_BYTES),
      (ciphertext, iv, key) =>
        if iv != [] && |ciphertext| >= TAG_BYTES && ciphertext == ciphertext[..|ciphertext| - TAG_BYTES] + Zeros(TAG_BYTES)
        then Some(ciphertext[..|ciphertext| - TAG_BYTES])
        else None
    )
  }

  /** Primitives that behave as the platform promises. */
  type Platform = p: Primitives | Axioms(p) ghost witness StandIn()
}
