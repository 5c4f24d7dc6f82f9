/**
 The envelope protocol of assets/js/crypto/index.ts. `Encrypt` seals a plaintext
 under a key derived from a fresh passphrase and salt, and binds the plaintext to
 the passphrase with an HMAC that doubles as the record's id; `Decrypt` re-derives
 the key, opens the ciphertext, and releases the plaintext only if the id verifies.
 */
module Envelope {
  import opened Common
  import opened WebCrypto

  /** `getRandomBytes(64)` for the passphrase. */
  const PASSPHRASE_BYTES := 64
  /** `getRandomBytes(64)` for the passphrase salt. */
  const SALT_BYTES := 64
  /** `getRandomBytes(12)` for the AES-GCM IV. */
  const IV_BYTES := 12

  /** What `encrypt` resolves to. */
  datatype Envelope = Envelope(
    id: Bytes,
    passphrase: Bytes,
    passphraseSalt: Bytes,
    passphraseDigest: Bytes,
    aesIV: Bytes,
    ciphertext: Bytes
  )

  /**
   Why `decrypt` rejects: the AES-GCM tag check fails, the passphrase cannot be
   imported as an HMAC key, or the id does not verify.
   */
  datatype DecryptError = AuthenticationFailure | HmacKeyRejected | IntegrityMismatch

  /** The field sizes every envelope from `Encrypt` has. */
  predicate WellFormed(e: Envelope) {
    && |e.id| == MAC_BYTES
    && |e.passphrase| == PASSPHRASE_BYTES
    && |e.passphraseSalt| == SALT_BYTES
    && |e.passphraseDigest| == DIGEST_BYTES
    && |e.aesIV| == IV_BYTES
    && |e.ciphertext| >= TAG_BYTES
  }

  /**
   `encrypt(plaintext)`, with the three random draws passed in. The id, the digest
   and the key are independent of one another; the ciphertext uses the key.
   */
  function Encrypt(c: Platform, plaintext: Bytes, passphrase: Bytes, passphraseSalt: Bytes, aesIV: Bytes): (e: Envelope)
    requires |passphrase| == PASSPHRASE_BYTES && |passphraseSalt| == SALT_BYTES && |aesIV| == IV_BYTES
    ensures e.passphrase == passphrase && e.passphraseSalt == passphraseSalt && e.aesIV == aesIV
    ensures WellFormed(e)
    ensures |e.ciphertext| == |plaintext| + TAG_BYTES
    ensures e.id == c.hmacSign(plaintext, passphrase)
    ensures e.passphraseDigest == c.sha256(passphrase)
    ensures c.aesGcmDecrypt(e.ciphertext, aesIV, c.hkdf(passphrase, passphraseSalt)) == Some(plaintext)
  {
    var id := c.hmacSign(plaintext, passphrase);
    var passphraseDigest := c.sha256(passphrase);
    var key := c.hkdf(passphrase, passphraseSalt);
    var ciphertext := c.aesGcmEncrypt(plaintext, aesIV, key);
    Envelope(id, passphrase, passphraseSalt, passphraseDigest, aesIV, ciphertext)
  }

  /**
   `decrypt(id, passphrase, passphraseSalt, aesIV, ciphertext)`. Nothing of the
   plaintext comes back on either failure.
   */
  function Decrypt(c: Platform, id: Bytes, passphrase: Bytes, passphraseSalt: Bytes, aesIV: Bytes, ciphertext: Bytes)
    : (r: Result<Bytes, DecryptError>)
    ensures r == Failure(AuthenticationFailure)
            <==> c.aesGcmDecrypt(ciphertext, aesIV, c.hkdf(passphrase, passphraseSalt)).None?
    ensures r == Failure(HmacKeyRejected)
            <==> c.aesGcmDecrypt(ciphertext, aesIV, c.hkdf(passphrase, passphraseSalt)).Some?
                 && !HmacKeyImportable(passphrase)
    ensures r == Failure(IntegrityMismatch)
            <==> && HmacKeyImportable(passphrase)
                 && c.aesGcmDecrypt(ciphertext, aesIV, c.hkdf(passphrase, passphraseSalt)).Some?
                 && id != c.hmacSign(c.aesGcmDecrypt(ciphertext, aesIV, c.hkdf(passphrase, passphraseSalt)).value, passphrase)
    ensures r.Success? ==> HmacKeyImportable(passphrase)
    ensures r.Success? ==> c.aesGcmEncrypt(r.value, aesIV, c.hkdf(passphrase, passphraseSalt)) == ciphertext
    ensures r.Success? ==> id == c.hmacSign(r.value, passphrase)
    ensures r.Success? ==> |ciphertext| == |r.value| + TAG_BYTES
  {
    var key := c.hkdf(passphrase, passphraseSalt);
    match c.aesGcmDecrypt(ciphertext, aesIV, key)
    case None => Failure(AuthenticationFailure)
    case Some(plaintext) =>
      if !HmacKeyImportable(passphrase) then Failure(HmacKeyRejected)
      else if c.hmacVerify(id, plaintext, passphrase) then Success(plaintext)
      else Failure(IntegrityMismatch)
  }

  /**
   An empty passphrase (what Base58 decoding of an empty hash gives) never releases
   a plaintext: once the ciphertext opens, the HMAC key import rejects it.
   */
  lemma EmptyPassphraseRejected(c: Platform, id: Bytes, passphraseSalt: Bytes, aesIV: Bytes, plaintext: Bytes)
    requires aesIV != []
    ensures var ciphertext := c.aesGcmEncrypt(plaintext, aesIV, c.hkdf([], passphraseSalt));
            Decrypt(c, id, [], passphraseSalt, aesIV, ciphertext) == Failure(HmacKeyRejected)
  {
  }

  /** An empty IV opens nothing, so decryption fails before the id is looked at. */
  lemma EmptyIvRejected(c: Platform, id: Bytes, passphrase: Bytes, passphraseSalt: Bytes, ciphertext: Bytes)
    ensures Decrypt(c, id, passphrase, passphraseSalt, [], ciphertext) == Failure(AuthenticationFailure)
  {
  }

  /** Under one key and a non-empty IV, distinct plaintexts never seal to the same ciphertext. */
  lemma SealInjective(c: Platform, p1: Bytes, p2: Bytes, iv: Bytes, key: CryptoKey)
    requires iv != []
    requires c.aesGcmEncrypt(p1, iv, key) == c.aesGcmEncrypt(p2, iv, key)
    ensures p1 == p2
  {
    assert c.aesGcmDecrypt(c.aesGcmEncrypt(p1, iv, key), iv, key) == Some(p1);
    assert c.aesGcmDecrypt(c.aesGcmEncrypt(p2, iv, key), iv, key) == Some(p2);
  }

  /** Decrypting the fields of an envelope returns its plaintext, the empty one included. */
  lemma RoundTrip(c: Platform, plaintext: Bytes, passphrase: Bytes, passphraseSalt: Bytes, aesIV: Bytes)
    requires |passphrase| == PASSPHRASE_BYTES && |passphraseSalt| == SALT_BYTES && |aesIV| == IV_BYTES
    ensures var e := Encrypt(c, plaintext, passphrase, passphraseSalt, aesIV);
            Decrypt(c, e.id, e.passphrase, e.passphraseSalt, e.aesIV, e.ciphertext) == Success(plaintext)
  {
  }

  /**
   With the genuine passphrase, salt, IV and ciphertext, decryption succeeds exactly
   when the id is the envelope's own, and otherwise reports an integrity failure.
   */
  lemma IdChecked(c: Platform, plaintext: Bytes, passphrase: Bytes, passphraseSalt: Bytes, aesIV: Bytes, id: Bytes)
    requires |passphrase| == PASSPHRASE_BYTES && |passphraseSalt| == SALT_BYTES && |aesIV| == IV_BYTES
    ensures var e := Encrypt(c, plaintext, passphrase, passphraseSalt, aesIV);
            Decrypt(c, id, e.passphrase, e.passphraseSalt, e.aesIV, e.ciphertext)
            == if id == e.id then Success(plaintext) else Failure(IntegrityMismatch)
  {
  }

  /**
   Binding: the id of one envelope presented with the passphrase-sharing fields of
   another fails the integrity check, unless the two plaintexts' MACs collide.
   */
  lemma IdBindsPlaintext(c: Platform, p1: Bytes, p2: Bytes, passphrase: Bytes,
                         salt1: Bytes, iv1: Bytes, salt2: Bytes, iv2: Bytes)
    requires |passphrase| == PASSPHRASE_BYTES
    requires |salt1| == SALT_BYTES && |iv1| == IV_BYTES && |salt2| == SALT_BYTES && |iv2| == IV_BYTES
    ensures var e1 := Encrypt(c, p1, passphrase, salt1, iv1);
            var e2 := Encrypt(c, p2, passphrase, salt2, iv2);
            Decrypt(c, e1.id, e2.passphrase, e2.passphraseSalt, e2.aesIV, e2.ciphertext)
            == if c.hmacSign(p1, passphrase) == c.hmacSign(p2, passphrase) then Success(p2)
               else Failure(IntegrityMismatch)
  {
    IdChecked(c, p2, passphrase, salt2, iv2, Encrypt(c, p1, passphrase, salt1, iv1).id);
  }

  /**
   The id and the digest depend on the plaintext and passphrase only: the salt and
   the IV do not enter them.
   */
  lemma IdIgnoresSaltAndIV(c: Platform, plaintext: Bytes, passphrase: Bytes,
                           salt1: Bytes, iv1: Bytes, salt2: Bytes, iv2: Bytes)
    requires |passphrase| == PASSPHRASE_BYTES
    requires |salt1| == SALT_BYTES && |iv1| == IV_BYTES && |salt2| == SALT_BYTES && |iv2| == IV_BYTES
    ensures Encrypt(c, plaintext, passphrase, salt1, iv1).id == Encrypt(c, plaintext, passphrase, salt2, iv2).id
    ensures Encrypt(c, plaintext, passphrase, salt1, iv1).passphraseDigest
            == Encrypt(c, plaintext, passphrase, salt2, iv2).passphraseDigest
  {
  }

  /**
   Whatever the inputs, a plaintext `Decrypt` releases is the one plaintext that
   seals to the given ciphertext under the derived key and IV.
   */
  lemma ReleasedPlaintextIsUnique(c: Platform, id: Bytes, passphrase: Bytes, passphraseSalt: Bytes,
                                  aesIV: Bytes, ciphertext: Bytes, other: Bytes)
    requires Decrypt(c, id, passphrase, passphraseSalt, aesIV, ciphertext).Success?
    requires c.aesGcmEncrypt(other, aesIV, c.hkdf(passphrase, passphraseSalt)) == ciphertext
    ensures Decrypt(c, id, passphrase, passphraseSalt, aesIV, ciphertext).value == other
  {
    var m := Decrypt(c, id, passphrase, passphraseSalt, aesIV, ciphertext).value;
    SealInjective(c, m, other, aesIV, c.hkdf(passphrase, passphraseSalt));
  }

  /** The 11 bytes of "hello world" give a 27-byte ciphertext and come back intact. */
  lemma HelloWorld(c: Platform, passphrase: Bytes, passphraseSalt: Bytes, aesIV: Bytes)
    requires |passphrase| == PASSPHRASE_BYTES && |passphraseSalt| == SALT_BYTES && |aesIV| == IV_BYTES
    ensures var e := Encrypt(c, [104, 101, 108, 108, 111, 32, 119, 111, 114, 108, 100], passphrase, passphraseSalt, aesIV);
            && |e.ciphertext| == 27
            && Decrypt(c, e.id, e.passphrase, e.passphraseSalt, e.aesIV, e.ciphertext)
               == Success([104, 101, 108, 108, 111, 32, 119, 111, 114, 108, 100])
  {
    RoundTrip(c, [104, 101, 108, 108, 111, 32, 119, 111, 114, 108, 100], passphrase, passphraseSalt, aesIV);
  }

  /** The empty plaintext gives a tag-only ciphertext and comes back empty. */
  lemma EmptyPlaintext(c: Platform, passphrase: Bytes, passphraseSalt: Bytes, aesIV: Bytes)
    requires |passphrase| == PASSPHRASE_BYTES && |passphraseSalt| == SALT_BYTES && |aesIV| == IV_BYTES
    ensures var e := Encrypt(c, [], passphrase, passphraseSalt, aesIV);
            && |e.ciphertext| == TAG_BYTES
            && Decrypt(c, e.id, e.passphrase, e.passphraseSalt, e.aesIV, e.ciphertext) == Success([])
  {
    RoundTrip(c, [], passphrase, passphraseSalt, aesIV);
  }
}
