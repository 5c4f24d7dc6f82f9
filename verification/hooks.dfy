/**
 The string logic inside the page hooks of assets/js/hooks.ts: the blank-string
 test, the create form's plaintext gate and submitted payload, the share link, and
 how the view button and view form read the link back. The DOM, events and
 `window.location` are left to the caller; what the hooks read from them arrives
 as parameters.
 */
module Hooks {
  import opened Common
  import opened JsText
  import opened WebCrypto
  import opened Envelope
  import opened TextCodecs
  import Base16

  /** A value read from the page: a string, or undefined (as a missing `data-` attribute is). */
  datatype JsValue = JsString(text: string) | JsUndefined

  /** `isBlankString`: not a string, or nothing in it but white space. */
  function IsBlankString(value: JsValue): (blank: bool)
    ensures blank <==> value.JsUndefined? || forall i | 0 <= i < |value.text| :: IsWhiteSpace(value.text[i])
  {
    !(value.JsString? && ContainsNonWhiteSpace(value.text))
  }

  /** The create form's guard: it stops on a non-string or the empty string, and nothing else. */
  predicate SubmitProceeds(plaintext: JsValue) {
    !(plaintext.JsUndefined? || plaintext.text == "")
  }

  /**
   The guard is not `IsBlankString`: the two disagree exactly on non-empty text made
   of white space, which is blank yet goes on to be encrypted.
   */
  lemma GateAdmitsBlankText(plaintext: JsValue)
    ensures SubmitProceeds(plaintext) && IsBlankString(plaintext)
            <==> plaintext.JsString? && plaintext.text != []
                 && forall i | 0 <= i < |plaintext.text| :: IsWhiteSpace(plaintext.text[i])
    ensures !SubmitProceeds(plaintext) ==> IsBlankString(plaintext)
  {
  }

  /** The `link` object pushed with the "submit" event. It has no passphrase field. */
  datatype LinkPayload = LinkPayload(
    id: string,               // Base58 of the id
    passphraseSalt: string,   // Base64 of the salt
    passphraseDigest: string, // Base16 of the SHA-256 digest of the passphrase
    aesIV: string,            // Base64 of the IV
    ciphertext: string,       // Base64 of the ciphertext
    maxViews: string,
    maxDays: string
  )

  /** The payload built from an envelope and the two policy fields. */
  function SubmitPayload(codecs: Codecs, e: Envelope, maxViews: string, maxDays: string): (r: LinkPayload)
    ensures r.id == codecs.base58Encode(e.id)
    ensures r.passphraseSalt == codecs.base64Encode(e.passphraseSalt)
    ensures r.aesIV == codecs.base64Encode(e.aesIV)
    ensures r.ciphertext == codecs.base64Encode(e.ciphertext)
    ensures |r.passphraseDigest| == 2 * |e.passphraseDigest|
    ensures forall i | 0 <= i < |r.passphraseDigest| :: IsLowerHexDigit(r.passphraseDigest[i])
    ensures Base16.Decode(r.passphraseDigest) == Success(e.passphraseDigest)
    ensures r.maxViews == maxViews && r.maxDays == maxDays
  {
    Base16.DecodeEncode(e.passphraseDigest);
    LinkPayload(
      codecs.base58Encode(e.id),
      codecs.base64Encode(e.passphraseSalt),
      Base16.Encode(e.passphraseDigest),
      codecs.base64Encode(e.aesIV),
      codecs.base64Encode(e.ciphertext),
      maxViews,
      maxDays)
  }

  /** The payload does not depend on the passphrase itself: replacing it changes nothing sent. */
  lemma PayloadOmitsPassphrase(codecs: Codecs, e: Envelope, other: Bytes, maxViews: string, maxDays: string)
    ensures SubmitPayload(codecs, e, maxViews, maxDays) == SubmitPayload(codecs, e.(passphrase := other), maxViews, maxDays)
  {
  }

  /** What the create form leaves behind: the passphrase kept in the page, and the payload sent. */
  datatype CreateOutcome = CreateOutcome(pagePassphrase: string, payload: LinkPayload)

  /**
   The create form's submit handler, with the random draws passed in. None when the
   guard stops it; otherwise the UTF-8 bytes of the text are encrypted, the Base58
   passphrase stays in the page, and the payload goes out.
   */
  function CreateSubmit(c: Platform, codecs: Codecs, plaintext: JsValue, passphrase: Bytes,
                        passphraseSalt: Bytes, aesIV: Bytes, maxViews: string, maxDays: string)
    : (r: Option<CreateOutcome>)
    requires |passphrase| == PASSPHRASE_BYTES && |passphraseSalt| == SALT_BYTES && |aesIV| == IV_BYTES
    ensures r.None? <==> !SubmitProceeds(plaintext)
    ensures r.Some? ==> r.value.pagePassphrase == codecs.base58Encode(passphrase)
    ensures r.Some? ==> |r.value.payload.passphraseDigest| == 2 * DIGEST_BYTES
    ensures r.Some? ==> forall i | 0 <= i < |r.value.payload.passphraseDigest| ::
                          IsLowerHexDigit(r.value.payload.passphraseDigest[i])
    ensures r.Some? ==> Base16.Decode(r.value.payload.passphraseDigest) == Success(c.sha256(passphrase))
    ensures r.Some? ==> r.value.payload.id == codecs.base58Encode(c.hmacSign(codecs.utf8Decode(plaintext.text), passphrase))
    ensures r.Some? ==> r.value.payload.passphraseSalt == codecs.base64Encode(passphraseSalt)
    ensures r.Some? ==> r.value.payload.aesIV == codecs.base64Encode(aesIV)
    ensures r.Some? ==> r.value.payload.ciphertext
                        == codecs.base64Encode(c.aesGcmEncrypt(codecs.utf8Decode(plaintext.text), aesIV,
                                                               c.hkdf(passphrase, passphraseSalt)))
    ensures r.Some? ==> r.value.payload.maxViews == maxViews && r.value.payload.maxDays == maxDays
  {
    if !SubmitProceeds(plaintext) then None
    else
      var e := Encrypt(c, codecs.utf8Decode(plaintext.text), passphrase, passphraseSalt, aesIV);
      Some(CreateOutcome(codecs.base58Encode(e.passphrase), SubmitPayload(codecs, e, maxViews, maxDays)))
  }

  /** The share input's text when no passphrase is in the page. */
  const PASSPHRASE_MISSING := "TODO: error state when passphrase is not present"

  /** A value inside a template literal: undefined prints as "undefined". */
  function TemplateText(value: JsValue): string {
    match value
    case JsString(text) => text
    case JsUndefined => "undefined"
  }

  /** The page origin with every trailing slash removed. */
  function ShareOrigin(locationOrigin: string): (r: string)
    ensures r <= locationOrigin
    ensures r == [] || r[|r| - 1] != '/'
    ensures forall i | |r| <= i < |locationOrigin| :: locationOrigin[i] == '/'
  {
    TrimTrailing(locationOrigin, '/')
  }

  /** The text of the share form's input. */
  function ShareLink(locationOrigin: string, linkId: JsValue, passphrase: JsValue): (link: string)
    ensures IsBlankString(passphrase) ==> link == PASSPHRASE_MISSING
    ensures !IsBlankString(passphrase) ==>
              link == ShareOrigin(locationOrigin) + "/s/" + TemplateText(linkId) + "#" + passphrase.text
  {
    if IsBlankString(passphrase) then PASSPHRASE_MISSING
    else ShareOrigin(locationOrigin) + "/s/" + TemplateText(linkId) + "#" + passphrase.text
  }

  /** The id the view form reads from the path: one leading "/s/" removed. */
  function LinkIdFromPath(pathname: string): string {
    ReplaceLeading(pathname, "/s/")
  }

  /** The passphrase text the view hooks read from the hash: one leading "#" removed. */
  function PassphraseFromHash(hash: string): string {
    ReplaceLeading(hash, "#")
  }

  /**
   A share link is the origin without trailing slashes, then a path and a hash from
   which the view hooks read back exactly the id and the passphrase; trailing slashes
   on the origin do not change the link.
   */
  lemma ShareLinkReadsBack(locationOrigin: string, slashes: nat, linkId: string, passphrase: string)
    requires !IsBlankString(JsString(passphrase))
    ensures ShareLink(locationOrigin + seq(slashes, _ => '/'), JsString(linkId), JsString(passphrase))
            == ShareOrigin(locationOrigin) + ("/s/" + linkId) + ("#" + passphrase)
    ensures LinkIdFromPath("/s/" + linkId) == linkId
    ensures PassphraseFromHash("#" + passphrase) == passphrase
  {
    TrimTrailingAbsorbs(locationOrigin, '/', slashes);
    ReplaceLeadingOnce("/s/", linkId);
    ReplaceLeadingOnce("#", passphrase);
  }

  /** The `view` event's payload: the digest alone. */
  datatype ViewRequest = ViewRequest(passphraseDigest: string)

  /** The view button: decode the passphrase from the hash, hash it, send the Base16 digest. */
  function ViewButtonRequest(c: Platform, codecs: Codecs, hash: string): (r: Option<ViewRequest>)
    ensures r.Some? <==> codecs.base58Decode(PassphraseFromHash(hash)).Some?
    ensures r.Some? ==> |r.value.passphraseDigest| == 2 * DIGEST_BYTES
    ensures r.Some? ==> forall i | 0 <= i < |r.value.passphraseDigest| :: IsLowerHexDigit(r.value.passphraseDigest[i])
    ensures r.Some? ==> Base16.Decode(r.value.passphraseDigest)
                        == Success(c.sha256(codecs.base58Decode(PassphraseFromHash(hash)).value))
  {
    match codecs.base58Decode(PassphraseFromHash(hash))
    case None => None
    case Some(passphrase) =>
      var digest := c.sha256(passphrase);
      Base16.DecodeEncode(digest);
      Some(ViewRequest(Base16.Encode(digest)))
  }

  /** A page field the view form decodes. */
  datatype Field = IdField | PassphraseField | SaltField | IvField | CiphertextField

  /** The fields in the order the view form decodes them. */
  const FIELD_ORDER: seq<Field> := [IdField, PassphraseField, SaltField, IvField, CiphertextField]

  /** Why the view form shows nothing: a field does not decode, or decryption rejects. */
  datatype ViewError = Undecodable(field: Field) | Rejected(reason: DecryptError)

  /** What each field decodes to, in `FIELD_ORDER`: the id and passphrase as Base58, the rest as Base64. */
  function FieldDecodings(codecs: Codecs, pathname: string, hash: string,
                          saltText: string, ivText: string, ciphertextText: string)
    : (d: seq<Option<Bytes>>)
    ensures |d| == |FIELD_ORDER|
  {
    [ codecs.base58Decode(LinkIdFromPath(pathname)),
      codecs.base58Decode(PassphraseFromHash(hash)),
      codecs.base64Decode(saltText),
      codecs.base64Decode(ivText),
      codecs.base64Decode(ciphertextText) ]
  }

  /**
   The view form: read the id from the path and the passphrase from the hash (both
   Base58), the salt, IV and ciphertext from the page (Base64), decrypt, and show the
   plaintext as text. The first field that does not decode stops it.
   */
  function ViewForm(c: Platform, codecs: Codecs, pathname: string, hash: string,
                    saltText: string, ivText: string, ciphertextText: string)
    : (r: Result<string, ViewError>)
    ensures var d := FieldDecodings(codecs, pathname, hash, saltText, ivText, ciphertextText);
            forall j | 0 <= j < |FIELD_ORDER| ::
              r == Failure(Undecodable(FIELD_ORDER[j])) <==> d[j].None? && forall k | 0 <= k < j :: d[k].Some?
    ensures var d := FieldDecodings(codecs, pathname, hash, saltText, ivText, ciphertextText);
            (r.Failure? && r.error.Undecodable?) <==> exists j | 0 <= j < |FIELD_ORDER| :: d[j].None?
    ensures var d := FieldDecodings(codecs, pathname, hash, saltText, ivText, ciphertextText);
            (forall j | 0 <= j < |FIELD_ORDER| :: d[j].Some?) ==>
              match Decrypt(c, d[0].value, d[1].value, d[2].value, d[3].value, d[4].value)
              case Success(plaintext) => r == Success(codecs.utf8Encode(plaintext))
              case Failure(e) => r == Failure(Rejected(e))
  {
    var d := FieldDecodings(codecs, pathname, hash, saltText, ivText, ciphertextText);
    if d[0].None? then Failure(Undecodable(IdField))
    else if d[1].None? then Failure(Undecodable(PassphraseField))
    else if d[2].None? then Failure(Undecodable(SaltField))
    else if d[3].None? then Failure(Undecodable(IvField))
    else if d[4].None? then Failure(Undecodable(CiphertextField))
    else
      match Decrypt(c, d[0].value, d[1].value, d[2].value, d[3].value, d[4].value)
      case Failure(e) => Failure(Rejected(e))
      case Success(plaintext) => Success(codecs.utf8Encode(plaintext))
  }

  /** When every field decodes and decryption releases a plaintext, the form shows it as text. */
  lemma ViewFormDecrypts(c: Platform, codecs: Codecs, pathname: string, hash: string,
                         saltText: string, ivText: string, ciphertextText: string,
                         id: Bytes, passphrase: Bytes, salt: Bytes, iv: Bytes, ciphertext: Bytes, plaintext: Bytes)
    requires codecs.base58Decode(LinkIdFromPath(pathname)) == Some(id)
    requires codecs.base58Decode(PassphraseFromHash(hash)) == Some(passphrase)
    requires codecs.base64Decode(saltText) == Some(salt)
    requires codecs.base64Decode(ivText) == Some(iv)
    requires codecs.base64Decode(ciphertextText) == Some(ciphertext)
    requires Decrypt(c, id, passphrase, salt, iv, ciphertext) == Success(plaintext)
    ensures ViewForm(c, codecs, pathname, hash, saltText, ivText, ciphertextText) == Success(codecs.utf8Encode(plaintext))
  {
  }

  /**
   End to end: text submitted on the create form, stored as the payload says and
   opened through the link's path and hash, shows the same text again, except that a
   leading byte order mark is lost on the way through UTF-8.
   */
  lemma CreateThenView(c: Platform, codecs: Codecs, text: string, passphrase: Bytes,
                       passphraseSalt: Bytes, aesIV: Bytes, maxViews: string, maxDays: string)
    requires RoundTrips(codecs)
    requires text != ""
    requires |passphrase| == PASSPHRASE_BYTES && |passphraseSalt| == SALT_BYTES && |aesIV| == IV_BYTES
    ensures var created := CreateSubmit(c, codecs, JsString(text), passphrase, passphraseSalt, aesIV, maxViews, maxDays);
            && created.Some?
            && ViewForm(c, codecs, "/s/" + created.value.payload.id, "#" + created.value.pagePassphrase,
                        created.value.payload.passphraseSalt, created.value.payload.aesIV,
                        created.value.payload.ciphertext)
               == Success(if text[0] == BYTE_ORDER_MARK then text[1..] else text)
  {
    var created := CreateSubmit(c, codecs, JsString(text), passphrase, passphraseSalt, aesIV, maxViews, maxDays);
    var bytes := codecs.utf8Decode(text);
    var e := Encrypt(c, bytes, passphrase, passphraseSalt, aesIV);
    var p := created.value.payload;
    assert p == SubmitPayload(codecs, e, maxViews, maxDays);
    ReplaceLeadingOnce("/s/", p.id);
    ReplaceLeadingOnce("#", created.value.pagePassphrase);
    RoundTrip(c, bytes, passphrase, passphraseSalt, aesIV);
    ViewFormDecrypts(c, codecs, "/s/" + p.id, "#" + created.value.pagePassphrase,
                     p.passphraseSalt, p.aesIV, p.ciphertext,
                     e.id, passphrase, passphraseSalt, aesIV, e.ciphertext, bytes);
  }

  /**
   The digest the view button sends for a link's hash is the one the create form
   stored, so the record is found by it.
   */
  lemma ViewButtonFindsRecord(c: Platform, codecs: Codecs, text: string, passphrase: Bytes,
                              passphraseSalt: Bytes, aesIV: Bytes, maxViews: string, maxDays: string)
    requires Base58RoundTrips(codecs)
    requires text != ""
    requires |passphrase| == PASSPHRASE_BYTES && |passphraseSalt| == SALT_BYTES && |aesIV| == IV_BYTES
    ensures var created := CreateSubmit(c, codecs, JsString(text), passphrase, passphraseSalt, aesIV, maxViews, maxDays);
            && created.Some?
            && ViewButtonRequest(c, codecs, "#" + created.value.pagePassphrase)
               == Some(ViewRequest(created.value.payload.passphraseDigest))
  {
    var created := CreateSubmit(c, codecs, JsString(text), passphrase, passphraseSalt, aesIV, maxViews, maxDays);
    ReplaceLeadingOnce("#", created.value.pagePassphrase);
  }
}
