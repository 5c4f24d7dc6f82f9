# Rayven client core in Dafny

Rayven shares a secret through a one-time link. The browser encrypts the text, and the
server only ever stores ciphertext. The passphrase travels in the link's hash, which
browsers do not send to the server. This project models the logic the client runs
around that exchange:

- **The envelope protocol** (`Envelope`), from `assets/js/crypto/index.ts`.
  - `encrypt` draws a 64-byte passphrase, a 64-byte salt and a 12-byte IV.
  - The record id is the HMAC-SHA-256 of the plaintext, keyed by the passphrase.
  - The lookup digest is the SHA-256 of the passphrase.
  - The plaintext is sealed with AES-256-GCM under a key that HKDF-SHA-512 derives from the passphrase and the salt.
  - `decrypt` re-derives the key and opens the ciphertext. It returns the plaintext only if the id verifies.
  - HMAC key import rejects an empty passphrase, so `decrypt` throws there once the ciphertext has opened.
- **The platform primitives** (`WebCrypto`). They are function values, not implementations. The predicate `Axioms` states what the protocol relies on:
  - the output lengths;
  - that GCM opening undoes sealing under a non-empty IV, opens nothing under an empty IV (section 5.2.1.1 of NIST SP 800-38D requires an IV of at least one bit), and accepts only a sealed text;
  - that HMAC verification accepts exactly the computed MAC.

  `Platform` is the subset type of primitives that satisfy the axioms. Its witness `StandIn` shows that the axioms are consistent.
- **The Base16 codec** (`Base16`), from `assets/js/encoding.ts`.
  - The encoder writes two lower-case digits per byte.
  - The decoder applies `parseInt(pair, 16)` to each two-character slice, followed by a range check.
  - `JsText.ParseIntRadix16` models `parseInt` with the leniency of the ECMA-262 algorithm, which the decoder inherits:
    - leading white space is skipped;
    - a sign is accepted;
    - a `0x` prefix is stripped;
    - anything after the first run of digits is ignored.
  - `PairTable` states the same behaviour as a table of cases, and `ParsePairMatchesTable` proves that the two agree on every pair.
  - `Decode` is written against the table. `DecodeLoop` is the decoder's loop as written, with `parseInt` on each slice, and it is proved equal to `Decode`.
- **The page hooks' string logic** (`Hooks`), from `assets/js/hooks.ts`:
  - the blank-string test;
  - the create form's gate, which rejects only the empty string;
  - the payload pushed to the server, which has no passphrase field;
  - the share link;
  - how the view button and the view form read the id and the passphrase back out of the link.

  The page's inputs arrive as parameters: the DOM values, `window.location` and the random draws. The `Base58`, `Base64` and `UTF8` codecs wrap code that is not part of this model. They are function values (`TextCodecs.Codecs`). The end-to-end lemmas assume only what these codecs do for every input (`TextCodecs.RoundTrips`):
  - each Base58 and Base64 decoder undoes its encoder;
  - text read back through UTF-8 is unchanged, except that one leading byte order mark (U+FEFF) is dropped. `new TextDecoder()` (`assets/js/encoding.ts:4`) keeps the default `ignoreBOM: false`, so text that starts with U+FEFF is shown again without it.

Where the code and its comments disagree, the model follows the code. The doc comment on `decrypt` (`assets/js/crypto/index.ts:51`) says the salt also derives the id. In the code the id is the HMAC of the plaintext under the passphrase alone. `Envelope.IdIgnoresSaltAndIV` proves that the salt does not enter the id.

## Model

| member | source | states |
|---|---|---|
| Envelope.Encrypt | assets/js/crypto/index.ts:17-44 | The passphrase, salt and IV come back unchanged. The id is `hmacSign(plaintext, passphrase)` and the digest is `sha256(passphrase)`, so they are 32 bytes each. The ciphertext is 16 bytes longer than the plaintext, and it opens to the plaintext under `hkdf(passphrase, salt)` and the IV. |
| Envelope.Decrypt | assets/js/crypto/index.ts:56-79 | It fails with `AuthenticationFailure` exactly when GCM opening fails. It fails with `HmacKeyRejected` exactly when the ciphertext opens but the passphrase is empty, which the HMAC key import rejects. It fails with `IntegrityMismatch` exactly when the passphrase is non-empty and the ciphertext opens to a plaintext whose MAC is not the id. On success, the passphrase is non-empty, the released plaintext seals to the given ciphertext, and its MAC is the id. |
| Envelope.EmptyPassphraseRejected | assets/js/crypto/crypto.ts:30-37 | With an empty passphrase and a non-empty IV, a ciphertext that opens under the derived key still releases nothing: decryption fails with `HmacKeyRejected`. |
| Envelope.EmptyIvRejected | assets/js/crypto/crypto.ts:107-113 | Under an empty IV, as an empty `data-aes-iv` field gives, decryption fails with `AuthenticationFailure`, whatever the other inputs. |
| Envelope.SealInjective | assets/js/crypto/index.ts:34 | Under one key and a non-empty IV, two plaintexts that seal to the same ciphertext are equal. |
| Envelope.RoundTrip | assets/js/crypto/index.ts:17-79 | Decrypting the fields of any envelope returns its plaintext, the empty plaintext included. |
| Envelope.IdChecked | assets/js/crypto/index.ts:69-78 | With the genuine passphrase, salt, IV and ciphertext, decryption succeeds if and only if the presented id is the envelope's own. With any other id it reports an integrity failure. |
| Envelope.IdBindsPlaintext | assets/js/crypto/index.ts:70-76 | The id from an encryption of `p1`, presented with another envelope's fields under the same passphrase, fails the integrity check unless the MACs of `p1` and `p2` under that passphrase coincide. |
| Envelope.IdIgnoresSaltAndIV | assets/js/crypto/index.ts:24-27 | The id and the digest do not depend on the salt or the IV. |
| Envelope.ReleasedPlaintextIsUnique | assets/js/crypto/index.ts:63-78 | Whatever `decrypt` releases is the one plaintext that seals to the given ciphertext under the derived key. No other plaintext, and no partial one, comes back. |
| Envelope.HelloWorld | assets/js/crypto/index.ts:17-79 | The 11 bytes of "hello world" give a 27-byte ciphertext and decrypt back to themselves. |
| Envelope.EmptyPlaintext | assets/js/crypto/index.ts:17-79 | The empty plaintext gives a 16-byte ciphertext and decrypts back to the empty sequence. |
| JsText.WhiteSpacePrefixLength | assets/js/encoding.ts:59 | The length of the leading white-space run that `parseInt` skips: everything before it is white space, and the character at it is not. |
| JsText.HexPrefixLength | assets/js/encoding.ts:59 | The length of the longest run of radix-16 digits at the start, the run `parseInt` reads. |
| JsText.ParseTwoDigits | assets/js/encoding.ts:59 | `parseInt` of two hex digits in either case is `16 * high + low`. |
| JsText.ParseDigitThenJunk | assets/js/encoding.ts:59 | A digit followed by a non-digit, other than the `0x`/`0X` prefix, parses as that one digit. |
| JsText.ParseBareRadixPrefix | assets/js/encoding.ts:59 | `0x` and `0X` parse as NaN, because the prefix is stripped and no digit remains. |
| JsText.ParseSpaceThenDigit | assets/js/encoding.ts:59 | Leading white space is skipped, so white space then a digit parses as that digit. |
| JsText.ParseSpaceThenJunk | assets/js/encoding.ts:59 | White space followed by a non-digit is NaN. |
| JsText.ParseSignThenDigit | assets/js/encoding.ts:59 | A sign then a digit parses as the digit, negative exactly when the sign is `-`. |
| JsText.ParseSignThenJunk | assets/js/encoding.ts:59 | A sign followed by a non-digit is NaN. |
| JsText.ParseJunkFirst | assets/js/encoding.ts:59 | A pair that starts with anything other than a digit, white space or a sign is NaN. |
| JsText.ToStringRadix16 | assets/js/encoding.ts:46 | `n.toString(16)` consists of lower-case digits whose value is `n`, with no leading zero. It is one digit exactly when `n < 16`, and two for a byte of 16 or more. |
| JsText.PadStart | assets/js/encoding.ts:46 | The result keeps the string as a suffix, reaches the target length, and is filled in front with the fill character. |
| JsText.ContainsNonWhiteSpace | assets/js/hooks.ts:6 | `/\S+/.test(s)` holds exactly when some character of `s` is not white space. |
| JsText.ReplaceLeading | assets/js/hooks.ts:107 | When `s` starts with the prefix, the prefix followed by the result is `s`. Otherwise `s` is unchanged. |
| JsText.TrimTrailing | assets/js/hooks.ts:89 | The result is a prefix of the input, everything removed is the trimmed character, and the result does not end with that character. |
| JsText.ReplaceLeadingOnce | assets/js/hooks.ts:117-120 | Only one leading occurrence is removed: a doubled prefix keeps its second copy. |
| JsText.TrimTrailingAbsorbs | assets/js/hooks.ts:89 | Trimming is idempotent, and extra trailing characters do not change the result. |
| Base16.EncodeByte | assets/js/encoding.ts:46 | Two lower-case digits whose value, high digit first, is the byte. |
| Base16.PaddedToStringIsEncodeByte | assets/js/encoding.ts:46 | `byte.toString(16).padStart(2, "0")` is exactly the two-digit encoding of the byte. |
| Base16.Encode | assets/js/encoding.ts:43-49 | The output is twice as long as the input, consists of lower-case hex digits only, and pair `i` is the encoding of byte `i`. |
| Base16.EncodeLoop | assets/js/encoding.ts:43-49 | The source's loop, which appends the padded `toString(16)` of each byte, computes `Encode`. |
| Base16.ParsePairMatchesTable | assets/js/encoding.ts:58-62 | For every two-character slice, `parseInt` followed by the range check agrees with the case table. The table has these cases: two digits give their value; `0x`/`0X` fails; a digit then junk gives the digit; white space or `+` then a digit gives that digit; `-0` gives 0; everything else fails. |
| Base16.ParseEncodedByte | assets/js/encoding.ts:43-62 | Every byte's two-digit encoding parses back to that byte. |
| Base16.DecodeFrom | assets/js/encoding.ts:57-64 | From pair `i` on, the result is a success exactly when every remaining pair parses. A success holds the bytes of those pairs in order. A failure names the first rejected pair and its offset. |
| Base16.Decode | assets/js/encoding.ts:51-66 | An odd length fails with `OddLength`. Decoding succeeds exactly when the length is even and every pair parses. A success has half the length of the input, with byte `k` read from characters `2k` and `2k+1`. Otherwise the error names the first rejected pair and its offset. |
| Base16.ParsePairAt | assets/js/encoding.ts:58-59 | `parseInt` on the slice `s.substring(2k, 2k + 2)` is what the case table says of pair `k`. |
| Base16.ParseSlice | assets/js/encoding.ts:58-62 | One loop step, `parseInt` of the slice and the range check, yields the table's byte for that pair. |
| Base16.DecodeLoop | assets/js/encoding.ts:51-66 | The source's loop, which fills a buffer of half the length and throws at the first bad pair, computes `Decode`. |
| Base16.DecodeCollects | assets/js/encoding.ts:57-65 | When every pair reads as the matching byte of the buffer, decoding returns the buffer. |
| Base16.DecodeStopsAt | assets/js/encoding.ts:60-62 | When pair `i` is the first rejected pair, decoding fails with that pair's text and offset `2i`, and no bytes come back. |
| Base16.DecodeEncode | assets/js/encoding.ts:43-66 | `Decode(Encode(b)) == Success(b)` for every byte sequence. |
| Base16.EncodeInjective | assets/js/encoding.ts:43-49 | Distinct byte sequences have distinct encodings. |
| Base16.UpperHexDigits | assets/js/encoding.ts:59 | A specification helper for `DecodeIgnoresCase`, with no counterpart in the source. It stands for the upper-case input that `parseInt` accepts: the same length, with each digit a–f raised to upper case and every other character unchanged. |
| Base16.TableIgnoresCase | assets/js/encoding.ts:59 | Upper-casing the digits of a pair does not change what it decodes to. |
| Base16.DecodeIgnoresCase | assets/js/encoding.ts:51-66 | A string decodes exactly when its upper-cased form does, and both give the same bytes. |
| Base16.EncodeDecodeNotIdentity | assets/js/encoding.ts:43-66 | "AB" decodes to 0xab, whose encoding is "ab", so encoding after decoding is not the identity. |
| Base16.LenientDigitThenJunk | assets/js/encoding.ts:59-63 | "1z" decodes to the byte 1. |
| Base16.LenientSpaceThenDigit | assets/js/encoding.ts:59-63 | " 1" decodes to the byte 1. |
| Base16.LenientPlusSign | assets/js/encoding.ts:59-63 | "+f" decodes to the byte 15. |
| Base16.LenientMinusZero | assets/js/encoding.ts:59-63 | "-0" passes the `byte < 0` check and decodes to 0. |
| Base16.RejectsBareRadixPrefix | assets/js/encoding.ts:59-62 | "0x" makes the decoder throw. |
| Base16.RejectsNonDigits | assets/js/encoding.ts:59-62 | "zz" makes the decoder throw. |
| Base16.RejectsNegative | assets/js/encoding.ts:59-62 | "-1" makes the decoder throw. |
| Base16.DecodeErrors | assets/js/encoding.ts:52-62 | "abc" fails for odd length, "zz" fails at index 0, and "00-1" fails on "-1" at index 2. |
| Base16.EmptyCases | assets/js/encoding.ts:43-57 | The empty string decodes to no bytes, and no bytes encode to the empty string. |
| Hooks.IsBlankString | assets/js/hooks.ts:5-8 | A value is blank exactly when it is not a string, or when every character in it is white space. |
| Hooks.GateAdmitsBlankText | assets/js/hooks.ts:37-41 | The create form's guard and the blank test disagree exactly on non-empty white-space-only text, which proceeds to encryption. Every value the guard stops is blank. |
| Hooks.SubmitPayload | assets/js/hooks.ts:66-76 | The id is the Base58 of the envelope's id. The salt, IV and ciphertext are the Base64 of the envelope's fields. The digest field is twice as long as the digest, all lower-case hex digits, and decodes back to it, which pins it to `Base16.Encode`. The two policy fields are passed through unchanged. |
| Hooks.PayloadOmitsPassphrase | assets/js/hooks.ts:64-76 | Replacing the envelope's passphrase changes nothing in the pushed payload. |
| Hooks.CreateSubmit | assets/js/hooks.ts:34-77 | It stops exactly when the guard fails. Otherwise the page keeps the Base58 passphrase, and the payload's digest field is 64 lower-case hex digits that decode to `sha256(passphrase)`. The payload's id is the Base58 of the HMAC of the text's UTF-8 bytes. The salt and IV are the Base64 of the draws. The ciphertext is the Base64 of the AES-GCM sealing of those bytes under `hkdf(passphrase, salt)` and the IV. The policy fields are passed through. |
| Hooks.ShareOrigin | assets/js/hooks.ts:89 | The origin with its trailing slashes removed: a prefix of the original that does not end in `/`, with only slashes cut. |
| Hooks.ShareLink | assets/js/hooks.ts:91-96 | A blank passphrase gives the fixed placeholder. Otherwise the link is the origin, then `/s/`, the id, `#` and the passphrase. |
| Hooks.ShareLinkReadsBack | assets/js/hooks.ts:89-120 | Trailing slashes on the origin do not change the share link. The view hooks read back exactly the id from its path and the passphrase from its hash. |
| Hooks.ViewButtonRequest | assets/js/hooks.ts:103-114 | It sends something exactly when the hash's passphrase decodes. What it sends is 64 lower-case hex digits that decode to the SHA-256 of the decoded passphrase. |
| Hooks.ViewForm | assets/js/hooks.ts:116-148 | It reports `Undecodable(f)` exactly when `f` is the first field, in the order id, passphrase, salt, IV, ciphertext, that does not decode. When every field decodes, it shows the UTF-8 reading of what `decrypt` releases, or else it reports `decrypt`'s error. |
| Hooks.ViewFormDecrypts | assets/js/hooks.ts:116-147 | When all five fields decode and decryption releases a plaintext, the form shows that plaintext as text. |
| Hooks.CreateThenView | assets/js/hooks.ts:34-148 | Text submitted on the create form and opened through the link's path and hash is shown again. It is unchanged, except that a leading U+FEFF is dropped by the UTF-8 decoder. |
| Hooks.ViewButtonFindsRecord | assets/js/hooks.ts:66-112 | For a link's hash, the view button sends exactly the digest string the create form stored, so the record is found. Only the Base58 round trip is assumed. |

## Left out

- The internals of SHA-256, HMAC, HKDF and AES-GCM (`assets/js/crypto/crypto.ts`) are not modelled. They are platform code, and only the properties in `WebCrypto.Axioms` are assumed. Confidentiality, constant-time MAC comparison and key non-extractability cannot be stated about function values.
- `getRandomBytes` is not modelled. The three draws are parameters of `Envelope.Encrypt` with their lengths (64, 64, 12) as preconditions, and their freshness is probabilistic.
- The concurrency of `Promise.all` in `encrypt` is not modelled. The three calls are independent and are evaluated one after another.
- A primitive that rejects inside `encrypt` (for example, an unavailable crypto API) is not modelled. `Encrypt` always returns an envelope. Its 64-byte passphrase is never an empty HMAC key.
- The only primitive rejections modelled in `decrypt` are GCM opening under an empty IV and the HMAC import of an empty key (`WebCrypto.HmacKeyImportable`). HKDF accepts empty key material and is total.
- The AES-GCM plaintext limit of 2^39 - 256 bits (section 5.2.1.1 of NIST SP 800-38D) is not modelled. Sealing is total in `WebCrypto.Axioms`, and a page text that large is out of reach in practice.
- Envelope.IdBindsPlaintext: does not state that different plaintexts always fail. A 32-byte MAC cannot be injective on all byte sequences, so the lemma is an if-and-only-if on MAC equality, and collision resistance is not expressible here.
- Base58 (a vendored base-x codec), Base64 (a vendored library) and UTF-8 (`TextEncoder`/`TextDecoder`) are not modelled. They are function values, and their round trips are an assumption of the end-to-end lemmas only. Whether Base64 decoding rejects or skips bad characters is left to that function value.
- JavaScript strings are sequences of UTF-16 code units, while Dafny strings are sequences of Unicode scalar values. `data.length` and `substring` in `Base16.decode` count code units, so text with characters outside the Basic Multilingual Plane, and lone surrogates, are not modelled.
- `parseInt` is modelled only for integers. Precision loss above 2^53 cannot arise from a two-character slice.
- All DOM and event plumbing in `assets/js/hooks.ts` is not modelled: element lookup, `pushEvent`, focus, select and `dataset` writes. The values read from the page are parameters. Whether the passphrase is held in the page's `data-` attribute is shown by `CreateOutcome.pagePassphrase`.
- The view form's data attributes are taken as strings. A missing attribute, which would reach the Base64 decoder as `undefined`, is not modelled.
- A rejected promise in the view hooks (an exception thrown by a decoder or by `decrypt`) appears as `None` or `Failure`. What the page then shows is not modelled.
