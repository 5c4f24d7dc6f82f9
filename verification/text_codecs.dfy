/**
 The text codecs of assets/js/encoding.ts other than Base16. Each wraps code that is
 not part of this model (a base-x Base58 codec, a Base64 library, the platform's
 TextEncoder and TextDecoder), so each is a function value here.
 */
module TextCodecs {
  import opened Common

  /** The codecs, named as in encoding.ts. A decoder yields None where it throws. */
  datatype Codecs = Codecs(
    utf8Encode: Bytes -> string,          // UTF8.encode: TextDecoder.decode, bytes to text
    utf8Decode: string -> Bytes,          // UTF8.decode: TextEncoder.encode, text to bytes
    base58Encode: Bytes -> string,
    base58Decode: string -> Option<Bytes>,
    base64Encode: Bytes -> string,        // the default, not URL-safe, alphabet
    base64Decode: string -> Option<Bytes> // accepts either alphabet
  )

  /** U+FEFF, the byte order mark a default `TextDecoder` removes from the start of its output. */
  const BYTE_ORDER_MARK: char := '\U{FEFF}'

  /** Base58 decoding undoes Base58 encoding. */
  ghost predicate Base58RoundTrips(codecs: Codecs) {
    forall b :: codecs.base58Decode(codecs.base58Encode(b)) == Some(b)
  }

  /** Base64 decoding undoes Base64 encoding. */
  ghost predicate Base64RoundTrips(codecs: Codecs) {
    forall b :: codecs.base64Decode(codecs.base64Encode(b)) == Some(b)
  }

  /**
   Text through UTF-8 bytes and back, as `new TextDecoder()` (whose `ignoreBOM` is
   false) reads what `TextEncoder` wrote: unchanged, except that one leading byte
   order mark is dropped.
   */
  ghost predicate Utf8RoundTrips(codecs: Codecs) {
    forall s :: codecs.utf8Encode(codecs.utf8Decode(s))
                == if s != [] && s[0] == BYTE_ORDER_MARK then s[1..] else s
  }

  /** What the platform and the vendored codecs do for every input. */
  ghost predicate RoundTrips(codecs: Codecs) {
    Base58RoundTrips(codecs) && Base64RoundTrips(codecs) && Utf8RoundTrips(codecs)
  }
}
