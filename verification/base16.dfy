/**
 The hexadecimal codec the client writes itself (`Base16` in assets/js/encoding.ts):
 two lower-case digits per byte on the way out, and on the way back `parseInt` of
 every two-character slice, with its leniency kept as it is.
 */
module Base16 {
  import opened Common
  import opened JsText

  /** The two lower-case digits of byte `b`, high nibble first. */
  function EncodeByte(b: Byte): (r: string)
    ensures |r| == 2
    ensures IsLowerHexDigit(r[0]) && IsLowerHexDigit(r[1])
    ensures 16 * DigitValue(r[0]) + DigitValue(r[1]) == b
  {
    [LowerHexDigit(b / 16), LowerHexDigit(b % 16)]
  }

  lemma ToStringOfSmall(b: Byte)
    requires b < 16
    ensures ToStringRadix16(b) == [LowerHexDigit(b)]
  {
  }

  lemma ToStringOfLarge(b: Byte)
    requires 16 <= b
    ensures ToStringRadix16(b) == [LowerHexDigit(b / 16), LowerHexDigit(b % 16)]
  {
    ToStringOfSmall(b / 16);
  }

  /** `byte.toString(16).padStart(2, "0")`, the source's expression, yields those two digits. */
  lemma PaddedToStringIsEncodeByte(b: Byte)
    ensures PadStart(ToStringRadix16(b), 2, '0') == EncodeByte(b)
  {
    if b < 16 {
      ToStringOfSmall(b);
      assert PadStart([LowerHexDigit(b)], 2, '0') == ['0', LowerHexDigit(b)];
      assert LowerHexDigit(b / 16) == '0';
    } else {
      ToStringOfLarge(b);
    }
  }

  /** The two characters a decoder reads for byte `i`: `s.substring(i * 2, i * 2 + 2)`. */
  function Pair(s: string, i: nat): string
    requires 2 * i + 2 <= |s|
  {
    s[2 * i .. 2 * i + 2]
  }

  /** `Base16.encode`: the encodings of the bytes, one after another. */
  function Encode(data: Bytes): (r: string)
    ensures |r| == 2 * |data|
    ensures forall i | 0 <= i < |data| :: Pair(r, i) == EncodeByte(data[i])
    ensures forall j | 0 <= j < |r| :: IsLowerHexDigit(r[j])
  {
    if data == [] then ""
    else
      var front := Encode(data[..|data| - 1]);
      var r := front + EncodeByte(data[|data| - 1]);
      assert forall i | 0 <= i < |data| - 1 :: Pair(r, i) == Pair(front, i);
      r
  }

  /** The loop of `Base16.encode`, appending to `result` byte by byte. */
  method EncodeLoop(data: Bytes) returns (result: string)
    ensures result == Encode(data)
  {
    result := "";
    var i := 0;
    while i < |data|
      invariant 0 <= i <= |data|
      invariant result == Encode(data[..i])
    {
      var piece := PadStart(ToStringRadix16(data[i]), 2, '0');
      PaddedToStringIsEncodeByte(data[i]);
      assert data[..i + 1][..i] == data[..i];
      result := result + piece;
      i := i + 1;
    }
    assert data[..|data|] == data;
  }

  /**
   One step of `Base16.decode`: `parseInt(hex, 16)` and the check that follows it.
   None where the decoder throws (NaN, below zero, above 255). Negative zero passes
   the check `byte < 0` and is stored as 0.
   */
  function ParsePair(hex: string): Option<Byte> {
    match ParseIntRadix16(hex)
    case NaN => None
    case Integer(negative, magnitude) =>
      if (negative && magnitude > 0) || magnitude > 255 then None else Some(magnitude)
  }

  /**
   What the decoder makes of the pair `c0 c1`, case by case, written independently
   of the `parseInt` algorithm.
   */
  function PairTable(c0: char, c1: char): Option<Byte> {
    if IsHexDigit(c0) then
      if IsHexDigit(c1) then Some(16 * DigitValue(c0) + DigitValue(c1))
      // "0x" is a radix prefix with no digits after it
      else if c0 == '0' && (c1 == 'x' || c1 == 'X') then None
      // the digit before the junk is read: "1z" gives 1
      else Some(DigitValue(c0))
    else if (IsWhiteSpace(c0) || c0 == '+') && IsHexDigit(c1) then Some(DigitValue(c1))
    // "-0" is negative zero, which is not below zero
    else if c0 == '-' && IsHexDigit(c1) && DigitValue(c1) == 0 then Some(0)
    else None
  }

  /** `parseInt` on a two-character pair agrees with the case table, for every pair. */
  lemma ParsePairMatchesTable(hex: string)
    requires |hex| == 2
    ensures ParsePair(hex) == PairTable(hex[0], hex[1])
  {
    var c0, c1 := hex[0], hex[1];
    assert hex == [c0, c1];
    if IsHexDigit(c0) {
      if IsHexDigit(c1) {
        ParseTwoDigits(c0, c1);
      } else if c0 == '0' && (c1 == 'x' || c1 == 'X') {
        ParseBareRadixPrefix(c1);
      } else {
        ParseDigitThenJunk(c0, c1);
      }
    } else if IsWhiteSpace(c0) {
      if IsHexDigit(c1) {
        ParseSpaceThenDigit(c0, c1);
      } else {
        ParseSpaceThenJunk(c0, c1);
      }
    } else if c0 == '+' || c0 == '-' {
      if IsHexDigit(c1) {
        ParseSignThenDigit(c0, c1);
      } else {
        ParseSignThenJunk(c0, c1);
      }
    } else {
      ParseJunkFirst(c0, c1);
    }
  }

  /** Every encoded pair parses back to its byte. */
  lemma ParseEncodedByte(b: Byte)
    ensures ParsePair(EncodeByte(b)) == Some(b)
  {
    ParsePairMatchesTable(EncodeByte(b));
  }

  /** Why `Base16.decode` throws. */
  datatype DecodeError =
    | OddLength                          // "Hex string must have an even length"
    | InvalidHex(hex: string, index: nat) // "Invalid hex \"hex\" at index index"

  /** What the decoder makes of pair `k` of `s`, read off the case table. */
  function PairByte(s: string, k: nat): Option<Byte>
    requires 2 * k + 2 <= |s|
  {
    PairTable(s[2 * k], s[2 * k + 1])
  }

  /** Every pair of the even-length string `s` is accepted. */
  predicate AllPairsParse(s: string)
    requires |s| % 2 == 0
  {
    forall k | 0 <= k < |s| / 2 :: PairByte(s, k).Some?
  }

  /** `e` names the first rejected pair at or after pair `from`, and its offset in `s`. */
  predicate ReportsFirstInvalid(s: string, from: nat, e: DecodeError)
    requires |s| % 2 == 0
  {
    && e.InvalidHex?
    && e.index % 2 == 0
    && from <= e.index / 2 < |s| / 2
    && e.hex == Pair(s, e.index / 2)
    && PairByte(s, e.index / 2).None?
    && forall k | from <= k < e.index / 2 :: PairByte(s, k).Some?
  }

  /** The decoding loop from pair `i` on. */
  function DecodeFrom(s: string, i: nat): (r: Result<Bytes, DecodeError>)
    requires |s| % 2 == 0 && i <= |s| / 2
    ensures r.Success? <==> forall k | i <= k < |s| / 2 :: PairByte(s, k).Some?
    ensures r.Success? ==> |r.value| == |s| / 2 - i
    ensures r.Success? ==> forall k | 0 <= k < |r.value| :: PairByte(s, i + k) == Some(r.value[k])
    ensures r.Failure? ==> ReportsFirstInvalid(s, i, r.error)
    decreases |s| / 2 - i
  {
    if i == |s| / 2 then Success([])
    else
      match PairByte(s, i)
      case None => Failure(InvalidHex(Pair(s, i), 2 * i))
      case Some(b) =>
        match DecodeFrom(s, i + 1)
        case Failure(e) => Failure(e)
        case Success(rest) => Success([b] + rest)
  }

  /** `Base16.decode`, with each pair read as the case table says `parseInt` reads it. */
  function Decode(s: string): (r: Result<Bytes, DecodeError>)
    ensures |s| % 2 != 0 ==> r == Failure(OddLength)
    ensures r.Success? <==> |s| % 2 == 0 && AllPairsParse(s)
    ensures r.Success? ==> |r.value| == |s| / 2
    ensures r.Success? ==> forall k | 0 <= k < |r.value| :: PairByte(s, k) == Some(r.value[k])
    ensures |s| % 2 == 0 && r.Failure? ==> ReportsFirstInvalid(s, 0, r.error)
  {
    if |s| % 2 != 0 then Failure(OddLength) else DecodeFrom(s, 0)
  }

  /** One step of the loop: `parseInt` on the slice and the range check, as the case table has it. */
  lemma ParsePairAt(s: string, k: nat)
    requires 2 * k + 2 <= |s|
    ensures ParsePair(s[2 * k .. 2 * k + 2]) == PairByte(s, k)
  {
    ParsePairMatchesTable(s[2 * k .. 2 * k + 2]);
  }

  /** `parseInt(hex, 16)` and the range check on the slice for pair `i`. */
  method ParseSlice(data: string, i: nat) returns (parsed: Option<Byte>)
    requires 2 * i + 2 <= |data|
    ensures parsed == PairByte(data, i)
  {
    var hex := data[i * 2 .. i * 2 + 2];
    parsed := ParsePair(hex);
    ParsePairAt(data, i);
  }

  /**
   The loop of `Base16.decode` as written: a buffer of `|data| / 2` bytes filled
   from `parseInt` of each slice, throwing on the first bad one.
   */
  method DecodeLoop(data: string) returns (r: Result<Bytes, DecodeError>)
    ensures r == Decode(data)
  {
    if |data| % 2 != 0 {
      return Failure(OddLength);
    }
    var bufferLength := |data| / 2;
    var buffer: Bytes := [];
    var i := 0;
    while i < bufferLength
      invariant 0 <= i <= bufferLength
      invariant |buffer| == i
      invariant forall k | 0 <= k < i :: PairByte(data, k) == Some(buffer[k])
    {
      var hex := data[i * 2 .. i * 2 + 2];
      var parsed := ParseSlice(data, i);
      if parsed.None? {
        DecodeStopsAt(data, i);
        return Failure(InvalidHex(hex, i * 2));
      }
      buffer := buffer + [parsed.value];
      i := i + 1;
    }
    DecodeCollects(data, buffer);
    return Success(buffer);
  }

  /** When every pair reads as the matching byte of `buffer`, decoding yields `buffer`. */
  lemma DecodeCollects(s: string, buffer: Bytes)
    requires |s| % 2 == 0 && |buffer| == |s| / 2
    requires forall k | 0 <= k < |buffer| :: PairByte(s, k) == Some(buffer[k])
    ensures Decode(s) == Success(buffer)
  {
    assert AllPairsParse(s);
    var r := Decode(s).value;
    assert forall k | 0 <= k < |r| :: r[k] == buffer[k] by {
      forall k | 0 <= k < |r| ensures r[k] == buffer[k] {
        assert PairByte(s, k) == Some(r[k]);
      }
    }
    assert |r| == |buffer|;
    assert r == buffer;
    assert Decode(s).Success?;
  }

  /** When pair `i` is the first rejected one, decoding reports it and its offset. */
  lemma DecodeStopsAt(s: string, i: nat)
    requires |s| % 2 == 0 && i < |s| / 2
    requires forall k | 0 <= k < i :: PairByte(s, k).Some?
    requires PairByte(s, i).None?
    ensures Decode(s) == Failure(InvalidHex(s[2 * i .. 2 * i + 2], 2 * i))
  {
  }

  /** Decoding undoes encoding, for every byte sequence. */
  lemma DecodeEncode(data: Bytes)
    ensures Decode(Encode(data)) == Success(data)
  {
    var s := Encode(data);
    forall k | 0 <= k < |data|
      ensures PairByte(s, k) == Some(data[k])
    {
      ParseEncodedByte(data[k]);
      ParsePairMatchesTable(Pair(s, k));
    }
    assert AllPairsParse(s);
    assert Decode(s).value == data;
  }

  /** So encoding never maps two byte sequences to one string. */
  lemma EncodeInjective(a: Bytes, b: Bytes)
    requires Encode(a) == Encode(b)
    ensures a == b
  {
    DecodeEncode(a);
    DecodeEncode(b);
  }

  /** Upper-cases the digits a–f and leaves every other character alone. */
  function UpperHexDigit(c: char): char {
    if 'a' <= c <= 'f' then (c as int - 32) as char else c
  }

  function UpperHexDigits(s: string): (r: string)
    ensures |r| == |s| && forall i | 0 <= i < |s| :: r[i] == UpperHexDigit(s[i])
  {
    seq(|s|, i requires 0 <= i < |s| => UpperHexDigit(s[i]))
  }

  lemma TableIgnoresCase(c0: char, c1: char)
    ensures PairTable(UpperHexDigit(c0), UpperHexDigit(c1)) == PairTable(c0, c1)
  {
  }

  /**
   Upper-case digits decode exactly as their lower-case forms do, so a string that
   decodes need not be what encoding its bytes gives back.
   */
  lemma DecodeIgnoresCase(s: string)
    ensures Decode(UpperHexDigits(s)).Success? <==> Decode(s).Success?
    ensures Decode(s).Success? ==> Decode(UpperHexDigits(s)) == Decode(s)
  {
    var u := UpperHexDigits(s);
    if |s| % 2 == 0 {
      forall k | 0 <= k < |s| / 2
        ensures PairByte(u, k) == PairByte(s, k)
      {
        TableIgnoresCase(s[2 * k], s[2 * k + 1]);
      }
      if Decode(s).Success? {
        assert Decode(u).value == Decode(s).value;
      }
    }
  }

  /** "AB" decodes to the byte 0xab, whose encoding is "ab": decode then encode is not the identity. */
  lemma EncodeDecodeNotIdentity()
    ensures Decode("AB") == Success([171])
    ensures Encode([171]) == "ab"
  {
    assert PairByte("AB", 0) == Some(171);
    DecodeEncode([171]);
    var e := Encode([171]);
    assert Pair(e, 0) == e;
    assert 16 * DigitValue(e[0]) + DigitValue(e[1]) == 171;
  }

  /** Junk after a first digit is ignored: the pair is that digit. */
  lemma LenientDigitThenJunk()
    ensures ParsePair("1z") == Some(1)
  {
    ParsePairMatchesTable("1z");
  }

  /** Leading white space is skipped, so the pair is one digit. */
  lemma LenientSpaceThenDigit()
    ensures ParsePair(" 1") == Some(1)
  {
    ParsePairMatchesTable(" 1");
  }

  /** A plus sign is accepted. */
  lemma LenientPlusSign()
    ensures ParsePair("+f") == Some(15)
  {
    ParsePairMatchesTable("+f");
  }

  /** Minus zero is not below zero, so it passes the range check as 0. */
  lemma LenientMinusZero()
    ensures ParsePair("-0") == Some(0)
  {
    ParsePairMatchesTable("-0");
  }

  /** A bare radix prefix leaves no digit, so the decoder throws. */
  lemma RejectsBareRadixPrefix()
    ensures ParsePair("0x") == None
  {
    ParsePairMatchesTable("0x");
  }

  /** No digit at all: the decoder throws. */
  lemma RejectsNonDigits()
    ensures ParsePair("zz") == None
  {
    ParsePairMatchesTable("zz");
  }

  /** A negative value fails the range check. */
  lemma RejectsNegative()
    ensures ParsePair("-1") == None
  {
    ParsePairMatchesTable("-1");
  }

  /** Decoding failures name the first bad pair and its offset; no bytes come back. */
  lemma DecodeErrors()
    ensures Decode("abc") == Failure(OddLength)
    ensures Decode("zz") == Failure(InvalidHex("zz", 0))
    ensures Decode("00-1") == Failure(InvalidHex("-1", 2))
  {
    assert PairByte("zz", 0) == None;
    assert Pair("zz", 0) == "zz";
    assert PairByte("00-1", 0) == Some(0);
    assert PairByte("00-1", 1) == None;
    assert Pair("00-1", 1) == "-1";
  }

  /** The empty string and the empty byte sequence correspond. */
  lemma EmptyCases()
    ensures Decode("") == Success([])
    ensures Encode([]) == ""
  {
  }
}
