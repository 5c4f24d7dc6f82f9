/**
 The JavaScript built-ins the client's string handling relies on: white space as
 ECMA-262 defines it, `parseInt(s, 16)`, `Number.prototype.toString(16)` on a
 non-negative integer, `String.prototype.padStart`, and the two anchored regular
 expression replacements the hooks use.
 */
module JsText {
  import opened Common

  /** WhiteSpace and LineTerminator of ECMA-262: the characters `parseInt` skips and `\s` matches. */
  predicate IsWhiteSpace(c: char) {
    || c == '\t' || c == '\n' || c == '\U{000B}' || c == '\U{000C}' || c == '\r' || c == ' '
    || c == '\U{00A0}' || c == '\U{1680}' || ('\U{2000}' <= c <= '\U{200A}')
    || c == '\U{2028}' || c == '\U{2029}' || c == '\U{202F}' || c == '\U{205F}'
    || c == '\U{3000}' || c == '\U{FEFF}'
  }

  /** A radix-16 digit, in either case. */
  predicate IsHexDigit(c: char) {
    ('0' <= c <= '9') || ('a' <= c <= 'f') || ('A' <= c <= 'F')
  }

  /** A digit as `toString(16)` writes it. */
  predicate IsLowerHexDigit(c: char) {
    IsHexDigit(c) && !('A' <= c <= 'F')
  }

  function DigitValue(c: char): (v: nat)
    requires IsHexDigit(c)
    ensures v < 16
  {
    if '0' <= c <= '9' then c as int - '0' as int
    else if 'a' <= c <= 'f' then c as int - 'a' as int + 10
    else c as int - 'A' as int + 10
  }

  /** The lower-case digit for `d`. */
  function LowerHexDigit(d: nat): (c: char)
    requires d < 16
    ensures IsLowerHexDigit(c) && DigitValue(c) == d
  {
    if d < 10 then ('0' as int + d) as char else ('a' as int + d - 10) as char
  }

  /** The value of a string of radix-16 digits, most significant first. */
  function HexValue(digits: string): nat
    requires forall i | 0 <= i < |digits| :: IsHexDigit(digits[i])
  {
    if digits == [] then 0
    else HexValue(digits[..|digits| - 1]) * 16 + DigitValue(digits[|digits| - 1])
  }

  /** The number of white-space characters at the start of `s`. */
  function WhiteSpacePrefixLength(s: string): (end: nat)
    ensures end <= |s|
    ensures forall i | 0 <= i < end :: IsWhiteSpace(s[i])
    ensures end < |s| ==> !IsWhiteSpace(s[end])
  {
    if s != [] && IsWhiteSpace(s[0]) then 1 + WhiteSpacePrefixLength(s[1..]) else 0
  }

  /** Removes the leading white space, as step 2 of `parseInt` does. */
  function TrimStart(s: string): string {
    s[WhiteSpacePrefixLength(s)..]
  }

  /** The length of the longest prefix of `s` made of radix-16 digits. */
  function HexPrefixLength(s: string): (end: nat)
    ensures end <= |s|
    ensures forall i | 0 <= i < end :: IsHexDigit(s[i])
    ensures end < |s| ==> !IsHexDigit(s[end])
  {
    if s != [] && IsHexDigit(s[0]) then 1 + HexPrefixLength(s[1..]) else 0
  }

  /**
   What `parseInt` returns: NaN, or an integer kept as sign and magnitude so that
   negative zero (`parseInt("-0", 16)`, which compares equal to 0) stays visible.
   */
  datatype ParsedNumber = NaN | Integer(negative: bool, magnitude: nat)

  /** Step 3 of `parseInt`: a leading minus sign makes the result negative. */
  predicate HasMinusSign(s: string) {
    s != [] && s[0] == '-'
  }

  /** Step 4 of `parseInt`: one leading sign, either one, is removed. */
  function StripSign(s: string): string {
    if s != [] && (s[0] == '+' || s[0] == '-') then s[1..] else s
  }

  /** Step 6 of `parseInt` with radix 16: a leading `0x` or `0X` is removed. */
  function StripRadixPrefix(s: string): string {
    if |s| >= 2 && s[0] == '0' && (s[1] == 'x' || s[1] == 'X') then s[2..] else s
  }

  /** Steps 7 to 11 of `parseInt`: the value of the longest run of digits, NaN when it is empty. */
  function ParseDigits(negative: bool, digits: string): ParsedNumber {
    var end := HexPrefixLength(digits);
    if end == 0 then NaN else Integer(negative, HexValue(digits[..end]))
  }

  /**
   `parseInt(input, 16)`: skip leading white space, take one optional sign, drop a
   `0x`/`0X` prefix, then read the longest run of radix-16 digits; NaN when that run
   is empty. Anything after the run is ignored.
   */
  function ParseIntRadix16(input: string): ParsedNumber {
    var s := TrimStart(input);
    ParseDigits(HasMinusSign(s), StripRadixPrefix(StripSign(s)))
  }

  lemma HexValueOfOne(c: char)
    requires IsHexDigit(c)
    ensures HexValue([c]) == DigitValue(c)
  {
    assert [c][..0] == [];
  }

  lemma HexValueOfTwo(c0: char, c1: char)
    requires IsHexDigit(c0) && IsHexDigit(c1)
    ensures HexValue([c0, c1]) == 16 * DigitValue(c0) + DigitValue(c1)
  {
    assert [c0, c1][..1] == [c0];
    HexValueOfOne(c0);
  }

  // The stages of `parseInt`, one fact per lemma: proved together, their unfoldings
  // make the solver wander, so each is proved alone and then chained.

  lemma DigitIsNotSpaceOrSign(c: char)
    requires IsHexDigit(c)
    ensures !IsWhiteSpace(c) && c != '+' && c != '-'
  {
  }

  lemma TrimStartKeeps(s: string)
    requires s != [] && !IsWhiteSpace(s[0])
    ensures TrimStart(s) == s
  {
    assert WhiteSpacePrefixLength(s) == 0;
  }

  lemma TrimStartDropsFirst(c0: char, c1: char)
    requires IsWhiteSpace(c0)
    ensures TrimStart([c0, c1]) == TrimStart([c1])
  {
    assert [c0, c1][1..] == [c1];
    assert WhiteSpacePrefixLength([c0, c1]) == 1 + WhiteSpacePrefixLength([c1]);
  }

  lemma TrimStartOfSpace(c: char)
    requires IsWhiteSpace(c)
    ensures TrimStart([c]) == []
  {
    assert [c][1..] == [];
    assert WhiteSpacePrefixLength([c]) == 1;
  }

  lemma UnsignedPair(c0: char, c1: char)
    requires IsHexDigit(c0) && !(c0 == '0' && (c1 == 'x' || c1 == 'X'))
    ensures !HasMinusSign([c0, c1]) && StripRadixPrefix(StripSign([c0, c1])) == [c0, c1]
  {
    DigitIsNotSpaceOrSign(c0);
  }

  lemma UnsignedDigit(c: char)
    requires IsHexDigit(c)
    ensures !HasMinusSign([c]) && StripRadixPrefix(StripSign([c])) == [c]
  {
    DigitIsNotSpaceOrSign(c);
  }

  lemma SignedDigit(c0: char, c1: char)
    requires c0 == '+' || c0 == '-'
    ensures HasMinusSign([c0, c1]) == (c0 == '-') && StripRadixPrefix(StripSign([c0, c1])) == [c1]
  {
    assert [c0, c1][1..] == [c1];
  }

  lemma ParseDigitsOne(negative: bool, c: char)
    requires IsHexDigit(c)
    ensures ParseDigits(negative, [c]) == Integer(negative, DigitValue(c))
  {
    assert [c][1..] == [];
    assert HexPrefixLength([c]) == 1;
    assert [c][..1] == [c];
    HexValueOfOne(c);
  }

  lemma ParseDigitsTwo(negative: bool, c0: char, c1: char)
    requires IsHexDigit(c0) && IsHexDigit(c1)
    ensures ParseDigits(negative, [c0, c1]) == Integer(negative, 16 * DigitValue(c0) + DigitValue(c1))
  {
    var s := [c0, c1];
    assert s[1..] == [c1];
    assert [c1][1..] == [];
    assert HexPrefixLength(s) == 2;
    assert s[..2] == s;
    HexValueOfTwo(c0, c1);
  }

  lemma ParseDigitsDigitThenJunk(negative: bool, c0: char, c1: char)
    requires IsHexDigit(c0) && !IsHexDigit(c1)
    ensures ParseDigits(negative, [c0, c1]) == Integer(negative, DigitValue(c0))
  {
    var s := [c0, c1];
    assert s[1..] == [c1];
    assert HexPrefixLength(s) == 1;
    assert s[..1] == [c0];
    HexValueOfOne(c0);
  }

  lemma ParseDigitsNone(negative: bool, s: string)
    requires s == [] || !IsHexDigit(s[0])
    ensures ParseDigits(negative, s) == NaN
  {
    assert HexPrefixLength(s) == 0;
  }

  // What `parseInt(s, 16)` returns for a two-character `s`, one lemma per shape of `s`.

  lemma ParseTwoDigits(c0: char, c1: char)
    requires IsHexDigit(c0) && IsHexDigit(c1)
    ensures ParseIntRadix16([c0, c1]) == Integer(false, 16 * DigitValue(c0) + DigitValue(c1))
  {
    DigitIsNotSpaceOrSign(c0);
    DigitIsNotSpaceOrSign(c1);
    TrimStartKeeps([c0, c1]);
    UnsignedPair(c0, c1);
    ParseDigitsTwo(false, c0, c1);
  }

  lemma ParseDigitThenJunk(c0: char, c1: char)
    requires IsHexDigit(c0) && !IsHexDigit(c1) && !(c0 == '0' && (c1 == 'x' || c1 == 'X'))
    ensures ParseIntRadix16([c0, c1]) == Integer(false, DigitValue(c0))
  {
    DigitIsNotSpaceOrSign(c0);
    TrimStartKeeps([c0, c1]);
    UnsignedPair(c0, c1);
    ParseDigitsDigitThenJunk(false, c0, c1);
  }

  lemma ParseBareRadixPrefix(c1: char)
    requires c1 == 'x' || c1 == 'X'
    ensures ParseIntRadix16(['0', c1]) == NaN
  {
    TrimStartKeeps(['0', c1]);
    assert StripRadixPrefix(StripSign(['0', c1])) == [];
    ParseDigitsNone(false, []);
  }

  lemma ParseSpaceThenDigit(c0: char, c1: char)
    requires IsWhiteSpace(c0) && IsHexDigit(c1)
    ensures ParseIntRadix16([c0, c1]) == Integer(false, DigitValue(c1))
  {
    DigitIsNotSpaceOrSign(c1);
    TrimStartDropsFirst(c0, c1);
    TrimStartKeeps([c1]);
    UnsignedDigit(c1);
    ParseDigitsOne(false, c1);
  }

  lemma ParseSpaceThenJunk(c0: char, c1: char)
    requires IsWhiteSpace(c0) && !IsHexDigit(c1)
    ensures ParseIntRadix16([c0, c1]) == NaN
  {
    TrimStartDropsFirst(c0, c1);
    if IsWhiteSpace(c1) {
      TrimStartOfSpace(c1);
      ParseDigitsNone(false, []);
    } else {
      TrimStartKeeps([c1]);
      if c1 == '+' || c1 == '-' {
        assert StripRadixPrefix(StripSign([c1])) == [];
        ParseDigitsNone(c1 == '-', []);
      } else {
        assert StripRadixPrefix(StripSign([c1])) == [c1];
        ParseDigitsNone(false, [c1]);
      }
    }
  }

  lemma ParseSignThenDigit(c0: char, c1: char)
    requires (c0 == '+' || c0 == '-') && IsHexDigit(c1)
    ensures ParseIntRadix16([c0, c1]) == Integer(c0 == '-', DigitValue(c1))
  {
    TrimStartKeeps([c0, c1]);
    SignedDigit(c0, c1);
    ParseDigitsOne(c0 == '-', c1);
  }

  lemma ParseSignThenJunk(c0: char, c1: char)
    requires (c0 == '+' || c0 == '-') && !IsHexDigit(c1)
    ensures ParseIntRadix16([c0, c1]) == NaN
  {
    TrimStartKeeps([c0, c1]);
    SignedDigit(c0, c1);
    ParseDigitsNone(c0 == '-', [c1]);
  }

  lemma ParseJunkFirst(c0: char, c1: char)
    requires !IsHexDigit(c0) && !IsWhiteSpace(c0) && c0 != '+' && c0 != '-'
    ensures ParseIntRadix16([c0, c1]) == NaN
  {
    TrimStartKeeps([c0, c1]);
    assert StripRadixPrefix(StripSign([c0, c1])) == [c0, c1];
    ParseDigitsNone(false, [c0, c1]);
  }

  /** `n.toString(16)` for a non-negative integer `n`: lower-case digits, no leading zero. */
  function ToStringRadix16(n: nat): (r: string)
    ensures 1 <= |r|
    ensures forall i | 0 <= i < |r| :: IsLowerHexDigit(r[i])
    ensures forall i | 0 <= i < |r| :: IsHexDigit(r[i])
    ensures HexValue(r) == n
    ensures n > 0 ==> r[0] != '0'
    ensures n < 16 <==> |r| == 1
    ensures 16 <= n < 256 ==> |r| == 2
  {
    if n < 16 then [LowerHexDigit(n)]
    else ToStringRadix16(n / 16) + [LowerHexDigit(n % 16)]
  }

  /** `s.padStart(targetLength, fill)` with a one-character `fill`. */
  function PadStart(s: string, targetLength: nat, fill: char): (r: string)
    ensures |r| == if |s| >= targetLength then |s| else targetLength
    ensures r[|r| - |s|..] == s
    ensures forall i | 0 <= i < |r| - |s| :: r[i] == fill
  {
    if |s| >= targetLength then s else seq(targetLength - |s|, _ => fill) + s
  }

  /** `/\S+/.test(s)`: whether `s` has a character that is not white space. */
  function ContainsNonWhiteSpace(s: string): (found: bool)
    ensures found <==> exists i | 0 <= i < |s| :: !IsWhiteSpace(s[i])
  {
    s != [] && (!IsWhiteSpace(s[0]) || ContainsNonWhiteSpace(s[1..]))
  }

  /** `s.replace(/^prefix/, "")`: removes one occurrence of `prefix` at the very start, if there is one. */
  function ReplaceLeading(s: string, prefix: string): (r: string)
    ensures prefix <= s ==> prefix + r == s
    ensures !(prefix <= s) ==> r == s
  {
    if prefix <= s then s[|prefix|..] else s
  }

  /** `s.replace(/c*$/, "")`: removes the whole run of `c` at the end of `s`. */
  function TrimTrailing(s: string, c: char): (r: string)
    ensures r <= s
    ensures forall i | |r| <= i < |s| :: s[i] == c
    ensures r == [] || r[|r| - 1] != c
  {
    if s != [] && s[|s| - 1] == c then TrimTrailing(s[..|s| - 1], c) else s
  }

  /** Only one leading occurrence goes: a doubled prefix keeps its second copy. */
  lemma ReplaceLeadingOnce(prefix: string, rest: string)
    ensures ReplaceLeading(prefix + rest, prefix) == rest
    ensures ReplaceLeading(prefix + prefix + rest, prefix) == prefix + rest
  {
    assert prefix <= prefix + rest;
    assert prefix + prefix + rest == prefix + (prefix + rest);
    assert prefix <= prefix + (prefix + rest);
  }

  /** Trimming the trailing run is idempotent, and adding more of `c` at the end does not change the result. */
  lemma {:induction false} TrimTrailingAbsorbs(s: string, c: char, extra: nat)
    ensures TrimTrailing(TrimTrailing(s, c), c) == TrimTrailing(s, c)
    ensures TrimTrailing(s + seq(extra, _ => c), c) == TrimTrailing(s, c)
    decreases extra
  {
    if extra > 0 {
      var t := s + seq(extra, _ => c);
      assert t[..|t| - 1] == s + seq(extra - 1, _ => c);
      TrimTrailingAbsorbs(s, c, extra - 1);
    } else {
      assert s + seq(0, _ => c) == s;
    }
  }
}
