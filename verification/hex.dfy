/** Hexadecimal digits and numerals: the `{p:02x}` formatting of one pixel
    byte and the digit-by-digit value that base-16 `int` parsing computes. */
module Hex {

  /** An 8-bit unsigned grayscale sample. */
  type byte = x: int | 0 <= x < 256

  /** ASCII hexadecimal digit, either case. */
  predicate IsHexDigit(c: char) {
    '0' <= c <= '9' || 'a' <= c <= 'f' || 'A' <= c <= 'F'
  }

  /** Digit produced by the `x` presentation type (lower case only). */
  predicate IsLowerHexDigit(c: char) {
    '0' <= c <= '9' || 'a' <= c <= 'f'
  }

  /** A non-empty run of hexadecimal digits. */
  predicate IsHexNumeral(s: string) {
    |s| > 0 && forall i :: 0 <= i < |s| ==> IsHexDigit(s[i])
  }

  function DigitValue(c: char): (v: nat)
    requires IsHexDigit(c)
    ensures v < 16
  {
    if '0' <= c <= '9' then c as int - '0' as int
    else if 'a' <= c <= 'f' then c as int - 'a' as int + 10
    else c as int - 'A' as int + 10
  }

  /** The lower-case digit whose value is `v`. */
  function LowerDigit(v: nat): (c: char)
    requires v < 16
    ensures IsLowerHexDigit(c) && IsHexDigit(c)
    ensures DigitValue(c) == v
  {
    if v < 10 then ('0' as int + v) as char else ('a' as int + v - 10) as char
  }

  /** Lower-case digits are exactly the images of `LowerDigit`. */
  lemma LowerDigitOfValue(c: char)
    requires IsLowerHexDigit(c)
    ensures LowerDigit(DigitValue(c)) == c
  {
  }

  /** Sixteen to the power `n`. */
  function Pow16(n: nat): nat {
    if n == 0 then 1 else 16 * Pow16(n - 1)
  }

  /** The value of a string of hexadecimal digits, most significant first; a
      numeral of `k` digits is below `16^k`. */
  function HexValue(s: string): (v: nat)
    requires forall i :: 0 <= i < |s| ==> IsHexDigit(s[i])
    ensures v < Pow16(|s|)
  {
    if s == [] then 0
    else
      var h, d := HexValue(s[..|s| - 1]), DigitValue(s[|s| - 1]);
      assert 16 * h + d < 16 * Pow16(|s| - 1) by {
        assert h + 1 <= Pow16(|s| - 1);
        assert 16 * (h + 1) <= 16 * Pow16(|s| - 1);
      }
      16 * h + d
  }

  /** A two-digit numeral is high digit times sixteen plus low digit. */
  lemma HexValueOfPair(s: string)
    requires |s| == 2 && IsHexDigit(s[0]) && IsHexDigit(s[1])
    ensures HexValue(s) == 16 * DigitValue(s[0]) + DigitValue(s[1])
  {
    assert s[..1][..0] == [];
    assert HexValue(s[..1]) == DigitValue(s[0]);
  }

  /** `f"{p:02x}"`: two lower-case digits, high nibble first, zero-padded. */
  function EncodeByte(b: byte): (s: string)
    ensures |s| == 2
    ensures IsLowerHexDigit(s[0]) && IsLowerHexDigit(s[1])
    ensures IsHexNumeral(s) && HexValue(s) == b
    ensures s[0] == '0' <==> b < 16
  {
    var s := [LowerDigit(b / 16), LowerDigit(b % 16)];
    HexValueOfPair(s);
    s
  }

  /** Every two-digit lower-case numeral is the encoding of its own value, so
      `EncodeByte` is a bijection between bytes and such numerals. */
  lemma EncodeByteOfValue(s: string)
    requires |s| == 2 && IsLowerHexDigit(s[0]) && IsLowerHexDigit(s[1])
    ensures IsHexNumeral(s) && HexValue(s) < 256
    ensures EncodeByte(HexValue(s)) == s
  {
    var hi, lo := DigitValue(s[0]), DigitValue(s[1]);
    HexValueOfPair(s);
    assert (16 * hi + lo) / 16 == hi && (16 * hi + lo) % 16 == lo;
    LowerDigitOfValue(s[0]);
    LowerDigitOfValue(s[1]);
  }

  /** Distinct bytes are written as distinct numerals. */
  lemma EncodeByteInjective(a: byte, b: byte)
    requires EncodeByte(a) == EncodeByte(b)
    ensures a == b
  {
  }

  /** The zero-padding examples: 0, 10 and 255. */
  lemma EncodeByteExamples()
    ensures EncodeByte(0) == "00"
    ensures EncodeByte(10) == "0a"
    ensures EncodeByte(255) == "ff"
  {
  }

  /** ASCII lower-casing of one character. */
  function LowerChar(c: char): char {
    if 'A' <= c <= 'Z' then (c as int - 'A' as int + 'a' as int) as char else c
  }

  function LowerAscii(s: string): (r: string)
    ensures |r| == |s|
    ensures forall i :: 0 <= i < |s| ==> r[i] == LowerChar(s[i])
  {
    seq(|s|, i requires 0 <= i < |s| => LowerChar(s[i]))
  }

  /** Base-16 parsing does not depend on the case of the letter digits. */
  lemma {:induction false} HexValueIgnoresCase(s: string)
    requires forall i :: 0 <= i < |s| ==> IsHexDigit(s[i])
    ensures forall i :: 0 <= i < |s| ==> IsHexDigit(LowerAscii(s)[i])
    ensures HexValue(LowerAscii(s)) == HexValue(s)
  {
    if s != [] {
      var n := |s| - 1;
      assert LowerAscii(s)[..n] == LowerAscii(s[..n]);
      HexValueIgnoresCase(s[..n]);
    }
  }
}
