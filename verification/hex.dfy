/** Base-16 reading of a two-character string, as `i32::from_str_radix(s, 16)`
    does it, and the lower-case encoding of a byte that it inverts. */
module Hex {
  import opened Wrappers
  import opened ColorTypes

  predicate IsHexDigit(c: char)
  {
    '0' <= c <= '9' || 'a' <= c <= 'f' || 'A' <= c <= 'F'
  }

  /** The value of a base-16 digit; upper and lower case letters agree. */
  function DigitValue(c: char): (d: nat)
    requires IsHexDigit(c)
    ensures d < 16
    ensures '0' <= c <= '9' ==> d < 10
    ensures !('0' <= c <= '9') ==> 10 <= d
    ensures '0' <= c <= '9' ==> d == c as int - '0' as int
    ensures 'a' <= c <= 'f' ==> d == c as int - 'a' as int + 10
    ensures 'A' <= c <= 'F' ==> d == c as int - 'A' as int + 10
  {
    if c <= '9' then c as int - '0' as int
    else if 'a' <= c then c as int - 'a' as int + 10
    else c as int - 'A' as int + 10
  }

  /** The lower-case digit of a value below 16. */
  function LowerDigit(d: nat): (c: char)
    requires d < 16
    ensures IsHexDigit(c) && DigitValue(c) == d
    ensures '0' <= c <= '9' || 'a' <= c <= 'f'
  {
    if d < 10 then ('0' as int + d) as char else ('a' as int + d - 10) as char
  }

  /** `i32::from_str_radix` on the two-character string [hi, lo] in base 16:
      an optional `+` or `-` sign followed by digits, or two digits. A lone
      sign, an empty digit string or any other character is an error. */
  function ParsePair(hi: char, lo: char): (r: Option<int>)
    ensures r.Some? <==> IsHexDigit(lo) && (IsHexDigit(hi) || hi == '+' || hi == '-')
    ensures r.Some? ==> -15 <= r.value <= 255
    ensures r.Some? && r.value < 0 ==> hi == '-'
    ensures IsHexDigit(hi) && IsHexDigit(lo) ==> r.Some? && 0 <= r.value
  {
    if IsHexDigit(hi) && IsHexDigit(lo) then Some(16 * DigitValue(hi) + DigitValue(lo))
    else if hi == '+' && IsHexDigit(lo) then Some(DigitValue(lo) as int)
    else if hi == '-' && IsHexDigit(lo) then Some(-(DigitValue(lo) as int))
    else None
  }

  /** The two lower-case hex digits of a byte, most significant first. */
  function EncodeByte(b: Byte): (s: string)
    ensures |s| == 2 && IsHexDigit(s[0]) && IsHexDigit(s[1])
  {
    [LowerDigit(b / 16), LowerDigit(b % 16)]
  }

  /** Reading back the encoding of a byte gives the byte. */
  lemma ParseEncodeByte(b: Byte)
    ensures ParsePair(EncodeByte(b)[0], EncodeByte(b)[1]) == Some(b)
  {
  }

  /** Conversely, a pair of lower-case digits is the encoding of the value it
      parses to. */
  lemma EncodeParsePair(hi: char, lo: char)
    requires IsHexDigit(hi) && IsHexDigit(lo)
    requires !('A' <= hi <= 'F') && !('A' <= lo <= 'F')
    ensures ParsePair(hi, lo).Some? && 0 <= ParsePair(hi, lo).value < 256
    ensures EncodeByte(ParsePair(hi, lo).value) == [hi, lo]
  {
    var v := 16 * DigitValue(hi) + DigitValue(lo);
    assert v / 16 == DigitValue(hi) && v % 16 == DigitValue(lo);
    assert LowerDigit(DigitValue(hi)) == hi;
    assert LowerDigit(DigitValue(lo)) == lo;
  }
}
