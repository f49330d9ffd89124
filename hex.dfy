/** Hexadecimal digits: the upper-case pair after `%` in percent-encoding and
    the lower-case rendering of a digest (Python's `hexdigest()`). */
module Hex {
  import opened Options
  import opened Utf8

  /** The digit of a value below 16, '0'-'9' then 'A'-'F' or 'a'-'f'. */
  function Digit(n: int, upper: bool): (c: char)
    requires 0 <= n < 16
    ensures IsHexDigit(c) && DigitValue(c) == n
    ensures upper ==> !('a' <= c <= 'f')
    ensures !upper ==> !('A' <= c <= 'F')
  {
    if n < 10 then ('0' as int + n) as char
    else if upper then ('A' as int + n - 10) as char
    else ('a' as int + n - 10) as char
  }

  predicate IsHexDigit(c: char) {
    '0' <= c <= '9' || 'A' <= c <= 'F' || 'a' <= c <= 'f'
  }

  predicate IsLowerHexDigit(c: char) {
    '0' <= c <= '9' || 'a' <= c <= 'f'
  }

  predicate IsUpperHexDigit(c: char) {
    '0' <= c <= '9' || 'A' <= c <= 'F'
  }

  /** The value of a digit of either case. */
  function DigitValue(c: char): (n: int)
    requires IsHexDigit(c)
    ensures 0 <= n < 16
  {
    if '0' <= c <= '9' then c as int - '0' as int
    else if 'A' <= c <= 'F' then c as int - 'A' as int + 10
    else c as int - 'a' as int + 10
  }

  /** The two digits of a byte, high nibble first. */
  function ByteDigits(b: byte, upper: bool): (r: string)
    ensures |r| == 2 && IsHexDigit(r[0]) && IsHexDigit(r[1])
    ensures DigitValue(r[0]) * 16 + DigitValue(r[1]) == b
    ensures upper ==> IsUpperHexDigit(r[0]) && IsUpperHexDigit(r[1])
    ensures !upper ==> IsLowerHexDigit(r[0]) && IsLowerHexDigit(r[1])
  {
    [Digit(b / 16, upper), Digit(b % 16, upper)]
  }

  /** Python's `bytes.hex()` / `hexdigest()`: two lower-case digits per byte. */
  function EncodeLower(bs: seq<byte>): (r: string)
    ensures |r| == 2 * |bs|
    ensures forall i | 0 <= i < |r| :: IsLowerHexDigit(r[i])
  {
    if bs == [] then [] else ByteDigits(bs[0], false) + EncodeLower(bs[1..])
  }

  /** Reads hex text back into bytes; None for an odd length or a non-digit. */
  function Decode(s: string): Option<seq<byte>> {
    if s == [] then Some([])
    else if |s| < 2 || !IsHexDigit(s[0]) || !IsHexDigit(s[1]) then None
    else match Decode(s[2..])
      case None => None
      case Some(rest) => Some([DigitValue(s[0]) * 16 + DigitValue(s[1])] + rest)
  }

  /** Rendering bytes as hex loses nothing. */
  lemma {:induction false} DecodeEncodeLower(bs: seq<byte>)
    ensures Decode(EncodeLower(bs)) == Some(bs)
  {
    if bs != [] {
      var r := EncodeLower(bs);
      assert r[2..] == EncodeLower(bs[1..]);
      DecodeEncodeLower(bs[1..]);
      assert bs == [bs[0]] + bs[1..];
    }
  }
}
