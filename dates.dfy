/** The caller's timestamp and its two renderings, `strftime('%Y%m%d')` (the
    date stamp of the credential scope) and `strftime('%Y%m%dT%H%M%SZ')` (the
    timestamp line of the string to sign). The 'T' and the 'Z' are literal
    characters: no time zone conversion happens. */
module Dates {
  import opened Options

  /** The fields of a Python datetime that the two formats read. */
  datatype DateTime = DateTime(year: int, month: int, day: int, hour: int, minute: int, second: int) {

    /** What Python's datetime type guarantees of every value it holds. */
    predicate Valid() {
      && 1 <= year <= 9999
      && 1 <= month <= 12
      && 1 <= day <= DaysInMonth(year, month)
      && 0 <= hour < 24
      && 0 <= minute < 60
      && 0 <= second < 60
    }
  }

  predicate IsLeapYear(y: int) {
    y % 4 == 0 && (y % 100 != 0 || y % 400 == 0)
  }

  function DaysInMonth(y: int, m: int): int {
    if m == 2 then (if IsLeapYear(y) then 29 else 28)
    else if m == 4 || m == 6 || m == 9 || m == 11 then 30
    else 31
  }

  function Pow10(n: nat): nat {
    if n == 0 then 1 else 10 * Pow10(n - 1)
  }

  predicate IsDigit(c: char) {
    '0' <= c <= '9'
  }

  predicate AllDigits(s: string) {
    forall i | 0 <= i < |s| :: IsDigit(s[i])
  }

  /** The decimal value of a string of digits. */
  function ParseDigits(s: string): nat
    requires AllDigits(s)
  {
    if s == [] then 0
    else ParseDigits(s[..|s| - 1]) * 10 + (s[|s| - 1] as int - '0' as int)
  }

  /** n in decimal, zero-padded on the left to exactly `width` digits (the
      `%Y` field has width 4, the others width 2). */
  function Pad(n: nat, width: nat): (r: string)
    requires n < Pow10(width)
    ensures |r| == width && AllDigits(r)
  {
    if width == 0 then ""
    else Pad(n / 10, width - 1) + [('0' as int + n % 10) as char]
  }

  /** Zero-padding loses nothing: the digits read back as the number. */
  lemma {:induction false} ParsePad(n: nat, width: nat)
    requires n < Pow10(width)
    ensures ParseDigits(Pad(n, width)) == n
  {
    if width > 0 {
      var r := Pad(n, width);
      assert r[..|r| - 1] == Pad(n / 10, width - 1);
      ParsePad(n / 10, width - 1);
    }
  }

  /** `stringify_date(d)` (withTime false) and `stringify_date(d, True)`. */
  function StringifyDate(d: DateTime, withTime: bool): (r: string)
    requires d.Valid()
    ensures |r| == if withTime then 16 else 8
    ensures withTime ==> r[8] == 'T' && r[15] == 'Z'
    ensures forall i | 0 <= i < |r| && i != 8 && i != 15 :: IsDigit(r[i])
  {
    var stamp := Pad(d.year, 4) + Pad(d.month, 2) + Pad(d.day, 2);
    if withTime then stamp + "T" + Pad(d.hour, 2) + Pad(d.minute, 2) + Pad(d.second, 2) + "Z"
    else stamp
  }

  /** The date stamp is the first eight characters of the full timestamp. */
  lemma DateStampIsTimestampPrefix(d: DateTime)
    requires d.Valid()
    ensures StringifyDate(d, true)[..8] == StringifyDate(d, false)
  {
  }

  /** Reads a `YYYYMMDDTHHMMSSZ` timestamp back; None if it is not of that shape. */
  function ParseTimestamp(s: string): Option<DateTime> {
    if |s| == 16 && s[8] == 'T' && s[15] == 'Z' && forall i | 0 <= i < 16 && i != 8 && i != 15 :: IsDigit(s[i]) then
      Some(DateTime(ParseDigits(s[0..4]), ParseDigits(s[4..6]), ParseDigits(s[6..8]),
                    ParseDigits(s[9..11]), ParseDigits(s[11..13]), ParseDigits(s[13..15])))
    else None
  }

  /** The timestamp determines the date and time: rendering then reading back
      gives every field. So two different times never sign the same timestamp. */
  lemma ParseStringifyDate(d: DateTime)
    requires d.Valid()
    ensures ParseTimestamp(StringifyDate(d, true)) == Some(d)
  {
    var s := StringifyDate(d, true);
    assert s[0..4] == Pad(d.year, 4);
    assert s[4..6] == Pad(d.month, 2);
    assert s[6..8] == Pad(d.day, 2);
    assert s[9..11] == Pad(d.hour, 2);
    assert s[11..13] == Pad(d.minute, 2);
    assert s[13..15] == Pad(d.second, 2);
    ParsePad(d.year, 4);
    ParsePad(d.month, 2);
    ParsePad(d.day, 2);
    ParsePad(d.hour, 2);
    ParsePad(d.minute, 2);
    ParsePad(d.second, 2);
  }
}
