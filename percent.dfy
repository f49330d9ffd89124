/** Percent-encoding as Python's `urllib.parse.quote(s, safe)` does it: the
    string is encoded as UTF-8, each byte that is an unreserved character
    (section 2.3 of RFC 3986: ALPHA, DIGIT, '-', '.', '_', '~') or an ASCII
    character of `safe` stays as it is, and every other byte becomes '%'
    followed by two upper-case hex digits (section 2.1 of RFC 3986). */
module Percent {
  import opened Options
  import opened Utf8
  import Hex

  predicate IsUnreserved(c: char) {
    'A' <= c <= 'Z' || 'a' <= c <= 'z' || '0' <= c <= '9' || c == '-' || c == '.' || c == '_' || c == '~'
  }

  /** What `quote` writes for one byte. */
  function EncodeByte(b: byte, safe: string): (r: string)
    ensures |r| == 1 || |r| == 3
    ensures |r| == 1 <==> b < 128 && (IsUnreserved(b as char) || b as char in safe)
    ensures |r| == 1 ==> r[0] as int == b
    ensures |r| == 3 ==> && r[0] == '%'
                         && Hex.IsUpperHexDigit(r[1]) && Hex.IsUpperHexDigit(r[2])
                         && Hex.DigitValue(r[1]) * 16 + Hex.DigitValue(r[2]) == b
  {
    if b < 128 && (IsUnreserved(b as char) || b as char in safe) then [b as char]
    else ['%'] + Hex.ByteDigits(b, true)
  }

  /** Every character `quote` emits is unreserved, '%', or a character of `safe`. */
  predicate QuotedAlphabet(s: string, safe: string) {
    forall i | 0 <= i < |s| :: IsUnreserved(s[i]) || s[i] == '%' || s[i] in safe
  }

  /** `quote_from_bytes(bs, safe)`. */
  function QuoteBytes(bs: seq<byte>, safe: string): (r: string)
    ensures QuotedAlphabet(r, safe)
    ensures |bs| <= |r| <= 3 * |bs|
  {
    if bs == [] then [] else EncodeByte(bs[0], safe) + QuoteBytes(bs[1..], safe)
  }

  /** `quote(s, safe)` on a string. */
  function Quote(s: string, safe: string): (r: string)
    ensures QuotedAlphabet(r, safe)
    ensures r == [] <==> s == []
  {
    QuoteBytes(Encode(s), safe)
  }

  /** Percent-decoding (the inverse direction, as a receiver applies it): '%'
      and two hex digits of either case give a byte, any other ASCII character
      gives its own code; None for a malformed escape or a non-ASCII character. */
  function Decode(s: string): Option<seq<byte>> {
    if s == [] then Some([])
    else if s[0] == '%' then
      if |s| >= 3 && Hex.IsHexDigit(s[1]) && Hex.IsHexDigit(s[2]) then
        match Decode(s[3..])
        case None => None
        case Some(rest) => Some([Hex.DigitValue(s[1]) * 16 + Hex.DigitValue(s[2])] + rest)
      else None
    else if IsAscii(s[0]) then
      match Decode(s[1..])
      case None => None
      case Some(rest) => Some([s[0] as int] + rest)
    else None
  }

  /** Decoding one encoded byte followed by anything. */
  lemma DecodeEncodeByte(b: byte, safe: string, rest: string)
    requires '%' !in safe
    ensures Decode(EncodeByte(b, safe) + rest) ==
      match Decode(rest) case None => None case Some(bs) => Some([b] + bs)
  {
    var e := EncodeByte(b, safe);
    if |e| == 1 {
      assert (e + rest)[1..] == rest;
    } else {
      assert (e + rest)[3..] == rest;
    }
  }

  /** Percent-encoding loses nothing when '%' itself is not declared safe. */
  lemma {:induction false} DecodeQuoteBytes(bs: seq<byte>, safe: string)
    requires '%' !in safe
    ensures Decode(QuoteBytes(bs, safe)) == Some(bs)
  {
    if bs != [] {
      DecodeQuoteBytes(bs[1..], safe);
      DecodeEncodeByte(bs[0], safe, QuoteBytes(bs[1..], safe));
      assert bs == [bs[0]] + bs[1..];
    }
  }

  /** Every '%' in s starts an escape: two upper-case hex digits follow it. */
  predicate UpperEscapes(s: string) {
    forall i | 0 <= i < |s| && s[i] == '%' :: i + 2 < |s| && Hex.IsUpperHexDigit(s[i + 1]) && Hex.IsUpperHexDigit(s[i + 2])
  }

  /** When '%' is not declared safe, every '%' that `quote` writes is the
      start of an escape with upper-case digits. */
  lemma {:induction false} QuoteBytesUpperEscapes(bs: seq<byte>, safe: string)
    requires '%' !in safe
    ensures UpperEscapes(QuoteBytes(bs, safe))
  {
    if bs != [] {
      QuoteBytesUpperEscapes(bs[1..], safe);
      EncodeByteUpperEscapes(bs[0], safe);
      UpperEscapesAppend(EncodeByte(bs[0], safe), QuoteBytes(bs[1..], safe));
    }
  }

  lemma EncodeByteUpperEscapes(b: byte, safe: string)
    requires '%' !in safe
    ensures UpperEscapes(EncodeByte(b, safe))
  {
    var e := EncodeByte(b, safe);
    if |e| == 1 {
      assert e[0] != '%';
    }
  }

  lemma UpperEscapesAppend(e: string, t: string)
    requires UpperEscapes(e) && UpperEscapes(t)
    ensures UpperEscapes(e + t)
  {
    var s := e + t;
    forall i | 0 <= i < |s| && s[i] == '%'
      ensures i + 2 < |s| && Hex.IsUpperHexDigit(s[i + 1]) && Hex.IsUpperHexDigit(s[i + 2])
    {
      if i < |e| {
        assert e[i] == '%';
      } else {
        assert t[i - |e|] == '%';
      }
    }
  }

  /** `quote` writes its escapes with upper-case digits. */
  lemma QuoteUpperEscapes(s: string, safe: string)
    requires '%' !in safe
    ensures UpperEscapes(Quote(s, safe))
  {
    QuoteBytesUpperEscapes(Encode(s), safe);
  }

  /** Text in which only '%' would be escaped again: what `quote` has
      already produced, with '/' not declared safe. */
  predicate OnlyPercentReserved(t: string) {
    forall i | 0 <= i < |t| :: IsUnreserved(t[i]) || t[i] == '%'
  }

  /** Replaces each '%' by "%25", leaving the other characters alone. */
  function EscapePercents(t: string): (r: string)
    ensures '/' in r ==> '/' in t
  {
    if t == [] then [] else (if t[0] == '%' then "%25" else [t[0]]) + EscapePercents(t[1..])
  }

  lemma {:induction false} EscapePercentsAppend(a: string, b: string)
    ensures EscapePercents(a + b) == EscapePercents(a) + EscapePercents(b)
  {
    if a == [] {
      assert a + b == b;
    } else {
      assert (a + b)[1..] == a[1..] + b;
      EscapePercentsAppend(a[1..], b);
    }
  }

  lemma {:induction false} EscapePercentsNoPercent(t: string)
    requires '%' !in t
    ensures EscapePercents(t) == t
  {
    if t != [] {
      EscapePercentsNoPercent(t[1..]);
    }
  }

  /** Quoting text that `quote` has already produced (with an empty `safe`)
      only escapes its '%' signs again: so a second pass turns "%20" into
      "%2520" and changes nothing else. */
  lemma {:induction false} QuoteOfQuoted(t: string, safe: string)
    requires OnlyPercentReserved(t)
    requires '%' !in safe
    ensures Quote(t, safe) == EscapePercents(t)
  {
    if t != [] {
      assert OnlyPercentReserved(t[1..]) by {
        forall i | 0 <= i < |t[1..]| ensures IsUnreserved(t[1..][i]) || t[1..][i] == '%' {
          assert t[1..][i] == t[i + 1];
        }
      }
      QuoteOfQuoted(t[1..], safe);
      QuoteCons(t, safe);
      EncodeQuotedChar(t[0], safe);
    }
  }

  /** Quoting proceeds one character at a time; an ASCII character is one byte. */
  lemma QuoteCons(t: string, safe: string)
    requires t != [] && IsAscii(t[0])
    ensures Quote(t, safe) == EncodeByte(t[0] as int, safe) + Quote(t[1..], safe)
  {
    assert t == [t[0]] + t[1..];
    EncodeAppend([t[0]], t[1..]);
    assert Encode([t[0]]) == [t[0] as int];
    assert ([t[0] as int] + Encode(t[1..]))[1..] == Encode(t[1..]);
  }

  lemma EncodeQuotedChar(c: char, safe: string)
    requires IsUnreserved(c) || c == '%'
    requires '%' !in safe
    ensures EncodeByte(c as int, safe) == if c == '%' then "%25" else [c]
  {
    if c != '%' {
      assert (c as int) as char == c;
    }
  }

  /** With nothing declared safe, `quote` leaves only unreserved characters
      and '%'. */
  lemma QuotedWithoutSafe(s: string)
    ensures OnlyPercentReserved(Quote(s, ""))
  {
    var q := Quote(s, "");
    forall i | 0 <= i < |q| ensures IsUnreserved(q[i]) || q[i] == '%' {
      assert q[i] !in "";
    }
  }

  /** Text made of unreserved characters only is its own encoding. */
  lemma QuoteUnreserved(s: string, safe: string)
    requires forall i | 0 <= i < |s| :: IsUnreserved(s[i])
    requires '%' !in safe
    ensures Quote(s, safe) == s
  {
    QuoteOfQuoted(s, safe);
    EscapePercentsNoPercent(s);
  }
}
