/** Bytes and the UTF-8 encoding of Unicode strings (Python's `bytes(s, 'utf-8')`
    and `str.encode('utf-8')`). A Dafny `char` is a Unicode scalar value, so
    every string is encodable, as every Python string without lone surrogates is. */
module Utf8 {

  type byte = x: int | 0 <= x < 256

  predicate IsAscii(c: char) {
    c as int < 128
  }

  predicate AllAscii(s: string) {
    forall i | 0 <= i < |s| :: IsAscii(s[i])
  }

  /** The UTF-8 encoding of one scalar value (section 3 of RFC 3629): one byte for
      ASCII, otherwise a lead byte announcing the length and continuation bytes
      carrying six bits each. */
  function EncodeChar(c: char): (r: seq<byte>)
    ensures 1 <= |r| <= 4
    ensures IsAscii(c) <==> |r| == 1
    ensures IsAscii(c) ==> r == [c as int]
    ensures !IsAscii(c) ==> forall i | 0 <= i < |r| :: r[i] >= 128
  {
    var n := c as int;
    if n < 0x80 then [n]
    else if n < 0x800 then [0xC0 + n / 0x40, 0x80 + n % 0x40]
    else if n < 0x1_0000 then [0xE0 + n / 0x1000, 0x80 + (n / 0x40) % 0x40, 0x80 + n % 0x40]
    else [0xF0 + n / 0x4_0000, 0x80 + (n / 0x1000) % 0x40, 0x80 + (n / 0x40) % 0x40, 0x80 + n % 0x40]
  }

  /** Reads back the scalar value from the bytes of one encoded character. */
  function DecodeChar(bs: seq<byte>): int
    requires 1 <= |bs| <= 4
  {
    var b: seq<int> := bs;
    if |b| == 1 then b[0]
    else if |b| == 2 then (b[0] - 0xC0) * 0x40 + (b[1] - 0x80)
    else if |b| == 3 then ((b[0] - 0xE0) * 0x40 + (b[1] - 0x80)) * 0x40 + (b[2] - 0x80)
    else (((b[0] - 0xF0) * 0x40 + (b[1] - 0x80)) * 0x40 + (b[2] - 0x80)) * 0x40 + (b[3] - 0x80)
  }

  /** The encoding of a character loses nothing: its scalar value can be read back. */
  lemma DecodeEncodeChar(c: char)
    ensures DecodeChar(EncodeChar(c)) == c as int
  {
    var n := c as int;
    if n >= 0x1_0000 {
      DecodeFour(n);
    } else if n >= 0x800 {
      DecodeThree(n);
    } else if n >= 0x80 {
      DecodeTwo(n);
    }
  }

  lemma DecodeTwo(n: int)
    requires 0x80 <= n < 0x800
    ensures DecodeChar([0xC0 + n / 0x40, 0x80 + n % 0x40]) == n
  {
  }

  lemma DecodeThree(n: int)
    requires 0x800 <= n < 0x1_0000
    ensures DecodeChar([0xE0 + n / 0x1000, 0x80 + (n / 0x40) % 0x40, 0x80 + n % 0x40]) == n
  {
    SixBitSteps(n);
  }

  lemma DecodeFour(n: int)
    requires 0x1_0000 <= n < 0x11_0000
    ensures DecodeChar([0xF0 + n / 0x4_0000, 0x80 + (n / 0x1000) % 0x40, 0x80 + (n / 0x40) % 0x40, 0x80 + n % 0x40]) == n
  {
    SixBitSteps(n);
  }

  /** Splitting off six bits at a time. */
  lemma SixBitSteps(n: int)
    requires 0 <= n
    ensures n == (n / 0x40) * 0x40 + n % 0x40
    ensures n / 0x40 == (n / 0x1000) * 0x40 + (n / 0x40) % 0x40
    ensures n / 0x1000 == (n / 0x4_0000) * 0x40 + (n / 0x1000) % 0x40
  {
    var a := n / 0x40;
    assert a / 0x40 == n / 0x1000;
    assert (a / 0x40) / 0x40 == n / 0x4_0000;
  }

  /** The UTF-8 encoding of a string: the encodings of its characters, in order. */
  function Encode(s: string): (r: seq<byte>)
    ensures |r| >= |s|
    ensures r == [] <==> s == []
    ensures AllAscii(s) ==> |r| == |s| && forall i | 0 <= i < |s| :: r[i] == s[i] as int
  {
    if s == [] then [] else EncodeChar(s[0]) + Encode(s[1..])
  }

  lemma {:induction false} EncodeAppend(s: string, t: string)
    ensures Encode(s + t) == Encode(s) + Encode(t)
  {
    if s == [] {
      assert s + t == t;
    } else {
      assert (s + t)[1..] == s[1..] + t;
      EncodeAppend(s[1..], t);
    }
  }
}
