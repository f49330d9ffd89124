/** The Python string operations the header canonicaliser applies: case
    mapping, `str.strip()`, and the rewrite of runs of spaces done by
    `re.sub('[ ][ ]+', ' ', v)`. */
module Text {
  import opened Seqs

  function LowerChar(c: char): char {
    if 'A' <= c <= 'Z' then (c as int - 'A' as int + 'a' as int) as char else c
  }

  function UpperChar(c: char): char {
    if 'a' <= c <= 'z' then (c as int - 'a' as int + 'A' as int) as char else c
  }

  /** `str.lower()` on ASCII letters; every other character is kept. */
  function Lower(s: string): (r: string)
    ensures |r| == |s|
    ensures forall i | 0 <= i < |s| :: r[i] == LowerChar(s[i])
  {
    Map(LowerChar, s)
  }

  /** `str.upper()` on ASCII letters; every other character is kept. */
  function Upper(s: string): (r: string)
    ensures |r| == |s|
    ensures forall i | 0 <= i < |s| :: r[i] == UpperChar(s[i])
  {
    Map(UpperChar, s)
  }

  /** Python's `str.isspace()` for one character: the characters `str.strip()`
      removes when given no argument. */
  predicate IsSpace(c: char) {
    var n := c as int;
    || 0x09 <= n <= 0x0D
    || 0x1C <= n <= 0x20
    || n == 0x85 || n == 0xA0 || n == 0x1680
    || 0x2000 <= n <= 0x200A
    || n == 0x2028 || n == 0x2029 || n == 0x202F || n == 0x205F || n == 0x3000
  }

  /** `str.lstrip()`: the suffix left after every leading whitespace character. */
  function TrimLeft(s: string): (r: string)
    ensures |r| <= |s| && r == s[|s| - |r|..]
    ensures forall i | 0 <= i < |s| - |r| :: IsSpace(s[i])
    ensures r != [] ==> !IsSpace(r[0])
  {
    if s != [] && IsSpace(s[0]) then TrimLeft(s[1..]) else s
  }

  /** `str.rstrip()`: the prefix left after every trailing whitespace character. */
  function TrimRight(s: string): (r: string)
    ensures |r| <= |s| && r == s[..|r|]
    ensures forall i | |r| <= i < |s| :: IsSpace(s[i])
    ensures r != [] ==> !IsSpace(r[|r| - 1])
  {
    if s != [] && IsSpace(s[|s| - 1]) then TrimRight(s[..|s| - 1]) else s
  }

  /** Every character of t is whitespace. */
  predicate AllSpace(t: string) {
    forall i | 0 <= i < |t| :: IsSpace(t[i])
  }

  /** r sits at offset a of s with only whitespace before and after it. */
  predicate Surrounded(s: string, a: nat, r: string) {
    && a + |r| <= |s|
    && s == s[..a] + r + s[a + |r|..]
    && AllSpace(s[..a]) && AllSpace(s[a + |r|..])
  }

  /** `str.strip()`: s is the stripped string with whitespace before and after it. */
  function Strip(s: string): (r: string)
    ensures r != [] ==> !IsSpace(r[0]) && !IsSpace(r[|r| - 1])
    ensures Surrounded(s, |s| - |TrimLeft(s)|, r)
  {
    StripShape(s, TrimLeft(s), TrimRight(TrimLeft(s)));
    TrimRight(TrimLeft(s))
  }

  lemma StripShape(s: string, left: string, r: string)
    requires |left| <= |s| && left == s[|s| - |left|..]
    requires forall i | 0 <= i < |s| - |left| :: IsSpace(s[i])
    requires |r| <= |left| && r == left[..|r|]
    requires forall i | |r| <= i < |left| :: IsSpace(left[i])
    ensures Surrounded(s, |s| - |left|, r)
  {
    var a := |s| - |left|;
    MiddleSlice(s, left, r);
    assert AllSpace(left[|r|..]) by {
      forall i | 0 <= i < |left| - |r| ensures IsSpace(left[|r|..][i]) {
        assert left[|r|..][i] == left[|r| + i];
      }
    }
  }

  /** The sequence algebra of StripShape: r is a prefix of a suffix of s. */
  lemma MiddleSlice<T>(s: seq<T>, left: seq<T>, r: seq<T>)
    requires |left| <= |s| && left == s[|s| - |left|..]
    requires |r| <= |left| && r == left[..|r|]
    ensures var a := |s| - |left|;
      && s == s[..a] + r + s[a + |r|..]
      && s[a + |r|..] == left[|r|..]
  {
  }

  /** Leading whitespace does not change what lstrip leaves. */
  lemma {:induction false} TrimLeftSpaces(a: string, x: string)
    requires AllSpace(a)
    ensures TrimLeft(a + x) == TrimLeft(x)
  {
    if a == [] {
      assert a + x == x;
    } else {
      var s := a + x;
      assert s[0] == a[0];
      assert s[1..] == a[1..] + x;
      assert AllSpace(a[1..]) by {
        forall i | 0 <= i < |a[1..]| ensures IsSpace(a[1..][i]) {
          assert a[1..][i] == a[i + 1];
        }
      }
      TrimLeftSpaces(a[1..], x);
    }
  }

  /** Trailing whitespace does not change what rstrip leaves. */
  lemma {:induction false} TrimRightSpaces(x: string, b: string)
    requires AllSpace(b)
    ensures TrimRight(x + b) == TrimRight(x)
  {
    if b == [] {
      assert x + b == x;
    } else {
      var s := x + b;
      var b' := b[..|b| - 1];
      assert s[|s| - 1] == b[|b| - 1];
      assert s[..|s| - 1] == x + b';
      assert AllSpace(b') by {
        forall i | 0 <= i < |b'| ensures IsSpace(b'[i]) {
          assert b'[i] == b[i];
        }
      }
      TrimRightSpaces(x, b');
    }
  }

  /** Strip is determined by its contract: whatever string with no whitespace
      at its ends is surrounded by whitespace alone is what strip returns. */
  lemma StripUnique(a: string, r: string, b: string)
    requires AllSpace(a) && AllSpace(b)
    requires r != [] ==> !IsSpace(r[0]) && !IsSpace(r[|r| - 1])
    ensures Strip(a + r + b) == r
  {
    assert a + r + b == a + (r + b);
    TrimLeftSpaces(a, r + b);
    if r == [] {
      assert r + b == b + [];
      TrimLeftSpaces(b, []);
    } else {
      assert (r + b)[0] == r[0];
      TrimRightSpaces(r, b);
    }
  }

  /** A string with no whitespace at its ends is its own strip. */
  lemma StripTrimmed(s: string)
    requires s != [] ==> !IsSpace(s[0]) && !IsSpace(s[|s| - 1])
    ensures Strip(s) == s
  {
    StripUnique("", s, "");
    assert "" + s + "" == s;
  }

  /** Surrounding whitespace does not change what strip returns. */
  lemma StripSurrounded(w1: string, s: string, w2: string)
    requires AllSpace(w1) && AllSpace(w2)
    ensures Strip(w1 + s + w2) == Strip(s)
  {
    var pre, r, post := StripParts(s);
    Regroup(w1, s, w2, pre, r, post);
    AllSpaceAppend(w1, pre);
    AllSpaceAppend(post, w2);
    StripUnique(w1 + pre, r, post + w2);
  }

  /** The whitespace strip removes from each end. */
  lemma StripParts(s: string) returns (pre: string, r: string, post: string)
    ensures r == Strip(s) && s == pre + r + post
    ensures AllSpace(pre) && AllSpace(post)
    ensures r != [] ==> !IsSpace(r[0]) && !IsSpace(r[|r| - 1])
  {
    r := Strip(s);
    var a := |s| - |TrimLeft(s)|;
    pre, post := s[..a], s[a + |r|..];
  }

  lemma Regroup<T>(w1: seq<T>, s: seq<T>, w2: seq<T>, pre: seq<T>, r: seq<T>, post: seq<T>)
    requires s == pre + r + post
    ensures w1 + s + w2 == (w1 + pre) + r + (post + w2)
  {
  }

  lemma AllSpaceAppend(x: string, y: string)
    requires AllSpace(x) && AllSpace(y)
    ensures AllSpace(x + y)
  {
    forall i | 0 <= i < |x + y| ensures IsSpace((x + y)[i]) {
      if i >= |x| {
        assert (x + y)[i] == y[i - |x|];
      }
    }
  }

  predicate NoDoubleSpace(s: string) {
    forall i | 0 <= i < |s| - 1 :: !(s[i] == ' ' && s[i + 1] == ' ')
  }

  /** The characters of s other than the ASCII space, in order. */
  function WithoutSpaces(s: string): string {
    if s == [] then [] else (if s[0] == ' ' then [] else [s[0]]) + WithoutSpaces(s[1..])
  }

  /** `re.sub('[ ][ ]+', ' ', s)`: every run of two or more ASCII spaces
      becomes one space. Other whitespace (tabs, newlines) is left alone. */
  function CollapseSpaces(s: string): (r: string)
    ensures |r| <= |s|
    ensures NoDoubleSpace(r)
    ensures WithoutSpaces(r) == WithoutSpaces(s)
    ensures s != [] ==> r != [] && r[0] == s[0] && r[|r| - 1] == s[|s| - 1]
    ensures forall c | c in r :: c in s
  {
    if |s| < 2 then s
    else if s[0] == ' ' && s[1] == ' ' then CollapseSpaces(s[1..])
    else [s[0]] + CollapseSpaces(s[1..])
  }

  /** Three spaces become one; a single space stays. */
  lemma CollapseExample()
    ensures CollapseSpaces("a   b") == CollapseSpaces("a b") == "a b"
  {
    assert "a   b" == "a" + "  " + " b";
    CollapseDropsDoubled("a", " b");
    assert "a" + " " + " b" == "a" + "  " + "b";
    CollapseDropsDoubled("a", "b");
    assert "a" + " " + "b" == "a b";
    CollapseFixesSingleSpaces("a b");
  }

  /** A string without a double space is its own collapse. */
  lemma {:induction false} CollapseFixesSingleSpaces(s: string)
    requires NoDoubleSpace(s)
    ensures CollapseSpaces(s) == s
  {
    if |s| >= 2 {
      CollapseFixesSingleSpaces(s[1..]);
    }
  }

  /** Dropping one space of a double space does not change the collapse. With
      CollapseFixesSingleSpaces this determines CollapseSpaces completely. */
  lemma {:induction false} CollapseDropsDoubled(x: string, y: string)
    ensures CollapseSpaces(x + "  " + y) == CollapseSpaces(x + " " + y)
  {
    if x == [] {
      assert ([] + "  " + y)[1..] == [] + " " + y;
    } else {
      assert (x + "  " + y)[1..] == x[1..] + "  " + y;
      assert (x + " " + y)[1..] == x[1..] + " " + y;
      CollapseDropsDoubled(x[1..], y);
    }
  }
}
