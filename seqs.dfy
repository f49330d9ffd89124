/** Sequence and string plumbing the signer is built from: element-wise Map,
    Python's str.join and str.split (single-character separator), and the
    filter that keeps the non-empty strings of a list. */
module Seqs {

  /** Element-wise application (Python's map over a list). */
  function Map<A, B>(f: A -> B, s: seq<A>): (r: seq<B>)
    ensures |r| == |s|
    ensures forall i | 0 <= i < |s| :: r[i] == f(s[i])
  {
    if s == [] then [] else [f(s[0])] + Map(f, s[1..])
  }

  lemma MapAppend<A, B>(f: A -> B, s: seq<A>, t: seq<A>)
    ensures Map(f, s + t) == Map(f, s) + Map(f, t)
  {
    assert Map(f, s + t) == Map(f, s) + Map(f, t);
  }

  /** Mapping one element more of a prefix appends its image. */
  lemma MapPrefixStep<A, B>(f: A -> B, s: seq<A>, i: nat)
    requires i < |s|
    ensures Map(f, s[..i + 1]) == Map(f, s[..i]) + [f(s[i])]
  {
    assert s[..i + 1] == s[..i] + [s[i]];
    MapAppend(f, s[..i], [s[i]]);
  }

  /** Removing one element before or after mapping removes its image. */
  lemma MapRemoveAt<A, B>(f: A -> B, t: seq<A>, i: nat)
    requires i < |t|
    ensures multiset(Map(f, t)) == multiset(Map(f, t[..i] + t[i + 1..])) + multiset{f(t[i])}
  {
    MapSplitAt(f, t, i);
    MapAppend(f, t[..i], t[i + 1..]);
    MultisetMiddle(Map(f, t[..i]), f(t[i]), Map(f, t[i + 1..]));
  }

  lemma {:induction false} MapSplitAt<A, B>(f: A -> B, t: seq<A>, i: nat)
    requires i < |t|
    ensures Map(f, t) == Map(f, t[..i]) + [f(t[i])] + Map(f, t[i + 1..])
    decreases i
  {
    if i == 0 {
      assert t[..0] == [];
    } else {
      MapSplitAt(f, t[1..], i - 1);
      assert t[1..][..i - 1] == t[..i][1..];
      assert t[1..][i..] == t[i + 1..];
    }
  }

  lemma MultisetMiddle<T>(a: seq<T>, x: T, b: seq<T>)
    ensures multiset(a + [x] + b) == multiset(a + b) + multiset{x}
  {
  }

  /** The head of a sequence occurs in any rearrangement of it, and removing
      it from both leaves rearrangements of each other. */
  lemma PermutationHead<T>(s: seq<T>, t: seq<T>) returns (i: nat)
    requires s != [] && multiset(s) == multiset(t)
    ensures i < |t| && t[i] == s[0]
    ensures multiset(s[1..]) == multiset(t[..i] + t[i + 1..])
  {
    assert s[0] in multiset(t);
    i :| 0 <= i < |t| && t[i] == s[0];
    assert s == [s[0]] + s[1..];
    calc {
      multiset(s[1..]);
      multiset(s) - multiset{s[0]};
      multiset(t) - multiset{t[i]};
      { assert t == t[..i] + [t[i]] + t[i + 1..]; }
      multiset(t[..i]) + multiset(t[i + 1..]);
      multiset(t[..i] + t[i + 1..]);
    }
  }

  /** Mapping commutes with rearrangement: permuted inputs give permuted outputs. */
  lemma {:induction false} MapPreservesPermutation<A, B>(f: A -> B, s: seq<A>, t: seq<A>)
    requires multiset(s) == multiset(t)
    ensures multiset(Map(f, s)) == multiset(Map(f, t))
    decreases |s|
  {
    if s != [] {
      var i := PermutationHead(s, t);
      MapPreservesPermutation(f, s[1..], t[..i] + t[i + 1..]);
      MapRemoveAt(f, t, i);
      assert Map(f, s) == [f(s[0])] + Map(f, s[1..]);
    }
  }

  /** Python's `sep.join(parts)`: the parts with `sep` between consecutive ones. */
  function Join(parts: seq<string>, sep: string): (r: string)
    ensures parts == [] ==> r == ""
    ensures parts != [] ==> |r| >= |parts[0]|
  {
    if parts == [] then ""
    else if |parts| == 1 then parts[0]
    else parts[0] + sep + Join(parts[1..], sep)
  }

  /** Python's `s.split(c)` for a one-character separator: the maximal
      separator-free pieces, always at least one (`"".split(c) == [""]`). */
  function Split(s: string, c: char): (r: seq<string>)
    ensures |r| >= 1
  {
    if s == [] then [""]
    else if s[0] == c then [""] + Split(s[1..], c)
    else
      var rest := Split(s[1..], c);
      [[s[0]] + rest[0]] + rest[1..]
  }

  /** No piece of a split contains the separator. */
  lemma {:induction false} SplitPiecesFree(s: string, c: char)
    ensures forall p | p in Split(s, c) :: c !in p
  {
    if s != [] {
      SplitPiecesFree(s[1..], c);
    }
  }

  /** Splitting a string that does not contain the separator gives the string back. */
  lemma {:induction false} SplitNoSeparator(s: string, c: char)
    requires c !in s
    ensures Split(s, c) == [s]
  {
    if s != [] {
      SplitNoSeparator(s[1..], c);
      assert [s[0]] + s[1..] == s;
    }
  }

  /** Splitting distributes over one occurrence of the separator. */
  lemma {:induction false} SplitAt(a: string, b: string, c: char)
    ensures Split(a + [c] + b, c) == Split(a, c) + Split(b, c)
  {
    if a == [] {
      assert a + [c] + b == [c] + b;
      assert ([c] + b)[1..] == b;
    } else {
      assert (a + [c] + b)[1..] == a[1..] + [c] + b;
      SplitAt(a[1..], b, c);
    }
  }

  /** Split undoes Join when no part contains the separator. */
  lemma {:induction false} SplitJoin(parts: seq<string>, c: char)
    requires parts != []
    requires forall p | p in parts :: c !in p
    ensures Split(Join(parts, [c]), c) == parts
  {
    if |parts| == 1 {
      SplitNoSeparator(parts[0], c);
    } else {
      SplitJoin(parts[1..], c);
      SplitAt(parts[0], Join(parts[1..], [c]), c);
      SplitNoSeparator(parts[0], c);
      assert parts == [parts[0]] + parts[1..];
    }
  }

  /** The pieces of every part, in order. */
  function SplitAll(parts: seq<string>, c: char): seq<string> {
    if parts == [] then [] else Split(parts[0], c) + SplitAll(parts[1..], c)
  }

  /** Splitting a join at its separator splits each part on its own. */
  lemma {:induction false} SplitJoinParts(parts: seq<string>, c: char)
    requires parts != []
    ensures Split(Join(parts, [c]), c) == SplitAll(parts, c)
  {
    if |parts| == 1 {
      assert SplitAll(parts[1..], c) == [];
    } else {
      SplitJoinParts(parts[1..], c);
      SplitAt(parts[0], Join(parts[1..], [c]), c);
    }
  }

  /** Joining after putting a character in front of the first part puts it in
      front of the join. */
  lemma JoinConsHead(x: char, parts: seq<string>, sep: string)
    requires parts != []
    ensures Join([[x] + parts[0]] + parts[1..], sep) == [x] + Join(parts, sep)
  {
    var q := [[x] + parts[0]] + parts[1..];
    assert q[1..] == parts[1..];
  }

  /** Join undoes Split: the pieces with the separator put back are the string. */
  lemma {:induction false} JoinSplit(s: string, c: char)
    ensures Join(Split(s, c), [c]) == s
  {
    if s != [] {
      JoinSplit(s[1..], c);
      if s[0] == c {
        assert [""] + Split(s[1..], c) == Split(s, c);
        assert s == "" + [c] + s[1..];
      } else {
        JoinConsHead(s[0], Split(s[1..], c), [c]);
        assert s == [s[0]] + s[1..];
      }
    }
  }

  /** Every character of a join comes from a part or from the separator. */
  lemma {:induction false} JoinChars(parts: seq<string>, sep: string, x: char)
    requires x !in sep
    requires forall p | p in parts :: x !in p
    ensures x !in Join(parts, sep)
  {
    if |parts| > 1 {
      JoinChars(parts[1..], sep, x);
    }
  }

  /** Python's `filter(None, parts)` on strings: drop the empty ones. */
  function NonEmpty(parts: seq<string>): (r: seq<string>)
    ensures forall p | p in r :: p != [] && p in parts
  {
    if parts == [] then []
    else if parts[0] == [] then NonEmpty(parts[1..])
    else [parts[0]] + NonEmpty(parts[1..])
  }

  lemma {:induction false} NonEmptyAppend(s: seq<string>, t: seq<string>)
    ensures NonEmpty(s + t) == NonEmpty(s) + NonEmpty(t)
  {
    if s != [] {
      assert (s + t)[1..] == s[1..] + t;
      NonEmptyAppend(s[1..], t);
    } else {
      assert s + t == t;
    }
  }

  /** The filter keeps exactly the non-empty strings, in order. */
  lemma {:induction false} NonEmptyKeepsNonEmpty(parts: seq<string>)
    requires forall p | p in parts :: p != []
    ensures NonEmpty(parts) == parts
  {
    if parts != [] {
      assert parts[0] in parts;
      assert forall p | p in parts[1..] :: p in parts;
      NonEmptyKeepsNonEmpty(parts[1..]);
    }
  }
}
