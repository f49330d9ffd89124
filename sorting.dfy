/** A stable sort by an integer key, as Python's `sorted(xs, key=k)` is: the
    result is ordered by key and elements with equal keys keep their input
    order. The signer sorts by the ordinal of a name's first character only,
    so ties are common and stability decides the output. */
module Sorting {
  import opened Seqs

  predicate SortedBy<T>(s: seq<T>, key: T -> int) {
    forall i, j | 0 <= i < j < |s| :: key(s[i]) <= key(s[j])
  }

  /** Puts x before the first element whose key is not smaller than its own. */
  function Insert<T>(x: T, s: seq<T>, key: T -> int): (r: seq<T>)
    ensures multiset(r) == multiset(s) + multiset{x}
    ensures |r| == |s| + 1
  {
    if s == [] || key(x) <= key(s[0]) then [x] + s
    else
      assert s == [s[0]] + s[1..];
      [s[0]] + Insert(x, s[1..], key)
  }

  lemma {:induction false} InsertSorted<T>(x: T, s: seq<T>, key: T -> int)
    requires SortedBy(s, key)
    ensures SortedBy(Insert(x, s, key), key)
  {
    if s != [] && key(x) > key(s[0]) {
      var t := Insert(x, s[1..], key);
      InsertSorted(x, s[1..], key);
      forall j | 0 <= j < |t| ensures key(s[0]) <= key(t[j]) {
        assert t[j] in multiset(s[1..]) + multiset{x};
        if t[j] != x {
          assert t[j] in s[1..];
        }
      }
    }
  }

  /** Insertion sort taking elements from the back, so that an element is
      inserted ahead of every later one with the same key. */
  function SortByKey<T>(s: seq<T>, key: T -> int): (r: seq<T>)
    ensures multiset(r) == multiset(s)
    ensures |r| == |s|
    ensures SortedBy(r, key)
  {
    if s == [] then []
    else
      assert s == [s[0]] + s[1..];
      InsertSorted(s[0], SortByKey(s[1..], key), key);
      Insert(s[0], SortByKey(s[1..], key), key)
  }

  /** The elements with key k, in their order in s. */
  function WithKey<T>(s: seq<T>, key: T -> int, k: int): seq<T> {
    if s == [] then []
    else (if key(s[0]) == k then [s[0]] else []) + WithKey(s[1..], key, k)
  }

  lemma {:induction false} WithKeyInsert<T>(x: T, s: seq<T>, key: T -> int, k: int)
    ensures WithKey(Insert(x, s, key), key, k) == WithKey([x] + s, key, k)
  {
    assert ([x] + s)[1..] == s;
    if !(s == [] || key(x) <= key(s[0])) {
      var t := Insert(x, s[1..], key);
      assert ([s[0]] + t)[1..] == t;
      WithKeyInsert(x, s[1..], key, k);
      assert ([x] + s[1..])[1..] == s[1..];
    }
  }

  /** Stability: for every key, the elements with that key come out in the
      order they went in. */
  lemma {:induction false} SortStable<T>(s: seq<T>, key: T -> int, k: int)
    ensures WithKey(SortByKey(s, key), key, k) == WithKey(s, key, k)
  {
    if s != [] {
      SortStable(s[1..], key, k);
      WithKeyInsert(s[0], SortByKey(s[1..], key), key, k);
      assert ([s[0]] + SortByKey(s[1..], key))[1..] == SortByKey(s[1..], key);
    }
  }

  lemma {:induction false} WithKeyEmpty<T>(s: seq<T>, key: T -> int, k: int)
    ensures WithKey(s, key, k) == [] <==> forall i | 0 <= i < |s| :: key(s[i]) != k
  {
    if s != [] {
      WithKeyEmpty(s[1..], key, k);
      assert forall i | 1 <= i < |s| :: s[i] == s[1..][i - 1];
    }
  }

  lemma WithKeyOfHead<T>(s: seq<T>, key: T -> int)
    ensures s != [] ==> WithKey(s, key, key(s[0])) == [s[0]] + WithKey(s[1..], key, key(s[0]))
  {
  }

  /** Two key-ordered sequences that agree on the subsequence of every key are
      equal: stability and order determine a stable sort's output. */
  lemma {:induction false} SortedUnique<T>(s: seq<T>, t: seq<T>, key: T -> int)
    requires SortedBy(s, key) && SortedBy(t, key)
    requires forall k :: WithKey(s, key, k) == WithKey(t, key, k)
    ensures s == t
    decreases |s| + |t|
  {
    WithKeyOfHead(s, key);
    WithKeyOfHead(t, key);
    if s != [] && t != [] {
      // Each head has the least key of its sequence, and the other sequence
      // holds an element with that key, so the two heads share their key.
      assert key(s[0]) == key(t[0]) by {
        assert WithKey(t, key, key(s[0])) != [];
        WithKeyEmpty(t, key, key(s[0]));
        assert WithKey(s, key, key(t[0])) != [];
        WithKeyEmpty(s, key, key(t[0]));
      }
      var k0 := key(s[0]);
      assert s[0] == t[0] by {
        assert WithKey(s, key, k0)[0] == s[0];
        assert WithKey(t, key, k0)[0] == t[0];
      }
      forall k ensures WithKey(s[1..], key, k) == WithKey(t[1..], key, k) {
        assert WithKey(s, key, k) == WithKey(t, key, k);
        if k == k0 {
          assert WithKey(s[1..], key, k) == WithKey(s, key, k)[1..];
          assert WithKey(t[1..], key, k) == WithKey(t, key, k)[1..];
        } else {
          assert WithKey(s[1..], key, k) == WithKey(s, key, k);
          assert WithKey(t[1..], key, k) == WithKey(t, key, k);
        }
      }
      SortedUnique(s[1..], t[1..], key);
      assert s == [s[0]] + s[1..] && t == [t[0]] + t[1..];
    }
  }

  predicate DistinctKeys<T>(s: seq<T>, key: T -> int) {
    forall i, j | 0 <= i < j < |s| :: key(s[i]) != key(s[j])
  }

  lemma {:induction false} WithKeyAppend<T>(s: seq<T>, t: seq<T>, key: T -> int, k: int)
    ensures WithKey(s + t, key, k) == WithKey(s, key, k) + WithKey(t, key, k)
  {
    if s == [] {
      assert s + t == t;
    } else {
      var head := if key(s[0]) == k then [s[0]] else [];
      assert WithKey(s + t, key, k) == head + WithKey(s[1..] + t, key, k) by {
        assert (s + t)[0] == s[0];
        assert (s + t)[1..] == s[1..] + t;
      }
      WithKeyAppend(s[1..], t, key, k);
    }
  }

  lemma DistinctKeysTail<T>(s: seq<T>, key: T -> int)
    requires s != [] && DistinctKeys(s, key)
    ensures DistinctKeys(s[1..], key)
    ensures WithKey(s[1..], key, key(s[0])) == []
  {
    forall a, b | 0 <= a < b < |s[1..]| ensures key(s[1..][a]) != key(s[1..][b]) {
      assert s[1..][a] == s[a + 1] && s[1..][b] == s[b + 1];
    }
    forall j | 0 <= j < |s[1..]| ensures key(s[1..][j]) != key(s[0]) {
      assert s[1..][j] == s[j + 1];
    }
    WithKeyEmpty(s[1..], key, key(s[0]));
  }

  /** With distinct keys, a rearrangement has the same (at most one) element
      for every key. */
  lemma {:induction false} WithKeyOfPermutation<T>(s: seq<T>, t: seq<T>, key: T -> int, k: int)
    requires multiset(s) == multiset(t)
    requires DistinctKeys(s, key)
    ensures WithKey(s, key, k) == WithKey(t, key, k)
    decreases |s|
  {
    if s == [] {
      assert |t| == |multiset(t)| == |multiset(s)| == 0;
    } else {
      var i := PermutationHead(s, t);
      DistinctKeysTail(s, key);
      WithKeyOfPermutation(s[1..], t[..i] + t[i + 1..], key, k);
      WithKeyRemoveHead(s, t, i, key, k);
    }
  }

  /** The step of WithKeyOfPermutation: put the head of s back at index i of t. */
  lemma WithKeyRemoveHead<T>(s: seq<T>, t: seq<T>, i: nat, key: T -> int, k: int)
    requires s != [] && i < |t| && t[i] == s[0]
    requires WithKey(s[1..], key, key(s[0])) == []
    requires WithKey(s[1..], key, k) == WithKey(t[..i] + t[i + 1..], key, k)
    ensures WithKey(s, key, k) == WithKey(t, key, k)
  {
    WithKeyRemoveAt(t, i, key, k);
    var y: seq<T> := if key(s[0]) == k then [s[0]] else [];
    assert WithKey(s, key, k) == y + WithKey(s[1..], key, k);
    Reinsert(WithKey(s, key, k), WithKey(t, key, k), y, WithKey(t[..i], key, k), WithKey(t[i + 1..], key, k), WithKey(s[1..], key, k));
  }

  /** Putting back one piece between two halves that were joined. */
  lemma Reinsert<T>(ws: seq<T>, wt: seq<T>, y: seq<T>, a: seq<T>, b: seq<T>, rest: seq<T>)
    requires ws == y + rest && wt == a + y + b && rest == a + b
    requires y == [] || rest == []
    ensures ws == wt
  {
    if y == [] {
      assert ws == a + b && wt == a + b;
    } else {
      assert a == [] && b == [];
    }
  }

  lemma WithKeyRemoveAt<T>(t: seq<T>, i: nat, key: T -> int, k: int)
    requires i < |t|
    ensures WithKey(t, key, k) ==
      WithKey(t[..i], key, k) + (if key(t[i]) == k then [t[i]] else []) + WithKey(t[i + 1..], key, k)
    ensures WithKey(t[..i] + t[i + 1..], key, k) == WithKey(t[..i], key, k) + WithKey(t[i + 1..], key, k)
  {
    assert t == t[..i] + ([t[i]] + t[i + 1..]);
    WithKeyAppend(t[..i], [t[i]] + t[i + 1..], key, k);
    assert ([t[i]] + t[i + 1..])[1..] == t[i + 1..];
    WithKeyAppend(t[..i], t[i + 1..], key, k);
  }

  /** When no two elements share a key, the sort forgets the input order: any
      rearrangement of the input sorts to the same sequence. */
  lemma SortIndependentOfOrder<T>(s: seq<T>, t: seq<T>, key: T -> int)
    requires multiset(s) == multiset(t)
    requires DistinctKeys(s, key)
    ensures SortByKey(s, key) == SortByKey(t, key)
  {
    forall k ensures WithKey(SortByKey(s, key), key, k) == WithKey(SortByKey(t, key), key, k) {
      SortStable(s, key, k);
      SortStable(t, key, k);
      WithKeyOfPermutation(s, t, key, k);
    }
    SortedUnique(SortByKey(s, key), SortByKey(t, key), key);
  }

  /** Sorting commutes with a mapping that keeps the keys: sorting the images
      gives the images of the sorted elements. */
  lemma {:induction false} SortMapCommute<A, B>(s: seq<A>, f: A -> B, keyA: A -> int, keyB: B -> int)
    requires forall x | x in s :: keyA(x) == keyB(f(x))
    ensures SortByKey(Map(f, s), keyB) == Map(f, SortByKey(s, keyA))
  {
    if s != [] {
      assert Map(f, s)[1..] == Map(f, s[1..]);
      SortMapCommute(s[1..], f, keyA, keyB);
      var t := SortByKey(s[1..], keyA);
      forall y | y in t ensures keyA(y) == keyB(f(y)) {
        assert y in multiset(t);
        assert y in s[1..];
      }
      InsertMapCommute(s[0], t, f, keyA, keyB);
    }
  }

  lemma {:induction false} InsertMapCommute<A, B>(x: A, s: seq<A>, f: A -> B, keyA: A -> int, keyB: B -> int)
    requires keyA(x) == keyB(f(x))
    requires forall y | y in s :: keyA(y) == keyB(f(y))
    ensures Insert(f(x), Map(f, s), keyB) == Map(f, Insert(x, s, keyA))
  {
    if s != [] {
      assert s[0] in s;
      if keyA(x) > keyA(s[0]) {
        assert Map(f, s)[1..] == Map(f, s[1..]);
        InsertMapCommute(x, s[1..], f, keyA, keyB);
      }
    }
  }
}
