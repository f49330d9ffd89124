/** The canonical headers block (`_build_canon_headers`) and the signed-header
    list (`_build_signed_headers`). Both lower-case the names and order the
    entries by a stable sort on the first character of the lowered name. */
module Headers {
  import opened Options
  import opened Seqs
  import opened Sorting
  import opened Text
  import opened Entries

  /** The value part of a header line: `(v or '').strip()` with every run of
      two or more spaces turned into one. */
  function NormaliseValue(v: Option<string>): (r: string)
    ensures v == None ==> r == ""
    ensures r != [] ==> !IsSpace(r[0]) && !IsSpace(r[|r| - 1])
    ensures NoDoubleSpace(r)
    ensures WithoutSpaces(r) == WithoutSpaces(Strip(v.GetOr("")))
    ensures forall c | c in r :: c in v.GetOr("")
  {
    var s := v.GetOr("");
    var t := Strip(s);
    assert forall c | c in t :: c in s by {
      var a := |s| - |TrimLeft(s)|;
      assert s == s[..a] + t + s[a + |t|..];
    }
    CollapseSpaces(t)
  }

  /** Normalising a normalised value changes nothing. */
  lemma NormaliseIdempotent(v: Option<string>)
    ensures NormaliseValue(Some(NormaliseValue(v))) == NormaliseValue(v)
  {
    var r := NormaliseValue(v);
    StripTrimmed(r);
    CollapseFixesSingleSpaces(r);
  }

  /** Whitespace around a value does not reach the line. */
  lemma NormaliseIgnoresSurroundingSpace(w1: string, s: string, w2: string)
    requires AllSpace(w1) && AllSpace(w2)
    ensures NormaliseValue(Some(w1 + s + w2)) == NormaliseValue(Some(s))
  {
    StripSurrounded(w1, s, w2);
  }

  /** A run of spaces inside a value becomes one space. */
  lemma NormaliseInnerRun()
    ensures NormaliseValue(Some("a   b")) == NormaliseValue(Some("a b")) == "a b"
  {
    assert !IsSpace('a') && !IsSpace('b');
    NormaliseOfTrimmed("a   b");
    NormaliseOfTrimmed("a b");
    CollapseExample();
  }

  /** Whitespace around a value is dropped. */
  lemma NormaliseSurrounding()
    ensures NormaliseValue(Some("  a b  ")) == "a b"
  {
    assert AllSpace("  ");
    assert "  " + "a b" + "  " == "  a b  ";
    NormaliseIgnoresSurroundingSpace("  ", "a b", "  ");
    NormaliseInnerRun();
  }

  lemma NormaliseOfTrimmed(s: string)
    requires s != [] ==> !IsSpace(s[0]) && !IsSpace(s[|s| - 1])
    ensures NormaliseValue(Some(s)) == CollapseSpaces(s)
  {
    StripTrimmed(s);
  }

  function LowerName(e: Entry): Entry {
    Entry(Lower(e.name), e.value)
  }

  /** The header entries with lowered names, in the order
      `sorted(..., key=lambda i: ord(i[0][0]))` puts them. */
  function SortedHeaders(hs: seq<Entry>): (r: seq<Entry>)
    ensures multiset(r) == multiset(Map(LowerName, hs))
    ensures SortedBy(r, EntryKey)
  {
    SortByKey(Map(LowerName, hs), EntryKey)
  }

  /** `f'{k}:{v_post}'`. */
  function HeaderLine(e: Entry): string {
    e.name + ":" + NormaliseValue(e.value)
  }

  /** The lines of the headers block, in order. */
  function CanonHeaderLines(hs: seq<Entry>): seq<string> {
    Map(HeaderLine, SortedHeaders(hs))
  }

  /** `'\n'.join(headers_post) + '\n'`: every line ends with a newline. */
  function CanonHeaders(hs: seq<Entry>): (r: string)
    requires NamesNonEmpty(hs)
    ensures |r| >= 1 && r[|r| - 1] == '\n'
    ensures hs == [] <==> r == "\n"
  {
    var lines := CanonHeaderLines(hs);
    assert hs != [] ==> |lines[0]| >= 1;
    Join(lines, "\n") + "\n"
  }

  /** `_build_canon_headers`: the loop over the sorted entries that builds
      `headers_post`, then the join. */
  method BuildCanonHeaders(hs: seq<Entry>) returns (block: string)
    requires NamesNonEmpty(hs)
    ensures block == CanonHeaders(hs)
  {
    var sorted := SortedHeaders(hs);
    var post: seq<string> := [];
    var i := 0;
    while i < |sorted|
      invariant 0 <= i <= |sorted|
      invariant post == Map(HeaderLine, sorted[..i])
    {
      var k := sorted[i].name;
      var vPost := NormaliseValue(sorted[i].value);
      post := post + [k + ":" + vPost];
      MapPrefixStep(HeaderLine, sorted, i);
      i := i + 1;
    }
    assert sorted[..i] == sorted;
    block := Join(post, "\n") + "\n";
  }

  /** The block's lines are the lines `lower(name):value` of the headers, one
      per header, stably sorted by their first character. */
  lemma CanonHeaderLinesSorted(hs: seq<Entry>)
    requires NamesNonEmpty(hs)
    ensures CanonHeaderLines(hs) == SortByKey(Map(HeaderLine, Map(LowerName, hs)), FirstOrd)
  {
    var lowered := Map(LowerName, hs);
    forall x | x in lowered ensures EntryKey(x) == FirstOrd(HeaderLine(x)) {
      var i :| 0 <= i < |lowered| && lowered[i] == x;
      assert x.name != [];
    }
    SortMapCommute(lowered, HeaderLine, EntryKey, FirstOrd);
  }

  predicate NoNewlines(hs: seq<Entry>) {
    forall i | 0 <= i < |hs| :: '\n' !in hs[i].name && '\n' !in ValueOrEmpty(hs[i])
  }

  /** Splitting the block at its newlines gives back its lines and the empty
      string after the final newline, so no header is lost or merged, provided
      no name or value holds a newline itself. */
  lemma CanonHeadersSplit(hs: seq<Entry>)
    requires NamesNonEmpty(hs) && NoNewlines(hs)
    requires hs != []
    ensures Split(CanonHeaders(hs), '\n') == CanonHeaderLines(hs) + [""]
  {
    var lines := CanonHeaderLines(hs);
    LinesWithoutNewlines(hs);
    SplitJoin(lines, '\n');
    SplitAt(Join(lines, "\n"), "", '\n');
    assert Join(lines, "\n") + "\n" == Join(lines, "\n") + ['\n'] + "";
  }

  lemma LinesWithoutNewlines(hs: seq<Entry>)
    requires NoNewlines(hs)
    ensures forall l | l in CanonHeaderLines(hs) :: '\n' !in l
  {
    var lines := CanonHeaderLines(hs);
    forall i | 0 <= i < |lines| ensures '\n' !in lines[i] {
      var j := SortedFrom(hs, i);
      LineWithoutNewline(hs[j]);
    }
  }

  /** Every sorted entry is the lowered form of some header. */
  lemma SortedFrom(hs: seq<Entry>, i: nat) returns (j: nat)
    requires i < |hs|
    ensures j < |hs| && SortedHeaders(hs)[i] == LowerName(hs[j])
  {
    var lowered := Map(LowerName, hs);
    assert SortedHeaders(hs)[i] in multiset(lowered);
    j :| 0 <= j < |hs| && lowered[j] == SortedHeaders(hs)[i];
  }

  lemma LineWithoutNewline(e: Entry)
    requires '\n' !in e.name && '\n' !in ValueOrEmpty(e)
    ensures '\n' !in HeaderLine(LowerName(e))
  {
    assert '\n' !in Lower(e.name);
  }

  function LoweredName(e: Entry): string {
    Lower(e.name)
  }

  /** `sorted(map(lambda i: i[0].lower(), ...), key=lambda i: ord(i[0]))`. */
  function SignedNames(hs: seq<Entry>): (r: seq<string>)
    ensures multiset(r) == multiset(Map(LoweredName, hs))
    ensures SortedBy(r, FirstOrd)
  {
    SortByKey(Map(LoweredName, hs), FirstOrd)
  }

  /** `';'.join(headers_sorted)`. */
  function SignedHeaders(hs: seq<Entry>): (r: string)
    requires NamesNonEmpty(hs)
    ensures hs == [] <==> r == ""
  {
    var names := SignedNames(hs);
    assert hs != [] ==> names[0] in multiset(Map(LoweredName, hs));
    Join(names, ";")
  }

  function NameOf(e: Entry): string {
    e.name
  }

  /** The signed names are the names of the header lines, in the same order:
      line i is signed name i, a colon and the normalised value. */
  lemma SignedNamesMatchLines(hs: seq<Entry>)
    ensures SignedNames(hs) == Map(NameOf, SortedHeaders(hs))
    ensures |CanonHeaderLines(hs)| == |SignedNames(hs)| == |hs|
    ensures forall i | 0 <= i < |hs| ::
      CanonHeaderLines(hs)[i] == SignedNames(hs)[i] + ":" + NormaliseValue(SortedHeaders(hs)[i].value)
  {
    var lowered := Map(LowerName, hs);
    SortMapCommute(lowered, NameOf, EntryKey, FirstOrd);
    assert Map(NameOf, lowered) == Map(LoweredName, hs);
  }

  /** Splitting the signed-header list at ';' gives the signed names back,
      provided no name holds a ';'. */
  lemma SignedHeadersSplit(hs: seq<Entry>)
    requires NamesNonEmpty(hs)
    requires hs != []
    requires forall i | 0 <= i < |hs| :: ';' !in hs[i].name
    ensures Split(SignedHeaders(hs), ';') == SignedNames(hs)
  {
    var names := SignedNames(hs);
    forall i | 0 <= i < |names| ensures ';' !in names[i] {
      var j := SignedNameFrom(hs, i);
    }
    SplitJoin(names, ';');
  }

  /** Every signed name is the lowered name of some header. */
  lemma SignedNameFrom(hs: seq<Entry>, i: nat) returns (j: nat)
    requires i < |hs|
    ensures j < |hs| && SignedNames(hs)[i] == Lower(hs[j].name)
  {
    var lowered := Map(LoweredName, hs);
    assert SignedNames(hs)[i] in multiset(lowered);
    j :| 0 <= j < |hs| && lowered[j] == SignedNames(hs)[i];
  }

  /** Headers whose lowered names all start with different characters give the
      same block and the same signed-header list in any order. */
  lemma HeadersOrderIndependent(hs: seq<Entry>, gs: seq<Entry>)
    requires NamesNonEmpty(hs) && NamesNonEmpty(gs)
    requires multiset(hs) == multiset(gs)
    requires DistinctKeys(Map(LoweredName, hs), FirstOrd)
    ensures CanonHeaders(hs) == CanonHeaders(gs)
    ensures SignedHeaders(hs) == SignedHeaders(gs)
  {
    MapPreservesPermutation(LowerName, hs, gs);
    MapPreservesPermutation(LoweredName, hs, gs);
    var lowered := Map(LowerName, hs);
    assert DistinctKeys(lowered, EntryKey) by {
      forall i, j | 0 <= i < j < |lowered| ensures EntryKey(lowered[i]) != EntryKey(lowered[j]) {
        assert EntryKey(lowered[i]) == FirstOrd(Map(LoweredName, hs)[i]);
        assert EntryKey(lowered[j]) == FirstOrd(Map(LoweredName, hs)[j]);
      }
    }
    SortIndependentOfOrder(lowered, Map(LowerName, gs), EntryKey);
    SortIndependentOfOrder(Map(LoweredName, hs), Map(LoweredName, gs), FirstOrd);
  }

  /** An empty mapping gives a block of one newline and an empty list. */
  lemma EmptyHeaders()
    ensures CanonHeaders([]) == "\n"
    ensures SignedHeaders([]) == ""
  {
  }
}
