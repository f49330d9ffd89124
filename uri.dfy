/** The canonical URI path (`_build_canon_uri`): the non-empty '/'-separated
    segments, each percent-encoded twice, between slashes. */
module Uri {
  import opened Options
  import opened Seqs
  import Utf8
  import Percent

  /** `list(filter(None, uri.split('/')))`. */
  function Segments(uri: string): (r: seq<string>)
    ensures forall p | p in r :: p != [] && '/' !in p
  {
    SplitPiecesFree(uri, '/');
    NonEmpty(Split(uri, '/'))
  }

  /** `quote(quote(p, safe=""))`. */
  function EncodeSegment(p: string): (r: string)
    ensures '/' !in r
    ensures r == [] <==> p == []
  {
    EncodeSegmentEscapesPercents(p);
    Percent.Quote(Percent.Quote(p, ""), "/")
  }

  /** The second pass only escapes the '%' signs of the first: what `quote`
      produces with an empty `safe` holds nothing else it would escape. */
  lemma EncodeSegmentEscapesPercents(p: string)
    ensures Percent.Quote(Percent.Quote(p, ""), "/") == Percent.EscapePercents(Percent.Quote(p, ""))
    ensures '/' !in Percent.Quote(p, "")
  {
    Percent.QuotedWithoutSafe(p);
    Percent.QuoteOfQuoted(Percent.Quote(p, ""), "/");
  }

  /** Decoding twice gives back the segment's UTF-8 bytes: after one decode
      the text of the first encoding, after a second its bytes. */
  lemma EncodeSegmentDecode(p: string)
    ensures Percent.Decode(EncodeSegment(p)) == Some(Utf8.Encode(Percent.Quote(p, "")))
    ensures Percent.Decode(Percent.Quote(p, "")) == Some(Utf8.Encode(p))
  {
    Percent.DecodeQuoteBytes(Utf8.Encode(Percent.Quote(p, "")), "/");
    Percent.DecodeQuoteBytes(Utf8.Encode(p), "");
  }

  /** `_build_canon_uri`. */
  function CanonUri(uri: string): (r: string)
    ensures |r| >= 1 && r[0] == '/' && r[|r| - 1] == '/'
    ensures r == "/" <==> Segments(uri) == []
  {
    var parts := Segments(uri);
    if parts == [] then "/"
    else
      var encoded := Map(EncodeSegment, parts);
      assert encoded[0] != [];
      "/" + Join(encoded, "/") + "/"
  }

  /** A slash splits the segments and adds none of its own. */
  lemma SegmentsAtSlash(a: string, b: string)
    ensures Segments(a + "/" + b) == Segments(a) + Segments(b)
  {
    SplitAt(a, b, '/');
    NonEmptyAppend(Split(a, '/'), Split(b, '/'));
  }

  /** Repeated, leading and trailing slashes do not change the canonical URI. */
  lemma CanonUriCollapsesSlashes(a: string, b: string)
    ensures CanonUri(a + "//" + b) == CanonUri(a + "/" + b)
    ensures CanonUri("/" + a) == CanonUri(a)
    ensures CanonUri(a + "/") == CanonUri(a)
  {
    SegmentsDoubleSlash(a, b);
    SegmentsLeadingSlash(a);
    SegmentsTrailingSlash(a);
  }

  lemma SegmentsDoubleSlash(a: string, b: string)
    ensures Segments(a + "//" + b) == Segments(a + "/" + b)
  {
    assert a + "//" + b == a + "/" + ("/" + b);
    SegmentsAtSlash(a, "/" + b);
    SegmentsLeadingSlash(b);
    SegmentsAtSlash(a, b);
  }

  lemma SegmentsLeadingSlash(a: string)
    ensures Segments("/" + a) == Segments(a)
  {
    assert "/" + a == "" + "/" + a;
    SegmentsAtSlash("", a);
    assert Segments("") == [];
  }

  lemma SegmentsTrailingSlash(a: string)
    ensures Segments(a + "/") == Segments(a)
  {
    assert a + "/" == a + "/" + "";
    SegmentsAtSlash(a, "");
    assert Segments("") == [];
    assert Segments(a) + [] == Segments(a);
  }

  /** Splitting a canonical URI with segments at '/' gives the empty text
      before the leading slash, one encoded piece per segment, and the empty
      text after the trailing slash. */
  lemma CanonUriSplit(uri: string)
    requires Segments(uri) != []
    ensures Split(CanonUri(uri), '/') == [""] + Map(EncodeSegment, Segments(uri)) + [""]
  {
    var encoded := Map(EncodeSegment, Segments(uri));
    SplitJoin(encoded, '/');
    SplitBetweenSlashes(Join(encoded, "/"));
  }

  lemma SplitBetweenSlashes(joined: string)
    ensures Split("/" + joined + "/", '/') == [""] + Split(joined, '/') + [""]
  {
    assert "/" + joined + "/" == "" + ['/'] + (joined + ['/'] + "");
    SplitAt("", joined + ['/'] + "", '/');
    SplitAt(joined, "", '/');
  }

  /** The canonical path is its own list of segments: its non-empty parts are
      the encoded segments of the input, in order. */
  lemma CanonUriSegments(uri: string)
    ensures Segments(CanonUri(uri)) == Map(EncodeSegment, Segments(uri))
  {
    if Segments(uri) == [] {
      SegmentsLeadingSlash("");
      assert "/" + "" == "/";
    } else {
      var encoded := Map(EncodeSegment, Segments(uri));
      CanonUriSplit(uri);
      forall p | p in encoded ensures p != [] {
        var i :| 0 <= i < |encoded| && encoded[i] == p;
      }
      NonEmptyBetween(encoded);
    }
  }

  lemma NonEmptyBetween(parts: seq<string>)
    requires forall p | p in parts :: p != []
    ensures NonEmpty([""] + parts + [""]) == parts
  {
    NonEmptyAppend([""] + parts, [""]);
    NonEmptyAppend([""], parts);
    NonEmptyKeepsNonEmpty(parts);
  }

  /** A space in a segment is encoded to "%20" and that again to "%2520". */
  lemma CanonUriExample()
    ensures CanonUri("/a b/") == "/a%2520b/"
  {
    SegmentsExample();
    EncodeSegmentExample();
    var encoded := Map(EncodeSegment, ["a b"]);
    assert encoded == ["a%2520b"];
    assert Join(encoded, "/") == "a%2520b";
    assert CanonUri("/a b/") == "/" + "a%2520b" + "/";
    SlashesAroundExample();
  }

  /** The literal concatenation the example ends with, kept apart so that the
      example's own proof does not have to evaluate it. */
  lemma SlashesAroundExample()
    ensures "/" + "a%2520b" + "/" == "/a%2520b/"
  {
  }

  lemma SegmentsExample()
    ensures Segments("/a b/") == ["a b"]
  {
    SegmentsAtSlash("", "a b/");
    SegmentsAtSlash("a b", "");
    assert "/a b/" == "" + "/" + ("a b" + "/" + "");
    SplitNoSeparator("a b", '/');
  }

  lemma EncodeSegmentExample()
    ensures EncodeSegment("a b") == "a%2520b"
  {
    QuoteSpaceExample();
    EncodeSegmentEscapesPercents("a b");
    EscapeExample();
  }

  lemma EscapeExample()
    ensures Percent.EscapePercents("a%20b") == "a%2520b"
  {
    assert "a%20b" == "a" + ("%" + "20b");
    assert '%' !in "a" && '%' !in "20b";
    assert Percent.EscapePercents("%") == "%25";
    assert "a" + ("%25" + "20b") == "a%2520b";
    Percent.EscapePercentsAppend("a", "%" + "20b");
    Percent.EscapePercentsAppend("%", "20b");
    Percent.EscapePercentsNoPercent("a");
    Percent.EscapePercentsNoPercent("20b");
  }

  lemma QuoteSpaceExample()
    ensures Percent.Quote("a b", "") == "a%20b"
  {
    assert Utf8.AllAscii("a b");
    var bs := Utf8.Encode("a b");
    assert bs == [97, 32, 98];
    assert bs[1..] == [32, 98] && bs[1..][1..] == [98];
    assert Percent.EncodeByte(97, "") == "a";
    assert Percent.EncodeByte(32, "") == "%20";
    assert Percent.EncodeByte(98, "") == "b";
  }
}
