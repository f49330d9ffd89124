/** The canonical query string (`_build_canon_query`): one `name=value` pair
    per parameter, both halves percent-encoded, the value after its '='
    characters are replaced by `EQUALS_ENC`, ordered by a stable sort on the
    first character of the raw name and joined by '&'. */
module Query {
  import opened Options
  import opened Seqs
  import opened Sorting
  import opened Entries
  import Utf8
  import Percent

  /** `EQUALS_ENC = quote('=')`. */
  const EqualsEnc: string := Percent.Quote("=", "/")

  /** `quote` escapes '=' itself, so the constant is "%3D". */
  lemma EqualsEncValue()
    ensures EqualsEnc == "%3D"
  {
    assert Utf8.AllAscii("=");
    assert Utf8.Encode("=") == [61];
    assert Percent.QuoteBytes([61], "/") == Percent.EncodeByte(61, "/") + Percent.QuoteBytes([], "/");
    assert Percent.EncodeByte(61, "/") == "%3D";
  }

  /** Nothing `quote` emits with the default `safe` is a pair or field separator. */
  lemma QuotedHasNoSeparators(s: string)
    ensures '=' !in Percent.Quote(s, "/") && '&' !in Percent.Quote(s, "/")
  {
  }

  /** `re.sub(EQUALS_EXPR, EQUALS_ENC, v)`: every '=' becomes EQUALS_ENC. */
  function EscapeEquals(v: string): (r: string)
    ensures '=' !in r
    ensures '=' !in v ==> r == v
  {
    QuotedHasNoSeparators("=");
    if v == [] then []
    else
      assert v == [v[0]] + v[1..];
      (if v[0] == '=' then EqualsEnc else [v[0]]) + EscapeEquals(v[1..])
  }

  /** The rewrite agrees with `EQUALS_ENC.join(v.split('='))`, an independent
      description of replacing every occurrence. */
  lemma {:induction false} EscapeEqualsIsJoinSplit(v: string)
    ensures EscapeEquals(v) == Join(Split(v, '='), EqualsEnc)
  {
    if v != [] {
      EscapeEqualsIsJoinSplit(v[1..]);
      var rest := Split(v[1..], '=');
      if v[0] == '=' {
        assert Join(Split(v, '='), EqualsEnc) == "" + EqualsEnc + Join(rest, EqualsEnc) by {
          assert ([""] + rest)[1..] == rest;
        }
      } else {
        JoinConsHead(v[0], rest, EqualsEnc);
      }
    }
  }

  /** A '=' and an already encoded "%3D" in a value give the same text: the
      signature cannot tell the two values apart. */
  lemma EscapedEqualsCollide()
    ensures EscapeEquals("=") == EscapeEquals("%3D") == "%3D"
  {
    EqualsEncValue();
    assert "=" == ['='] + [];
    assert '=' !in "%3D";
  }

  /** `f'{quote(k)}={quote(re.sub(EQUALS_EXPR, EQUALS_ENC, v or ''))}'`. */
  function QueryPair(e: Entry): string {
    Percent.Quote(e.name, "/") + "=" + Percent.Quote(EscapeEquals(ValueOrEmpty(e)), "/")
  }

  /** Every pair has exactly one '=', between the encoded name and the
      encoded value, and no '&'. */
  lemma QueryPairSplit(e: Entry)
    ensures Split(QueryPair(e), '=') ==
      [Percent.Quote(e.name, "/"), Percent.Quote(EscapeEquals(ValueOrEmpty(e)), "/")]
    ensures '&' !in QueryPair(e)
  {
    var k := Percent.Quote(e.name, "/");
    var v := Percent.Quote(EscapeEquals(ValueOrEmpty(e)), "/");
    QuotedHasNoSeparators(e.name);
    QuotedHasNoSeparators(EscapeEquals(ValueOrEmpty(e)));
    SplitAt(k, v, '=');
    SplitNoSeparator(k, '=');
    SplitNoSeparator(v, '=');
    assert QueryPair(e) == k + ['='] + v;
  }

  /** Percent-decoding the two halves of a pair gives back the UTF-8 bytes of
      the name and of the '='-escaped value. */
  lemma QueryPairDecode(e: Entry)
    ensures Percent.Decode(Percent.Quote(e.name, "/")) == Some(Utf8.Encode(e.name))
    ensures Percent.Decode(Percent.Quote(EscapeEquals(ValueOrEmpty(e)), "/")) ==
      Some(Utf8.Encode(EscapeEquals(ValueOrEmpty(e))))
  {
    Percent.DecodeQuoteBytes(Utf8.Encode(e.name), "/");
    Percent.DecodeQuoteBytes(Utf8.Encode(EscapeEquals(ValueOrEmpty(e))), "/");
  }

  /** An '=' in a value reaches the query string as "%253D". */
  lemma EqualsInValue(k: string)
    ensures QueryPair(Entry(k, Some("="))) == Percent.Quote(k, "/") + "=%253D"
  {
    EscapedEqualsCollide();
    QuoteEscapedEquals();
    PairOfEscapedEquals(Percent.Quote(k, "/"));
  }

  /** The literal concatenation of the pair, kept apart so that the lemma above
      does not have to evaluate it. */
  lemma PairOfEscapedEquals(name: string)
    ensures name + "=" + "%253D" == name + "=%253D"
  {
  }

  lemma QuoteEscapedEquals()
    ensures Percent.Quote("%3D", "/") == "%253D"
  {
    assert Percent.OnlyPercentReserved("%3D");
    assert "%3D" == "%" + "3D" && '%' !in "3D";
    assert Percent.EscapePercents("%") == "%25";
    assert "%25" + "3D" == "%253D";
    Percent.QuoteOfQuoted("%3D", "/");
    Percent.EscapePercentsAppend("%", "3D");
    Percent.EscapePercentsNoPercent("3D");
  }

  /** The parameters in the order `sorted(..., key=lambda i: ord(i[0][0]))` puts them. */
  function SortedParams(ps: seq<Entry>): (r: seq<Entry>)
    ensures multiset(r) == multiset(ps)
    ensures SortedBy(r, EntryKey)
  {
    SortByKey(ps, EntryKey)
  }

  /** The encoded pairs, in order. */
  function CanonQueryPairs(ps: seq<Entry>): seq<string> {
    Map(QueryPair, SortedParams(ps))
  }

  /** `'&'.join(params_enc)`. */
  function CanonQuery(ps: seq<Entry>): (r: string)
    requires NamesNonEmpty(ps)
    ensures ps == [] <==> r == ""
  {
    var pairs := CanonQueryPairs(ps);
    assert ps != [] ==> |pairs[0]| >= 1;
    Join(pairs, "&")
  }

  /** `_build_canon_query`: the loop over the sorted parameters that builds
      `params_enc`, then the join. */
  method BuildCanonQuery(ps: seq<Entry>) returns (query: string)
    requires NamesNonEmpty(ps)
    ensures query == CanonQuery(ps)
  {
    var sorted := SortedParams(ps);
    var enc: seq<string> := [];
    var i := 0;
    while i < |sorted|
      invariant 0 <= i <= |sorted|
      invariant enc == Map(QueryPair, sorted[..i])
    {
      var kEnc := Percent.Quote(sorted[i].name, "/");
      var vEnc := Percent.Quote(EscapeEquals(sorted[i].value.GetOr("")), "/");
      enc := enc + [kEnc + "=" + vEnc];
      MapPrefixStep(QueryPair, sorted, i);
      i := i + 1;
    }
    assert sorted[..i] == sorted;
    query := Join(enc, "&");
  }

  /** Splitting the query string at '&' gives one pair per parameter. */
  lemma CanonQuerySplit(ps: seq<Entry>)
    requires NamesNonEmpty(ps)
    requires ps != []
    ensures Split(CanonQuery(ps), '&') == CanonQueryPairs(ps)
    ensures |CanonQueryPairs(ps)| == |ps|
  {
    var pairs := CanonQueryPairs(ps);
    forall p | p in pairs ensures '&' !in p {
      var i :| 0 <= i < |pairs| && pairs[i] == p;
      QueryPairSplit(SortedParams(ps)[i]);
    }
    SplitJoin(pairs, '&');
  }

  /** Parameters whose names all start with different characters give the
      same query string in any order. */
  lemma QueryOrderIndependent(ps: seq<Entry>, qs: seq<Entry>)
    requires NamesNonEmpty(ps) && NamesNonEmpty(qs)
    requires multiset(ps) == multiset(qs)
    requires DistinctKeys(ps, EntryKey)
    ensures CanonQuery(ps) == CanonQuery(qs)
  {
    SortIndependentOfOrder(ps, qs, EntryKey);
  }
}
