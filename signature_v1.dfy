/** The signer proper: the canonical request (`generate_signature_v1`), its
    digest, the credential scope, the string to sign, the HMAC key chain, the
    signature, and the `Authorization` value of `generate_signed_auth_header`.
    SHA-256 and HMAC-SHA256 are parameters, so every property here holds
    whichever functions they are. */
module SignatureV1 {
  import opened Options
  import opened Seqs
  import opened Utf8
  import opened Entries
  import opened Dates
  import Text
  import Hex
  import Percent
  import Headers
  import Query
  import Uri

  const AlgoPre: string := "KT1"
  const Algo: string := AlgoPre + "-HMAC-SHA256"
  const AuthType: string := Text.Lower(AlgoPre) + "_request"
  const Region: string := "us"

  /** The wire constants, spelled out. */
  lemma ConstantValues()
    ensures Algo == "KT1-HMAC-SHA256"
    ensures AuthType == "kt1_request"
  {
    assert Text.Lower("KT1") == "kt1" by {
      assert Text.LowerChar('K') == 'k' && Text.LowerChar('T') == 't';
    }
  }

  /** The constants are made of characters that `quote` keeps. */
  lemma ConstantsUnreserved()
    ensures forall i | 0 <= i < |Algo| :: Percent.IsUnreserved(Algo[i])
    ensures forall i | 0 <= i < |Region| :: Percent.IsUnreserved(Region[i])
    ensures forall i | 0 <= i < |AuthType| :: Percent.IsUnreserved(AuthType[i])
  {
    ConstantValues();
  }

  /** A SHA-256 digest. */
  type Digest = d: seq<byte> | |d| == 32 witness seq(32, i => 0)

  /** `hashlib.sha256(data).digest()` and
      `hmac.new(key, msg, hashlib.sha256).digest()`. */
  datatype Primitives = Primitives(
    sha256: seq<byte> -> Digest,
    hmacSha256: (seq<byte>, seq<byte>) -> Digest)

  /** `hexdigest()`: 64 lower-case hex digits from which the digest can be read back. */
  function HexDigest(d: Digest): (h: string)
    ensures |h| == 64
    ensures forall i | 0 <= i < |h| :: Hex.IsLowerHexDigit(h[i])
    ensures Hex.Decode(h) == Some(d)
  {
    Hex.DecodeEncodeLower(d);
    Hex.EncodeLower(d)
  }

  /** The request body: `bytes`, or text that is encoded as UTF-8. */
  datatype Body = BytesBody(bytes: seq<byte>) | TextBody(text: string)

  function BodyBytes(b: Body): seq<byte> {
    match b
    case BytesBody(bs) => bs
    case TextBody(s) => Utf8.Encode(s)
  }

  /** The `req_*` arguments of `generate_signature_v1`. */
  datatype Request = Request(
    httpMethod: string,
    uri: string,
    date: DateTime,
    headers: seq<Entry>,
    body: Body,
    params: seq<Entry>)

  /** What the signer needs of its caller: a real date, and no empty header or
      parameter name (the sort key fails on one). */
  predicate WellFormed(r: Request) {
    r.date.Valid() && NamesNonEmpty(r.headers) && NamesNonEmpty(r.params)
  }

  /** No entry name holds the character `x`. */
  predicate NamesFree(es: seq<Entry>, x: char) {
    forall i | 0 <= i < |es| :: x !in es[i].name
  }

  // ---------------------------------------------------------------------
  // The canonical request

  /** The six fields of the canonical request, in their fixed order: method,
      URI, query, header block, signed headers, body digest. */
  function CanonicalRequestFields(p: Primitives, r: Request): (fields: seq<string>)
    requires WellFormed(r)
    ensures |fields| == 6
    ensures Hex.Decode(fields[5]) == Some(p.sha256(BodyBytes(r.body)))
  {
    [ Text.Upper(r.httpMethod),
      Uri.CanonUri(r.uri),
      Query.CanonQuery(r.params),
      Headers.CanonHeaders(r.headers),
      Headers.SignedHeaders(r.headers),
      HexDigest(p.sha256(BodyBytes(r.body))) ]
  }

  /** `canon_request`: the fields joined by newlines, none after the last. */
  function CanonicalRequest(p: Primitives, r: Request): string
    requires WellFormed(r)
  {
    Join(CanonicalRequestFields(p, r), "\n")
  }

  /** Reads the six fields back from a canonical request: the first three
      lines, the header block (every line up to the last two), and the last
      two lines. None if there are too few lines. */
  function ParseCanonicalRequest(s: string): Option<seq<string>> {
    var lines := Split(s, '\n');
    if |lines| < 6 then None
    else Some(lines[..3] + [Join(lines[3..|lines| - 2], "\n")] + lines[|lines| - 2..])
  }

  /** The canonical request determines its fields: reading it back gives the
      six fields, provided the method and the header names hold no newline.
      Header values may hold newlines; every other field is encoded and
      cannot. */
  lemma ParseCanonicalRequestInverse(p: Primitives, r: Request)
    requires WellFormed(r)
    requires '\n' !in r.httpMethod && NamesFree(r.headers, '\n')
    ensures ParseCanonicalRequest(CanonicalRequest(p, r)) == Some(CanonicalRequestFields(p, r))
  {
    FieldsLayout(p, r);
    ParseJoin(CanonicalRequestFields(p, r));
  }

  /** All fields but the header block are single lines; the block is at
      least two. */
  predicate Layout(f: seq<string>) {
    |f| == 6 && '\n' !in f[0] && '\n' !in f[1] && '\n' !in f[2] && '\n' !in f[4] && '\n' !in f[5]
    && |Split(f[3], '\n')| >= 2
  }

  lemma FieldsLayout(p: Primitives, r: Request)
    requires WellFormed(r)
    requires '\n' !in r.httpMethod && NamesFree(r.headers, '\n')
    ensures Layout(CanonicalRequestFields(p, r))
  {
    RequestLineFree(r);
    HeaderFieldsFree(p, r);
    LayoutOf(Text.Upper(r.httpMethod), Uri.CanonUri(r.uri), Query.CanonQuery(r.params),
      Headers.CanonHeaders(r.headers), Headers.SignedHeaders(r.headers), HexDigest(p.sha256(BodyBytes(r.body))));
  }

  lemma RequestLineFree(r: Request)
    requires WellFormed(r)
    requires '\n' !in r.httpMethod
    ensures '\n' !in Text.Upper(r.httpMethod) && '\n' !in Uri.CanonUri(r.uri) && '\n' !in Query.CanonQuery(r.params)
  {
    UpperFree(r.httpMethod, '\n');
    UriFree(r.uri, '\n');
    QueryFree(r.params, '\n');
  }

  lemma HeaderFieldsFree(p: Primitives, r: Request)
    requires WellFormed(r)
    requires NamesFree(r.headers, '\n')
    ensures '\n' !in Headers.SignedHeaders(r.headers) && '\n' !in HexDigest(p.sha256(BodyBytes(r.body)))
    ensures |Split(Headers.CanonHeaders(r.headers), '\n')| >= 2
  {
    SignedHeadersFree(r.headers, '\n');
    HexFree(HexDigest(p.sha256(BodyBytes(r.body))), '\n');
    BlockHasTwoLines(Headers.CanonHeaders(r.headers));
  }

  lemma LayoutOf(m: string, u: string, q: string, h: string, sh: string, d: string)
    requires '\n' !in m && '\n' !in u && '\n' !in q && '\n' !in sh && '\n' !in d
    requires |Split(h, '\n')| >= 2
    ensures Layout([m, u, q, h, sh, d])
  {
  }

  /** The layout argument on its own: six fields, all but the fourth one line
      each, the fourth at least two lines. */
  lemma ParseJoin(f: seq<string>)
    requires Layout(f)
    ensures ParseCanonicalRequest(Join(f, "\n")) == Some(f)
  {
    var block := Split(f[3], '\n');
    SplitJoinParts(f, '\n');
    SplitAllSix(f, '\n');
    var lines := Split(Join(f, "\n"), '\n');
    assert lines == [f[0], f[1], f[2]] + block + [f[4], f[5]];
    assert lines[..3] == f[..3];
    assert lines[3..|lines| - 2] == block;
    assert lines[|lines| - 2..] == f[4..];
    JoinSplit(f[3], '\n');
    assert f[..3] + [f[3]] + f[4..] == f;
  }

  lemma SplitAllSix(f: seq<string>, c: char)
    requires |f| == 6
    requires c !in f[0] && c !in f[1] && c !in f[2] && c !in f[4] && c !in f[5]
    ensures SplitAll(f, c) == [f[0], f[1], f[2]] + Split(f[3], c) + [f[4], f[5]]
  {
    SplitAllLine(f, 0, c);
    SplitAllLine(f, 1, c);
    SplitAllLine(f, 2, c);
    SplitAllSuffix(f, 3, c);
    SplitAllLine(f, 4, c);
    SplitAllLine(f, 5, c);
    assert SplitAll(f[6..], c) == [];
    assert f[0..] == f;
    Nest(f[0], f[1], f[2], Split(f[3], c), f[4], f[5]);
  }

  lemma SplitAllLine(f: seq<string>, k: nat, c: char)
    requires k < |f| && c !in f[k]
    ensures SplitAll(f[k..], c) == [f[k]] + SplitAll(f[k + 1..], c)
  {
    assert f[k..][1..] == f[k + 1..];
    SplitNoSeparator(f[k], c);
  }

  lemma SplitAllSuffix(f: seq<string>, k: nat, c: char)
    requires k < |f|
    ensures SplitAll(f[k..], c) == Split(f[k], c) + SplitAll(f[k + 1..], c)
  {
    assert f[k..][1..] == f[k + 1..];
  }

  /** The sequence algebra of SplitAllSix. */
  lemma Nest<T>(x0: T, x1: T, x2: T, mid: seq<T>, x4: T, x5: T)
    ensures [x0] + ([x1] + ([x2] + (mid + ([x4] + ([x5] + []))))) == [x0, x1, x2] + mid + [x4, x5]
  {
  }

  /** A text ending in a newline splits into at least two lines. */
  lemma BlockHasTwoLines(block: string)
    requires |block| >= 1 && block[|block| - 1] == '\n'
    ensures |Split(block, '\n')| >= 2
  {
    var front := block[..|block| - 1];
    assert block == front + ['\n'] + "";
    SplitAt(front, "", '\n');
  }

  lemma UpperFree(s: string, x: char)
    requires x !in s && !('A' <= x <= 'Z')
    ensures x !in Text.Upper(s)
  {
    var u := Text.Upper(s);
    forall i | 0 <= i < |u| ensures u[i] != x {
      assert s[i] != x;
    }
  }

  lemma LowerFree(s: string, x: char)
    requires x !in s && !('a' <= x <= 'z')
    ensures x !in Text.Lower(s)
  {
    var l := Text.Lower(s);
    forall i | 0 <= i < |l| ensures l[i] != x {
      assert s[i] != x;
    }
  }

  lemma HexFree(h: string, x: char)
    requires forall i | 0 <= i < |h| :: Hex.IsLowerHexDigit(h[i])
    requires !Hex.IsLowerHexDigit(x)
    ensures x !in h
  {
  }

  lemma QuoteFree(s: string, safe: string, x: char)
    requires !Percent.IsUnreserved(x) && x != '%' && x !in safe
    ensures x !in Percent.Quote(s, safe)
  {
    var q := Percent.Quote(s, safe);
    assert Percent.QuotedAlphabet(q, safe);
    forall i | 0 <= i < |q| ensures q[i] != x {
    }
  }

  lemma StampFree(d: DateTime, withTime: bool, x: char)
    requires d.Valid()
    requires !IsDigit(x) && x != 'T' && x != 'Z'
    ensures x !in StringifyDate(d, withTime)
  {
    var s := StringifyDate(d, withTime);
    forall i | 0 <= i < |s| ensures s[i] != x {
      if i != 8 && i != 15 {
        assert IsDigit(s[i]);
      }
    }
  }

  /** A character that `quote` always escapes and that is not '/' is absent
      from the canonical URI. */
  lemma UriFree(uri: string, x: char)
    requires !Percent.IsUnreserved(x) && x != '%' && x != '/'
    ensures x !in Uri.CanonUri(uri)
  {
    var parts := Map(Uri.EncodeSegment, Uri.Segments(uri));
    forall s | s in parts ensures x !in s {
      var i :| 0 <= i < |parts| && parts[i] == s;
      QuoteFree(Percent.Quote(Uri.Segments(uri)[i], ""), "/", x);
    }
    JoinChars(parts, "/", x);
  }

  /** A character that `quote` always escapes and that is neither '=' nor '&'
      is absent from the canonical query. */
  lemma QueryFree(ps: seq<Entry>, x: char)
    requires NamesNonEmpty(ps)
    requires !Percent.IsUnreserved(x) && x != '%' && x != '/' && x != '=' && x != '&'
    ensures x !in Query.CanonQuery(ps)
  {
    var sorted := Query.SortedParams(ps);
    var pairs := Query.CanonQueryPairs(ps);
    forall s | s in pairs ensures x !in s {
      var i :| 0 <= i < |pairs| && pairs[i] == s;
      QuoteFree(sorted[i].name, "/", x);
      QuoteFree(Query.EscapeEquals(ValueOrEmpty(sorted[i])), "/", x);
    }
    JoinChars(pairs, "&", x);
  }

  /** A character in no header name, other than ';' and the lower-case
      letters, is absent from the signed-header list. */
  lemma SignedHeadersFree(hs: seq<Entry>, x: char)
    requires NamesNonEmpty(hs) && NamesFree(hs, x)
    requires x != ';' && !('a' <= x <= 'z')
    ensures x !in Headers.SignedHeaders(hs)
  {
    var names := Headers.SignedNames(hs);
    forall i | 0 <= i < |names| ensures x !in names[i] {
      var j := Headers.SignedNameFrom(hs, i);
      LowerFree(hs[j].name, x);
    }
    JoinChars(names, ";", x);
  }

  // ---------------------------------------------------------------------
  // The credential scope and the string to sign

  /** The scope's components: date, region, service, request type. */
  function ScopeParts(service: string, date: DateTime): (parts: seq<string>)
    requires date.Valid()
    ensures |parts| == 4 && parts[0] == StringifyDate(date, true)[..8]
  {
    DateStampIsTimestampPrefix(date);
    [StringifyDate(date, false), Region, service, AuthType]
  }

  /** `cred_scope = f'{cred_date}/{REGION}/{service}/{AUTH_TYPE}'`. */
  function CredentialScope(service: string, date: DateTime): string
    requires date.Valid()
  {
    StringifyDate(date, false) + "/" + Region + "/" + service + "/" + AuthType
  }

  /** The scope splits back into its four components, provided the service
      holds no '/'; the first is the day of the request's timestamp. */
  lemma CredentialScopeParts(service: string, date: DateTime)
    requires date.Valid()
    requires '/' !in service
    ensures Split(CredentialScope(service, date), '/') == ScopeParts(service, date)
  {
    var parts := ScopeParts(service, date);
    ConstantValues();
    StampFree(date, false, '/');
    JoinFour(parts[0], Region, service, AuthType, "/");
    SplitJoin(parts, '/');
  }

  lemma JoinFour(a: string, b: string, c: string, d: string, sep: string)
    ensures Join([a, b, c, d], sep) == a + sep + b + sep + c + sep + d
  {
    assert Join([c, d], sep) == c + sep + d by { assert [c, d][1..] == [d]; }
    assert Join([b, c, d], sep) == b + sep + Join([c, d], sep) by { assert [b, c, d][1..] == [c, d]; }
    assert Join([a, b, c, d], sep) == a + sep + Join([b, c, d], sep) by { assert [a, b, c, d][1..] == [b, c, d]; }
  }

  /** `canon_request_hash`: the hex SHA-256 of the canonical request's UTF-8 bytes. */
  function CanonicalRequestHash(p: Primitives, r: Request): (h: string)
    requires WellFormed(r)
    ensures forall i | 0 <= i < |h| :: Hex.IsLowerHexDigit(h[i])
    ensures Hex.Decode(h) == Some(p.sha256(Utf8.Encode(CanonicalRequest(p, r))))
  {
    HexDigest(p.sha256(Utf8.Encode(CanonicalRequest(p, r))))
  }

  /** `msg_to_sign`: algorithm, timestamp, scope and request digest, one per
      line. */
  function StringToSign(timestamp: string, scope: string, requestHash: string): string {
    Join([Algo, timestamp, scope, requestHash], "\n")
  }

  /** The string to sign splits back into its four fields whenever the service
      holds no newline, for any request digest. */
  lemma StringToSignLines(service: string, date: DateTime, requestHash: string)
    requires date.Valid()
    requires '\n' !in service
    requires forall i | 0 <= i < |requestHash| :: Hex.IsLowerHexDigit(requestHash[i])
    ensures Split(StringToSign(StringifyDate(date, true), CredentialScope(service, date), requestHash), '\n') ==
      [Algo, StringifyDate(date, true), CredentialScope(service, date), requestHash]
  {
    AlgoFree('\n');
    StampFree(date, true, '\n');
    ScopeFree(service, date, '\n');
    SplitJoin([Algo, StringifyDate(date, true), CredentialScope(service, date), requestHash], '\n');
  }

  lemma AlgoFree(x: char)
    requires !Percent.IsUnreserved(x)
    ensures x !in Algo
  {
    ConstantsUnreserved();
  }

  /** A character that is not unreserved, not '/' and not in the service is
      absent from the scope. */
  lemma ScopeFree(service: string, date: DateTime, x: char)
    requires date.Valid()
    requires x !in service && !Percent.IsUnreserved(x) && x != '/'
    ensures x !in CredentialScope(service, date)
  {
    ConstantsUnreserved();
    StampFree(date, false, x);
  }

  /** The string to sign of a request. */
  function RequestStringToSign(p: Primitives, service: string, r: Request): string
    requires WellFormed(r)
  {
    StringToSign(StringifyDate(r.date, true), CredentialScope(service, r.date), CanonicalRequestHash(p, r))
  }

  // ---------------------------------------------------------------------
  // The key chain and the signature

  /** The keys of an HMAC chain: the first keyed by `seed`, each next one keyed
      by the key before it. */
  function Chain(p: Primitives, seed: seq<byte>, msgs: seq<seq<byte>>): (keys: seq<Digest>)
    ensures |keys| == |msgs|
    ensures msgs != [] ==> keys[0] == p.hmacSha256(seed, msgs[0])
    ensures forall i | 0 < i < |msgs| :: keys[i] == p.hmacSha256(keys[i - 1], msgs[i])
    decreases |msgs|
  {
    if msgs == [] then []
    else
      var k := p.hmacSha256(seed, msgs[0]);
      [k] + Chain(p, k, msgs[1..])
  }

  /** `key0` to `key3`: the secret, prefixed with the algorithm name, keys an
      HMAC over the day; each next key keys an HMAC over the next scope
      component. */
  function DerivedKeys(p: Primitives, secret: string, service: string, date: DateTime): (keys: seq<Digest>)
    requires date.Valid()
    ensures |keys| == 4
  {
    var key0 := p.hmacSha256(Utf8.Encode(AlgoPre + secret), Utf8.Encode(StringifyDate(date, false)));
    var key1 := p.hmacSha256(key0, Utf8.Encode(Region));
    var key2 := p.hmacSha256(key1, Utf8.Encode(service));
    var key3 := p.hmacSha256(key2, Utf8.Encode(AuthType));
    [key0, key1, key2, key3]
  }

  /** The four keys are the HMAC chain seeded by `"KT1" + secret` over the
      scope's components: date, region, service, request type. */
  lemma DerivedKeysChain(p: Primitives, secret: string, service: string, date: DateTime)
    requires date.Valid()
    ensures DerivedKeys(p, secret, service, date) ==
      Chain(p, Utf8.Encode(AlgoPre + secret), Map(Utf8.Encode, ScopeParts(service, date)))
  {
    ChainOfFour(p, Utf8.Encode(AlgoPre + secret), Map(Utf8.Encode, ScopeParts(service, date)));
  }

  lemma ChainOfFour(p: Primitives, seed: seq<byte>, m: seq<seq<byte>>)
    requires |m| == 4
    ensures var k0 := p.hmacSha256(seed, m[0]);
      var k1 := p.hmacSha256(k0, m[1]);
      var k2 := p.hmacSha256(k1, m[2]);
      Chain(p, seed, m) == [k0, k1, k2, p.hmacSha256(k2, m[3])]
  {
  }

  /** The key chain walks the credential scope: one HMAC per scope component,
      in the scope's order. */
  lemma DerivedKeysFollowScope(p: Primitives, secret: string, service: string, date: DateTime)
    requires date.Valid()
    requires '/' !in service
    ensures DerivedKeys(p, secret, service, date) ==
      Chain(p, Utf8.Encode(AlgoPre + secret), Map(Utf8.Encode, Split(CredentialScope(service, date), '/')))
  {
    DerivedKeysChain(p, secret, service, date);
    CredentialScopeParts(service, date);
  }

  /** The first two keys depend on the secret and the day only, not on the
      service. */
  lemma DerivedKeysService(p: Primitives, secret: string, s1: string, s2: string, date: DateTime)
    requires date.Valid()
    ensures DerivedKeys(p, secret, s1, date)[..2] == DerivedKeys(p, secret, s2, date)[..2]
  {
  }

  /** `generate_signature_v1`: the hex HMAC of the string to sign, keyed by `key3`. */
  function GenerateSignatureV1(p: Primitives, service: string, secret: string, r: Request): (sig: string)
    requires WellFormed(r)
    ensures |sig| == 64
    ensures forall i | 0 <= i < |sig| :: Hex.IsLowerHexDigit(sig[i])
    ensures Hex.Decode(sig) ==
      Some(p.hmacSha256(DerivedKeys(p, secret, service, r.date)[3], Utf8.Encode(RequestStringToSign(p, service, r))))
  {
    var key3 := DerivedKeys(p, secret, service, r.date)[3];
    HexDigest(p.hmacSha256(key3, Utf8.Encode(RequestStringToSign(p, service, r))))
  }

  // ---------------------------------------------------------------------
  // The Authorization header

  /** `f'{ALGO} Credential={client_key}/{cred_scope}, SignedHeaders={...}, Signature={...}'`. */
  function AuthHeaderValue(clientKey: string, scope: string, signed: string, sig: string): string {
    Algo + " Credential=" + clientKey + "/" + scope + ", SignedHeaders=" + signed + ", Signature=" + sig
  }

  /** The value splits at its commas into the credential, the signed headers
      and the signature, provided none of its parts holds a comma. */
  lemma AuthHeaderFields(clientKey: string, scope: string, signed: string, sig: string)
    requires ',' !in clientKey && ',' !in scope && ',' !in signed && ',' !in sig
    ensures Split(AuthHeaderValue(clientKey, scope, signed, sig), ',') ==
      [Algo + " Credential=" + clientKey + "/" + scope, " SignedHeaders=" + signed, " Signature=" + sig]
  {
    var a := Algo + " Credential=" + clientKey + "/" + scope;
    var b := " SignedHeaders=" + signed;
    var c := " Signature=" + sig;
    AlgoFree(',');
    assert ',' !in " Credential=" && ',' !in "/" && ',' !in " SignedHeaders=" && ',' !in " Signature=";
    AuthHeaderLayout(a, signed, sig);
    SplitAt(a, b + [','] + c, ',');
    SplitAt(b, c, ',');
    SplitNoSeparator(a, ',');
    SplitNoSeparator(b, ',');
    SplitNoSeparator(c, ',');
  }

  lemma AuthHeaderLayout(a: string, signed: string, sig: string)
    ensures a + ", SignedHeaders=" + signed + ", Signature=" + sig ==
      a + [','] + ((" SignedHeaders=" + signed) + [','] + (" Signature=" + sig))
  {
    assert ", SignedHeaders=" == [','] + " SignedHeaders=";
    assert ", Signature=" == [','] + " Signature=";
  }

  /** `generate_signed_auth_header`. */
  function GenerateSignedAuthHeader(p: Primitives, service: string, clientKey: string, secret: string, r: Request): string
    requires WellFormed(r)
  {
    AuthHeaderValue(clientKey, CredentialScope(service, r.date), Headers.SignedHeaders(r.headers),
      GenerateSignatureV1(p, service, secret, r))
  }

  /** The header splits at its commas into the credential with the scope, the
      signed-header list, and the signature. */
  lemma AuthHeaderSplit(p: Primitives, service: string, clientKey: string, secret: string, r: Request)
    requires WellFormed(r)
    requires ',' !in clientKey && ',' !in service
    requires NamesFree(r.headers, ',')
    ensures Split(GenerateSignedAuthHeader(p, service, clientKey, secret, r), ',') ==
      [ Algo + " Credential=" + clientKey + "/" + CredentialScope(service, r.date),
        " SignedHeaders=" + Headers.SignedHeaders(r.headers),
        " Signature=" + GenerateSignatureV1(p, service, secret, r) ]
  {
    AuthHeaderSplitOf(service, clientKey, r.date, r.headers, GenerateSignatureV1(p, service, secret, r));
  }

  lemma AuthHeaderSplitOf(service: string, clientKey: string, date: DateTime, hs: seq<Entry>, sig: string)
    requires date.Valid() && NamesNonEmpty(hs)
    requires ',' !in clientKey && ',' !in service
    requires NamesFree(hs, ',')
    requires forall i | 0 <= i < |sig| :: Hex.IsLowerHexDigit(sig[i])
    ensures Split(AuthHeaderValue(clientKey, CredentialScope(service, date), Headers.SignedHeaders(hs), sig), ',') ==
      [ Algo + " Credential=" + clientKey + "/" + CredentialScope(service, date),
        " SignedHeaders=" + Headers.SignedHeaders(hs),
        " Signature=" + sig ]
  {
    ScopeFree(service, date, ',');
    SignedHeadersFree(hs, ',');
    HexFree(sig, ',');
    AuthHeaderFields(clientKey, CredentialScope(service, date), Headers.SignedHeaders(hs), sig);
  }
}
