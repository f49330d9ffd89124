# KindTap request signing, version 1, in Dafny

This project models `kindtap_platform_python/signature_v1.py`. That file signs
HTTP requests with the KT1-HMAC-SHA256 scheme, a scheme in the style of AWS
Signature Version 4. The file builds, in order:

- a canonical form of the request. It has six newline-separated fields: the
  upper-cased method, the canonical URI path, the canonical query string, the
  canonical header block, the signed-header list, and the hex SHA-256 of the
  body.
- the credential scope `YYYYMMDD/us/<service>/kt1_request`.
- the string to sign. It has four lines: the algorithm name, the
  `YYYYMMDDTHHMMSSZ` timestamp, the scope, and the hex SHA-256 of the
  canonical request.
- a chain of four HMAC-SHA256 keys. The chain starts from `"KT1" + secret` and
  runs over the scope's four components. The signature is the hex HMAC of the
  string to sign under the last key.
- the `Authorization` value
  `KT1-HMAC-SHA256 Credential=<key>/<scope>, SignedHeaders=<list>, Signature=<sig>`.

SHA-256 and HMAC-SHA256 are fields of a `Primitives` value (function values).
So every property proved here holds whichever hash functions are plugged in.
Only the order in which they are composed, and what they are applied to, is
modelled.

Modules, in pipeline order:

- `Options`, `Seqs`: optional values, and Python's `map`, `str.join`,
  `str.split` and `filter(None, ...)`.
- `Utf8`: the UTF-8 encoding of strings, as `bytes(s, 'utf-8')` computes it.
- `Hex`: `hexdigest()` and the `%XX` digits of percent-encoding.
- `Percent`: `urllib.parse.quote(s, safe)`. Unreserved characters (section 2.3
  of RFC 3986) and the `safe` characters stay as they are. Every other byte
  of the UTF-8 encoding becomes `%XX` (section 2.1 of RFC 3986).
- `Text`: ASCII case mapping, `str.strip()` with Python's whitespace set, and
  the rewrite of runs of two or more spaces into one.
- `Sorting`: `sorted(..., key=...)` as a stable insertion sort by an integer
  key.
- `Dates`: the date record and the two `strftime` formats of `stringify_date`.
- `Entries`: a header or parameter mapping as the sequence of its items.
- `Headers`: `_build_canon_headers` and `_build_signed_headers`.
- `Query`: `EQUALS_ENC` and `_build_canon_query`.
- `Uri`: `_build_canon_uri`.
- `SignatureV1`: the constants, `generate_signature_v1` and
  `generate_signed_auth_header`.

`_build_canon_headers` and `_build_canon_query` append to a list in a loop.
They are methods with a `while` loop, proved equal to the functions
`CanonHeaders` and `CanonQuery`, which the rest of the model and the lemmas
use. Everything else in the file is an expression or a straight-line
composition, so it is modelled as functions.

## Model

| member | source | states |
|---|---|---|
| SignatureV1.ConstantValues | kindtap_platform_python/signature_v1.py:8-11 | `ALGO` is `KT1-HMAC-SHA256` and `AUTH_TYPE` is `kt1_request`, both built from `ALGO_PRE` |
| SignatureV1.ConstantsUnreserved | kindtap_platform_python/signature_v1.py:8-11 | every character of `ALGO`, `REGION` and `AUTH_TYPE` is one that `quote` leaves alone, so no separator occurs in them |
| Query.EqualsEncValue | kindtap_platform_python/signature_v1.py:14 | `EQUALS_ENC = quote('=')` is `%3D` |
| Headers.NormaliseValue | kindtap_platform_python/signature_v1.py:26 | a missing value gives `""`; the result has no whitespace at either end and no two spaces in a row; apart from spaces it has the same characters as the stripped value; it uses only characters of the value |
| Headers.NormaliseIdempotent | kindtap_platform_python/signature_v1.py:26 | normalising a normalised value changes nothing |
| Headers.NormaliseIgnoresSurroundingSpace | kindtap_platform_python/signature_v1.py:26 | whitespace added around a value does not change its normal form |
| Headers.NormaliseInnerRun | kindtap_platform_python/signature_v1.py:26 | `"a   b"` and `"a b"` both normalise to `"a b"` |
| Headers.NormaliseSurrounding | kindtap_platform_python/signature_v1.py:26 | `"  a b  "` normalises to `"a b"` |
| Text.Strip | kindtap_platform_python/signature_v1.py:26 | `strip()` returns a middle part of the string, with only whitespace before and after it and no whitespace at either of its own ends |
| Text.StripUnique | kindtap_platform_python/signature_v1.py:26 | any string whose ends are not whitespace and that is surrounded only by whitespace is what `strip()` returns |
| Text.StripSurrounded | kindtap_platform_python/signature_v1.py:26 | whitespace around a string does not change its strip |
| Text.CollapseSpaces | kindtap_platform_python/signature_v1.py:15 | after replacing runs of two or more spaces with one, no two spaces are adjacent; the non-space characters and the first and last characters are kept |
| Text.CollapseFixesSingleSpaces | kindtap_platform_python/signature_v1.py:15 | text without two adjacent spaces is unchanged by the rewrite |
| Text.CollapseDropsDoubled | kindtap_platform_python/signature_v1.py:15 | two spaces rewrite the same as one space, in any context |
| Text.Lower | kindtap_platform_python/signature_v1.py:22 | `lower()` keeps the length and maps each character on its own |
| Text.Upper | kindtap_platform_python/signature_v1.py:75 | `upper()` keeps the length and maps each character on its own |
| Sorting.SortByKey | kindtap_platform_python/signature_v1.py:23 | `sorted` returns a permutation of its input that is non-decreasing by the key |
| Sorting.SortStable | kindtap_platform_python/signature_v1.py:23 | the sort is stable: the elements that share a key keep their input order |
| Sorting.SortedUnique | kindtap_platform_python/signature_v1.py:23 | two sequences sorted by a key that agree on the elements of every key are equal, so the sorted order is fully determined |
| Sorting.SortIndependentOfOrder | kindtap_platform_python/signature_v1.py:32 | when no two elements share a key, every ordering of the same elements sorts to the same sequence |
| Sorting.SortMapCommute | kindtap_platform_python/signature_v1.py:49-50 | mapping then sorting equals sorting then mapping, when the map keeps the keys |
| Headers.SortedHeaders | kindtap_platform_python/signature_v1.py:22-23 | the header entries with lowered names, permuted into non-decreasing order of their first character |
| Headers.CanonHeaders | kindtap_platform_python/signature_v1.py:28 | the block always ends with a newline, and it is exactly `"\n"` if and only if there are no headers |
| Headers.BuildCanonHeaders | kindtap_platform_python/signature_v1.py:21-28 | the loop that appends one `k:v_post` line per sorted entry, followed by the join, produces `CanonHeaders` |
| Headers.CanonHeaderLinesSorted | kindtap_platform_python/signature_v1.py:22-27 | the block's lines (`HeaderLine` of each sorted entry) are the stable sort, by first character, of the lines `lower(name):value`, one per header |
| Headers.CanonHeadersSplit | kindtap_platform_python/signature_v1.py:28 | when there is at least one header and no name or value holds a newline, splitting the block at newlines gives back its lines and then one empty string |
| Headers.EmptyHeaders | kindtap_platform_python/signature_v1.py:28 | no headers give the block `"\n"` and the signed-header list `""` |
| Headers.SignedNames | kindtap_platform_python/signature_v1.py:49-50 | the signed names are a permutation of the lowered header names, non-decreasing by first character |
| Headers.SignedHeaders | kindtap_platform_python/signature_v1.py:51 | the list is `""` if and only if there are no headers |
| Headers.SignedNamesMatchLines | kindtap_platform_python/signature_v1.py:22-27 | signed name i is the name of header line i: line i is that name, a colon and the normalised value |
| Headers.SignedHeadersSplit | kindtap_platform_python/signature_v1.py:51 | when no name holds `;`, splitting the list at `;` gives back the signed names |
| Headers.HeadersOrderIndependent | kindtap_platform_python/signature_v1.py:23 | headers whose lowered names start with distinct characters give the same block and the same signed-header list, whatever their order |
| Query.EscapeEquals | kindtap_platform_python/signature_v1.py:36 | no `=` is left in the result, and a value without `=` is unchanged |
| Query.EscapeEqualsIsJoinSplit | kindtap_platform_python/signature_v1.py:36 | the rewrite equals `'%3D'.join(v.split('='))`, an independent description of replacing every occurrence |
| Query.EscapedEqualsCollide | kindtap_platform_python/signature_v1.py:36 | a value `=` and a value `%3D` are rewritten to the same text |
| Query.QuotedHasNoSeparators | kindtap_platform_python/signature_v1.py:35-36 | `quote` never emits `=` or `&` |
| Query.QueryPairSplit | kindtap_platform_python/signature_v1.py:37 | a pair (`QueryPair`, the f-string of line 37) splits at `=` into exactly the encoded name and the encoded value, and holds no `&` |
| Query.QueryPairDecode | kindtap_platform_python/signature_v1.py:35-36 | percent-decoding each half of a pair gives the UTF-8 bytes of the name and of the escaped value |
| Query.EqualsInValue | kindtap_platform_python/signature_v1.py:36-37 | a value `=` appears in the pair as `%253D` |
| Query.SortedParams | kindtap_platform_python/signature_v1.py:32 | the parameters, permuted into non-decreasing order of the first character of their names |
| Query.CanonQuery | kindtap_platform_python/signature_v1.py:38 | the query string is empty if and only if there are no parameters |
| Query.BuildCanonQuery | kindtap_platform_python/signature_v1.py:31-38 | the loop that appends one `k_enc=v_enc` pair per sorted parameter, followed by the join, produces `CanonQuery` |
| Query.CanonQuerySplit | kindtap_platform_python/signature_v1.py:38 | when there is at least one parameter, splitting the query string at `&` gives one encoded pair per parameter, in sorted order |
| Query.QueryOrderIndependent | kindtap_platform_python/signature_v1.py:32 | parameters whose names start with distinct characters give the same query string, whatever their order |
| Percent.EncodeByte | kindtap_platform_python/signature_v1.py:35 | a byte is kept as one character, its own, exactly when it is ASCII and unreserved or safe; otherwise it becomes `%` and two upper-case hex digits whose value is the byte |
| Percent.Quote | kindtap_platform_python/signature_v1.py:35-36 | `quote` emits only unreserved characters, `%` and safe characters, and emits nothing exactly for the empty string |
| Percent.QuoteUpperEscapes | kindtap_platform_python/signature_v1.py:35-36 | when `%` is not safe, every `%` that `quote` emits is followed by two hex digits from `0-9A-F` |
| Percent.DecodeQuoteBytes | kindtap_platform_python/signature_v1.py:35-36 | percent-decoding undoes the encoding of any bytes when `%` is not safe |
| Percent.QuoteOfQuoted | kindtap_platform_python/signature_v1.py:45 | quoting text that holds only unreserved characters and `%` just replaces each `%` with `%25` |
| Percent.QuoteUnreserved | kindtap_platform_python/signature_v1.py:35 | text of unreserved characters is its own encoding |
| Uri.Segments | kindtap_platform_python/signature_v1.py:42 | the non-empty `/`-separated parts; none is empty and none holds `/` |
| Uri.EncodeSegment | kindtap_platform_python/signature_v1.py:45 | the double encoding of a segment holds no `/`, and it is empty exactly when the segment is empty |
| Uri.EncodeSegmentEscapesPercents | kindtap_platform_python/signature_v1.py:45 | the outer `quote` only turns each `%` of the inner one into `%25` |
| Uri.EncodeSegmentDecode | kindtap_platform_python/signature_v1.py:45 | decoding once gives the inner encoding, and decoding that gives the segment's UTF-8 bytes |
| Uri.CanonUri | kindtap_platform_python/signature_v1.py:41-45 | the path starts and ends with `/`, and it is `/` exactly when there are no non-empty segments |
| Uri.SegmentsAtSlash | kindtap_platform_python/signature_v1.py:42 | a slash separates segments and adds none |
| Uri.CanonUriCollapsesSlashes | kindtap_platform_python/signature_v1.py:42-45 | a doubled slash, a leading slash and a trailing slash do not change the canonical path |
| Uri.CanonUriSplit | kindtap_platform_python/signature_v1.py:45 | when there is a non-empty segment, splitting the path at `/` gives an empty string, the encoded segments in order, and an empty string |
| Uri.CanonUriSegments | kindtap_platform_python/signature_v1.py:42-45 | the non-empty `/`-separated parts of the canonical path are exactly the encoded segments of the input, in order |
| Uri.CanonUriExample | kindtap_platform_python/signature_v1.py:45 | `/a b/` becomes `/a%2520b/` |
| Utf8.EncodeChar | kindtap_platform_python/signature_v1.py:72 | a character takes one to four bytes: ASCII takes its own code as one byte, anything else only bytes of 128 and up |
| Utf8.DecodeEncodeChar | kindtap_platform_python/signature_v1.py:72 | the scalar value can be read back from a character's bytes |
| Utf8.EncodeAppend | kindtap_platform_python/signature_v1.py:72 | encoding distributes over concatenation |
| Hex.EncodeLower | kindtap_platform_python/signature_v1.py:80 | `hexdigest()` gives two lower-case hex digits per byte |
| Hex.DecodeEncodeLower | kindtap_platform_python/signature_v1.py:80 | hex decoding gives the bytes back |
| Dates.StringifyDate | kindtap_platform_python/signature_v1.py:141-144 | 8 characters, or 16 with the time; all digits except the `T` at index 8 and the `Z` at index 15 |
| Dates.ParsePad | kindtap_platform_python/signature_v1.py:143-144 | zero-padded digits read back as the number |
| Dates.DateStampIsTimestampPrefix | kindtap_platform_python/signature_v1.py:86-91 | the scope's date is the first eight characters of the timestamp |
| Dates.ParseStringifyDate | kindtap_platform_python/signature_v1.py:143 | the timestamp reads back as the same date and time |
| SignatureV1.HexDigest | kindtap_platform_python/signature_v1.py:80 | 64 lower-case hex digits that decode to the digest |
| SignatureV1.CanonicalRequestFields | kindtap_platform_python/signature_v1.py:69-81 | six fields; the last one decodes to the SHA-256 of the body's bytes (`BodyBytes`: a `bytes` body as it is, a text body UTF-8 encoded) |
| SignatureV1.ParseCanonicalRequestInverse | kindtap_platform_python/signature_v1.py:74-81 | when the method and the header names hold no newline, the canonical request (`CanonicalRequest`, the join of lines 74-81) reads back into its six fields |
| SignatureV1.ParseJoin | kindtap_platform_python/signature_v1.py:74-81 | six fields with one line each, except a fourth of at least two lines, joined by newlines read back into the same six fields |
| SignatureV1.CanonicalRequestHash | kindtap_platform_python/signature_v1.py:83 | lower-case hex that decodes to the SHA-256 of the canonical request's UTF-8 bytes |
| SignatureV1.ScopeParts | kindtap_platform_python/signature_v1.py:86-87 | four scope components, of which the first is the first eight characters of the timestamp |
| SignatureV1.CredentialScopeParts | kindtap_platform_python/signature_v1.py:87 | when the service holds no `/`, the scope (`CredentialScope`) splits at `/` into date, region, service and request type |
| SignatureV1.StringToSignLines | kindtap_platform_python/signature_v1.py:89-94 | when the service holds no newline, the string to sign (`StringToSign`, used by `RequestStringToSign`) splits into exactly algorithm, timestamp, scope and request digest |
| SignatureV1.Chain | kindtap_platform_python/signature_v1.py:97-100 | the first key is the HMAC of the first message under the seed, and each later key is the HMAC of its message under the key before it |
| SignatureV1.DerivedKeysChain | kindtap_platform_python/signature_v1.py:97-100 | `key0` to `key3` (`DerivedKeys`) are the chain seeded by `"KT1" + secret` over date, region, service and request type |
| SignatureV1.DerivedKeysFollowScope | kindtap_platform_python/signature_v1.py:87-100 | the chain's messages are the `/`-separated components of the credential scope, in order |
| SignatureV1.DerivedKeysService | kindtap_platform_python/signature_v1.py:97-98 | `key0` and `key1` do not depend on the service |
| SignatureV1.GenerateSignatureV1 | kindtap_platform_python/signature_v1.py:54-105 | 64 lower-case hex digits that decode to the HMAC of the string to sign under `key3` |
| SignatureV1.AuthHeaderFields | kindtap_platform_python/signature_v1.py:135 | the `Authorization` format (`AuthHeaderValue`) splits at commas into its credential, signed-headers and signature parts when no part holds a comma |
| SignatureV1.AuthHeaderSplit | kindtap_platform_python/signature_v1.py:108-138 | when the client key, the service and the header names hold no comma, the header (`GenerateSignedAuthHeader`) splits at commas into three parts that carry the scope and the signed-header list the signature was computed over, and the signature itself |

## Left out

- Logging (lines 18, 82, 84, 95, 103 and 136) is left out. It only writes to a logger and does not affect any result.
- SHA-256 and HMAC-SHA256 are not computed. They are parameters (`Primitives`), so the model says which bytes are hashed under which key, but not what the digests are.
- Python's regular-expression engine is not modelled. The two rewrites it performs, `=` to `%3D` and runs of spaces to one space, are written out as string functions.
- `lower()` and `upper()` are modelled on ASCII letters only. Python also maps letters outside ASCII, and a few of them change length (for example `'ß'.upper()` is `'SS'`).
- Python's datetime object is not modelled: a date is a record of its integer fields. `strftime('%Y')` is modelled as four zero-padded digits. Some platforms print years below 1000 without padding.
- An empty header or parameter name is a precondition (`NamesNonEmpty`). Python fails there, because the sort key reads the name's first character.
- A header or parameter value is a string or missing. In the source, `v or ''` also turns every other falsy value (`0`, `False`, `b''`) into `''`, so those canonicalise exactly like `None`, and the model's `None` stands for them too. A non-empty value of another type fails in `strip()` or `re.sub`, and the model has no such values.
- A header mapping or parameter mapping is a sequence of entries in the mapping's iteration order. Duplicate names are not excluded, but a Python dict has none.
- SignatureV1.ParseCanonicalRequestInverse: holds only when neither the method nor a header name holds a newline. Such a newline moves the field boundaries, and the fields cannot be read back.
- Headers.CanonHeadersSplit: holds only when no header name or value holds a newline. A newline in a value splits that header's line in two, so the block no longer shows one line per header.
- Query.EscapedEqualsCollide: a `=` and a literal `%3D` in a parameter value canonicalise identically, as the design of the pre-escaping implies. The model records this as a lemma, not as a defect.
