# SigV4 request signing in ImgService

`ImgService` uploads and downloads images from an S3-compatible object store
(NAVER Cloud Object Storage). Before a request is sent, its private
`authorization` method signs it with AWS Signature Version 4:

1. It stamps the request with an `X-Amz-Date` header (the UTC timestamp) and
   an `X-Amz-Content-Sha256: UNSIGNED-PAYLOAD` header.
2. It builds the canonical query string from the URI's query.
3. It puts every header into a `TreeMap` to get the signed-headers list and
   the canonical header block.
4. It assembles the canonical request, the credential scope
   `date/region/s3/aws4_request` and the string to sign.
5. It derives the signing key through a chain of four HMAC-SHA256 steps.
6. It hex-encodes the final HMAC and appends an `Authorization` header.

This project models that signing path in Dafny and proves what each step
produces.

| module | file | models |
|---|---|---|
| `Options` | `options.dfy` | `Option`, standing for a Java `null` |
| `Text` | `text.dfy` | `String.compareTo` order, ASCII `toLowerCase`, splitting at a character (`SplitOn` and `String.split`'s `JavaSplit`), joining with a separator |
| `Crypto` | `crypto.dfy` | `sign`, `hash` and `Hex.encodeHexString` |
| `Dates` | `dates.dfy` | the two `SimpleDateFormat` patterns |
| `SortedMaps` | `sorted_maps.dfy` | `TreeMap<String, String>`: key set in ascending order, and a `put` on an existing key replaces its value |
| `Canonical` | `canonical.dfy` | the canonical query, the sorted headers, the signed-headers list, the canonical header block and the canonical request |
| `Signer` | `signer.dfy` | scope, string to sign, signing-key chain, signature and the `Authorization` value |
| `Authorizer` | `authorizer.dfy` | the request as a class with a mutable header list, and `authorization` as a method on it |

Design choices:

- **Loops become methods.** The loops of `getStandardizedQueryParameters`,
  `getSortedHeaders`, `getSignedHeaders` and `getStandardizedHeaders` are
  methods. Each is proved equal to a function, and the properties are lemmas
  about those functions.
- **The request is a class.** `authorization` adds headers to the request it
  is given, so the request is a class whose `AddHeader` method appends to its
  header list.
- **Library primitives are parameters.** UTF-8 encoding, SHA-256,
  HMAC-SHA256 and `URLEncoder.encode` are fields of a `Primitives` value. The
  proofs hold for any implementation of them, except that
  `Canonical.CanonicalQuerySplit` (with the two helper lemmas it rests on)
  also requires that the encoder never emits `&`.
- **Hex encoding is modelled exactly.** It is lower-case and has a decoding
  round trip.

Two behaviours of the code that the lemmas make explicit:

- **The `TreeMap` is ordered by the names as written, not by their lower-cased
  form.** With headers `Host` and `accept`, the signed list is `host;accept`,
  which is not in lower-case order (`Authorizer.MixedCaseOrder`).
- **Names that differ only in case both stay.** Two such names are separate
  `TreeMap` keys, so the same lower-cased name is signed twice
  (`Authorizer.CaseVariantsBothSigned`).
- **An empty query field counts unless it is trailing.** `split("&")` drops
  only trailing empty pieces. A leading or inner empty field becomes the
  parameter "" with an empty value: `&a=1` gives the canonical query
  `=&a=…`, and `a=1&&b=2` also carries the parameter "" between its two pairs
  (`Canonical.InnerEmptyFieldPairs`). A trailing one is dropped: `a=1&`
  gives `a=…` (`Canonical.EmptyFieldPosition`).

The requests `putObject` and `getObject` build carry only `Host`, which sorts
before the stamped names (`Authorizer.HostOnlySignedHeaders`).

## Model

| member | source | states |
|---|---|---|
| `Text.LessIrreflexive` | test_spring/src/main/java/test/kim/ImgService.java:94-102 | `Text.Less`, the `String.compareTo` order the `TreeMap`s sort their keys by (:61, :95), is irreflexive |
| `Text.LessTransitive` | test_spring/src/main/java/test/kim/ImgService.java:94-102 | `Text.Less` is transitive |
| `Text.LessTotal` | test_spring/src/main/java/test/kim/ImgService.java:94-102 | `Text.Less` orders any two different strings one way or the other, so with irreflexivity and transitivity it is a strict total order; a proper prefix comes first by definition |
| `Text.Lower` | test_spring/src/main/java/test/kim/ImgService.java:104-123 | `toLowerCase` on a header name keeps its length, turns each of A–Z into the matching a–z, and leaves every other character unchanged |
| `Text.JavaSplit` | test_spring/src/main/java/test/kim/ImgService.java:64-66 | `String.split` at one character: no piece contains the separator, every piece's characters come from the input, and a string without the separator splits into itself; `Text.JavaSplitJoin` gives the inverse |
| `Text.JavaSplitEmpty` | test_spring/src/main/java/test/kim/ImgService.java:66-67 | `String.split` at one character leaves no piece exactly when the string is a non-empty run of that character |
| `Text.JavaSplitJoin` | test_spring/src/main/java/test/kim/ImgService.java:64 | `String.split` undoes a join of separator-free pieces whose last piece is not empty, so the trailing-empty rule loses nothing |
| `Text.SplitJoin` | test_spring/src/main/java/test/kim/ImgService.java:77-91 | joining non-empty separator-free pieces with a separator and splitting the result at it gives the pieces back |
| `Text.JoinSeparatorCount` | test_spring/src/main/java/test/kim/ImgService.java:104-114 | joining n separator-free pieces puts exactly n−1 separators in the result |
| `Text.SortedUnique` | test_spring/src/main/java/test/kim/ImgService.java:94-102 | two strictly sorted key lists with the same members are equal, so a `TreeMap`'s key order is fixed by its key set |
| `Crypto.HexEncode` | test_spring/src/main/java/test/kim/ImgService.java:57 | `Hex.encodeHexString` produces lower-case hex digits, two per byte |
| `Crypto.HexRoundTrip` | test_spring/src/main/java/test/kim/ImgService.java:57 | decoding the hex string gives back the bytes |
| `Crypto.Hash` | test_spring/src/main/java/test/kim/ImgService.java:54-58 | `hash` is lower-case hex, twice as long as the SHA-256 digest of the UTF-8 bytes |
| `Dates.FormatDate` | test_spring/src/main/java/test/kim/ImgService.java:44 | the `yyyyMMdd` datestamp is all digits and at least eight long |
| `Dates.FormatTime` | test_spring/src/main/java/test/kim/ImgService.java:44-45 | the timestamp starts with the datestamp of the same instant, followed by `T`, and ends with `Z` |
| `Dates.TimestampRoundTrip` | test_spring/src/main/java/test/kim/ImgService.java:45 | for four-digit years, the timestamp has 16 characters with digits outside the `T` and `Z`, and reading its fields back gives the instant |
| `Dates.PadValue` | test_spring/src/main/java/test/kim/ImgService.java:44 | a zero-padded numeric field reads back as the number it was formatted from |
| `SortedMaps.SortedMap.Put` | test_spring/src/main/java/test/kim/ImgService.java:69 | `TreeMap.put` keeps the keys strictly sorted and equal to the mapped names, binds the key to the new value, and leaves the key order alone when the key was already present |
| `SortedMaps.Insert` | test_spring/src/main/java/test/kim/ImgService.java:98 | inserting a new key keeps the key list strictly sorted, one longer, with the new key among the old ones |
| `SortedMaps.FromPairs` | test_spring/src/main/java/test/kim/ImgService.java:94-102 | putting pairs in order gives one sorted key per distinct name, and each key maps to its name's last value |
| `SortedMaps.LastValue` | test_spring/src/main/java/test/kim/ImgService.java:98 | the value chosen for a name is paired with it in the list, and no later pair has that name |
| `SortedMaps.FromPairsOrderIndependent` | test_spring/src/main/java/test/kim/ImgService.java:94-102 | with distinct names, any two lists holding the same pairs give the same map |
| `Canonical.ParseField` | test_spring/src/main/java/test/kim/ImgService.java:66-73 | a field is dropped exactly when it is a non-empty run of `=` (no tokens, so the `length > 0` guard skips it); a field without `=` becomes (field, ""); a parsed name and value contain no `=` and only characters of the field |
| `Canonical.ParseFieldNameValue` | test_spring/src/main/java/test/kim/ImgService.java:66-72 | `name=value` followed by nothing or by further `=`-pieces parses to (name, value), the tail being dropped as `fieldTokens[1]` drops it; name and value may both be empty (`==b` gives ("", "")) unless the field is only `=`s |
| `Canonical.QueryFields` | test_spring/src/main/java/test/kim/ImgService.java:63-64 | a null or empty query gives no fields, and no field contains `&`; the fields of a joined query are the joined fields (`Canonical.QueryRoundTrip`) |
| `Canonical.QueryPairs` | test_spring/src/main/java/test/kim/ImgService.java:65-74 | at most one pair per field, and the pairs of `&`-free fields are `&`-free; fields written as `name=value` parse back to their pairs (`Canonical.QueryPairsOfFields`) |
| `Canonical.QueryPairsOfFields` | test_spring/src/main/java/test/kim/ImgService.java:65-74 | for names and values free of `=` and `&` and not both empty, the fields `name=value` parse back to exactly those pairs, in order |
| `Canonical.QueryRoundTrip` | test_spring/src/main/java/test/kim/ImgService.java:63-74 | for such pairs, the query string that joins their fields with `&` parses back to the same pairs, in order |
| `Canonical.SortQueryParameters` | test_spring/src/main/java/test/kim/ImgService.java:61-75 | the loop fills the map that putting the parsed pairs in order gives, and it is empty for a null or empty query |
| `Canonical.JoinQueryParameters` | test_spring/src/main/java/test/kim/ImgService.java:77-91 | the loop builds the `&`-join of the entries `key=` + encoded value, in key order, with nothing after `=` for an empty value |
| `Canonical.GetStandardizedQueryParameters` | test_spring/src/main/java/test/kim/ImgService.java:60-92 | the result is the canonical query of the query string, and it is "" for a null or empty query |
| `Canonical.QueryEntries` | test_spring/src/main/java/test/kim/ImgService.java:83-87 | one entry per key, in key order, each `key=` followed by the encoded value when the value is not empty |
| `Canonical.CanonicalQueryKeys` | test_spring/src/main/java/test/kim/ImgService.java:61-79 | the query keys are strictly sorted and exactly the parsed names, and each maps to the last value given for it |
| `Canonical.CanonicalQuerySplit` | test_spring/src/main/java/test/kim/ImgService.java:77-91 | if the encoder emits no `&`: no keys gives "", and otherwise splitting the canonical query at `&` gives exactly the entries |
| `Canonical.CanonicalQueryOrderIndependent` | test_spring/src/main/java/test/kim/ImgService.java:60-92 | two queries whose parsed pairs are the same set, with distinct names, have the same canonical form; this is about the parsed pairs, not the raw text, which empty fields can change (`Canonical.EmptyFieldPosition`) |
| `Canonical.PlainQueryOrderIndependent` | test_spring/src/main/java/test/kim/ImgService.java:60-92 | two queries written as `&`-joins of the same `name=value` fields, with distinct names, in any order, have the same canonical form |
| `Canonical.LeadingEmptyFieldQuery` | test_spring/src/main/java/test/kim/ImgService.java:63-91 | an empty field before `name=value` becomes the parameter "" with an empty value, which sorts first, so the canonical query is `=&` followed by the entry |
| `Canonical.TrailingEmptyFieldQuery` | test_spring/src/main/java/test/kim/ImgService.java:63-91 | an empty field after `name=value` is dropped by `split`, so the canonical query is the entry alone |
| `Canonical.InnerEmptyFieldPairs` | test_spring/src/main/java/test/kim/ImgService.java:63-73 | an empty field between two `name=value` fields is kept by `split` and parses to the pair ("", ""), so the pairs are the first field's, ("", ""), then the second's |
| `Canonical.EmptyFieldPosition` | test_spring/src/main/java/test/kim/ImgService.java:63-91 | the same field with an empty field before it and with one after it gives two different canonical queries |
| `Canonical.GetSortedHeaders` | test_spring/src/main/java/test/kim/ImgService.java:94-102 | the header map's keys are strictly sorted and exactly the header names, and each maps to the last value given for it |
| `Canonical.GetSignedHeaders` | test_spring/src/main/java/test/kim/ImgService.java:104-114 | the loop builds the lower-cased keys joined by `;`, with the trailing `;` removed |
| `Canonical.SignedHeadersNames` | test_spring/src/main/java/test/kim/ImgService.java:104-114 | splitting the signed-headers list at `;` gives the lower-cased keys in map order, and it holds one `;` fewer than there are keys |
| `Canonical.GetStandardizedHeaders` | test_spring/src/main/java/test/kim/ImgService.java:116-123 | the loop builds one `lowercase-name:value\n` line per key, in key order |
| `Canonical.HeaderLines` | test_spring/src/main/java/test/kim/ImgService.java:116-123 | the header block is empty or ends with a newline |
| `Canonical.CanonicalHeadersOrderIndependent` | test_spring/src/main/java/test/kim/ImgService.java:94-123 | with distinct names, the header block and the signed list do not depend on the order the headers were added in |
| `Canonical.CanonicalHeadersDetermineValues` | test_spring/src/main/java/test/kim/ImgService.java:116-123 | two maps with the same keys and newline-free names and values that give the same header block have the same values |
| `Canonical.CanonicalRequest` | test_spring/src/main/java/test/kim/ImgService.java:125-134 | the canonical request starts with the method and the path, each followed by a newline, and ends with `UNSIGNED-PAYLOAD` |
| `Canonical.CanonicalRequestDeterminesHeaders` | test_spring/src/main/java/test/kim/ImgService.java:125-134 | two canonical requests that differ only in their header block differ as strings |
| `Canonical.HeaderValuesAreSigned` | test_spring/src/main/java/test/kim/ImgService.java:94-134 | for requests with the same header names and newline-free headers, equal canonical requests mean equal header values, so changing a value changes what is signed |
| `Signer.ScopeComponents` | test_spring/src/main/java/test/kim/ImgService.java:136-142 | `Signer.Scope` (getScope): a scope built from a `/`-free date and region splits at `/` into date, region, `s3` and `aws4_request` |
| `Signer.StringToSignLines` | test_spring/src/main/java/test/kim/ImgService.java:144-152 | `Signer.StringToSign` (getStringToSign): for a single-line timestamp and scope, the string to sign has four lines: the algorithm, the timestamp, the scope and the hash of the canonical request |
| `Signer.SigningKeyFollowsScope` | test_spring/src/main/java/test/kim/ImgService.java:154-159 | `Signer.SigningKey` (getSignature's key steps): the signing key is the HMAC chain from `"AWS4" + secret` over the scope's four components, in scope order, each step being `Crypto.Sign`, the HMAC-SHA256 of the UTF-8 bytes under the previous key |
| `Signer.KeyChainOfFour` | test_spring/src/main/java/test/kim/ImgService.java:47-52 | four chained `Crypto.Sign` steps, each an HMAC of the UTF-8 bytes under the key the previous step returned, are the key chain over the four parts |
| `Signer.Signature` | test_spring/src/main/java/test/kim/ImgService.java:161 | the signature is lower-case hex, twice as long as the final HMAC |
| `Signer.SignatureDecodesToMac` | test_spring/src/main/java/test/kim/ImgService.java:154-162 | hex-decoding the signature gives the HMAC (`Crypto.Sign`) of the string to sign under the derived signing key |
| `Signer.AuthorizationFields` | test_spring/src/main/java/test/kim/ImgService.java:225-237 | `Signer.AuthorizationValue` (getAuthorization): for space-free parts, the value splits at spaces into the algorithm, `Credential=key/scope,`, `SignedHeaders=list,` and `Signature=sig` |
| `Authorizer.HttpRequest.constructor` | test_spring/src/main/java/test/kim/ImgService.java:176-177 | a request holds its method, path, query and the headers it was given |
| `Authorizer.HttpRequest.AddHeader` | test_spring/src/main/java/test/kim/ImgService.java:199 | `addHeader` appends one header and keeps any earlier header of the same name |
| `Authorizer.Authorize` | test_spring/src/main/java/test/kim/ImgService.java:192-223 | exactly three headers are appended: X-Amz-Date with the timestamp, X-Amz-Content-Sha256 with UNSIGNED-PAYLOAD, and Authorization, whose value (`Authorizer.AuthorizationFor`) signs the header list as it stood after the first two |
| `Authorizer.StampedNames` | test_spring/src/main/java/test/kim/ImgService.java:199-201 | stamping adds exactly the two names X-Amz-Date and X-Amz-Content-Sha256 to the header names |
| `Authorizer.StampedValues` | test_spring/src/main/java/test/kim/ImgService.java:199-205 | in the sorted headers, X-Amz-Date maps to the timestamp and X-Amz-Content-Sha256 to UNSIGNED-PAYLOAD, even if the request already had headers of those names |
| `Authorizer.StampedSignedNames` | test_spring/src/main/java/test/kim/ImgService.java:199-206 | the lower-cased signed names include x-amz-date and x-amz-content-sha256, and include authorization exactly when the caller's headers already had a name that lower-cases to it |
| `Authorizer.StampedSignedHeaders` | test_spring/src/main/java/test/kim/ImgService.java:199-206 | for `;`-free names, the signed-headers list split at `;` holds the same names, with the same condition for authorization |
| `Authorizer.HostOnlySignedHeaders` | test_spring/src/main/java/test/kim/ImgService.java:177 | a request carrying only Host signs `host;x-amz-content-sha256;x-amz-date` |
| `Authorizer.MixedCaseOrder` | test_spring/src/main/java/test/kim/ImgService.java:94-114 | with headers Host and accept, the keys stay in String.compareTo order and the signed list is `host;accept`, although accept sorts before host |
| `Authorizer.CaseVariantsBothSigned` | test_spring/src/main/java/test/kim/ImgService.java:94-114 | two names that differ only in case stay two keys, so the signed list holds the same lower-cased name twice, separated by `;` |
| `Authorizer.AuthorizationForFields` | test_spring/src/main/java/test/kim/ImgService.java:196-237 | `Authorizer.AuthorizationFor`, the Authorization value added for space-free key, region and header names carries the scope of the instant's date, the request's signed-headers list and its signature |

## Left out

- HTTP dispatch in `putObject` and `getObject` is not modelled. This covers
  building the URL and the client, executing the request, the temporary file,
  reading the response, and the `catch` that swallows a signing failure. All
  of it is I/O.
- `save` and `send` are not modelled. They look up the user in the
  repository, and `save` names the object with `UUID.randomUUID()`. They
  reach file and network I/O only through `putObject` and `getObject`.
- `ApiController` and `InitService` are not part of this model.
- `Mac`, `MessageDigest`, `String.getBytes("UTF-8")` and `URLEncoder.encode`
  are not modelled. They are parameters, and the proofs hold for any
  functions in their place.
- The checked exceptions of those primitives are not modelled. They are
  assumed not to happen.
- `Dates.FormatTime`: `new Date()` and the UTC time-zone setting are not
  modelled. The instant is a parameter that is already in UTC, so
  `SimpleDateFormat`'s calendar arithmetic is outside the model.
- `Dates.FormatTime` and `Authorizer.Authorize`: `DATE_FORMATTER` and
  `TIME_FORMATTER` are static `SimpleDateFormat` objects shared by every call
  (ImgService.java:44-45, 194-197), and `SimpleDateFormat` is not
  synchronized. The model formats one instant per call. It does not capture
  concurrent calls interfering with each other's formatting.
- `Authorizer.HttpRequest.constructor`: `getURI().getPath()` and
  `getURI().getQuery()` are taken as given strings. URI parsing and
  percent-decoding are not modelled.
- `Text.Lower`: this models `toLowerCase` for ASCII letters only. Other
  characters are left unchanged, with no locale rules.
- `Text.Less`: this models `String.compareTo` as lexicographic order on
  Dafny characters. It does not model UTF-16 code units.
- `System.out.println` of the canonical request and the string to sign is
  not modelled. It is output only.
- `Signer.Signature`: this does not give the signature for concrete inputs.
  The HMAC and SHA-256 primitives are parameters.
- `Dates.TimestampRoundTrip`: this is stated for four-digit years only. For a
  longer year, `yyyy` prints more digits and the timestamp is longer than 16
  characters.
