/**
 * authorization(): stamps a request with X-Amz-Date and X-Amz-Content-Sha256,
 * canonicalizes and signs it, and appends the Authorization header.
 */
module Authorizer {
  import opened Options
  import opened Text
  import opened Crypto
  import opened Dates
  import opened SortedMaps
  import opened Canonical
  import opened Signer

  /** The parts of an HttpUriRequest the signer reads, with its mutable header list in insertion order. */
  class HttpRequest {
    const verb: string
    const path: string
    const query: Option<string>
    var headers: seq<(string, string)>

    constructor (verb: string, path: string, query: Option<string>, headers: seq<(string, string)>)
      ensures this.verb == verb && this.path == path && this.query == query && this.headers == headers
    {
      this.verb := verb;
      this.path := path;
      this.query := query;
      this.headers := headers;
    }

    /** addHeader: appends a header; an earlier header of the same name stays in place. */
    method AddHeader(name: string, value: string)
      modifies this
      ensures headers == old(headers) + [(name, value)]
    {
      headers := headers + [(name, value)];
    }
  }

  const DateHeader := "X-Amz-Date"
  const ContentHeader := "X-Amz-Content-Sha256"
  const AuthorizationHeader := "Authorization"

  /** The two headers added before signing, in the order they are added. */
  function AmzHeaders(timestamp: string): seq<(string, string)>
  {
    [(DateHeader, timestamp), (ContentHeader, UnsignedPayload)]
  }

  /** The Authorization value for a request whose header list, at signing time, is `headers`. */
  function AuthorizationFor(p: Primitives, verb: string, path: string, query: Option<string>,
                            headers: seq<(string, string)>, region: string,
                            accessKey: string, secretKey: string, now: DateTime): string
    requires now.Valid()
  {
    var datestamp := FormatDate(now);
    var timestamp := FormatTime(now);
    var canonicalRequest := CanonicalRequestOf(verb, path, query, headers, p.urlEncode);
    var scope := Scope(datestamp, region);
    var stringToSign := StringToSign(p, timestamp, scope, canonicalRequest);
    var signature := Signature(p, secretKey, datestamp, region, stringToSign);
    AuthorizationValue(accessKey, scope, SignedHeaders(FromPairs(headers)), signature)
  }

  /**
   * authorization(request, regionName, accessKey, secretKey) at the instant `now`:
   * exactly three headers are appended, X-Amz-Date, X-Amz-Content-Sha256 and
   * Authorization, and the last one signs every header before it.
   */
  method Authorize(request: HttpRequest, region: string, accessKey: string, secretKey: string,
                   now: DateTime, p: Primitives)
    requires now.Valid()
    modifies request
    ensures var stamped := old(request.headers) + AmzHeaders(FormatTime(now));
            request.headers == stamped + [(AuthorizationHeader,
              AuthorizationFor(p, request.verb, request.path, request.query, stamped,
                               region, accessKey, secretKey, now))]
  {
    var datestamp := FormatDate(now);
    var timestamp := FormatTime(now);
    request.AddHeader(DateHeader, timestamp);
    request.AddHeader(ContentHeader, UnsignedPayload);
    ghost var stamped := request.headers;
    assert stamped == old(request.headers) + AmzHeaders(timestamp);
    var standardizedQuery := GetStandardizedQueryParameters(request.query, p.urlEncode);
    var sorted := GetSortedHeaders(request.headers);
    var signed := GetSignedHeaders(sorted);
    var standardizedHeaders := GetStandardizedHeaders(sorted);
    var canonicalRequest := CanonicalRequest(request.verb, request.path, standardizedQuery, standardizedHeaders, signed);
    assert canonicalRequest == CanonicalRequestOf(request.verb, request.path, request.query, stamped, p.urlEncode);
    var scope := Scope(datestamp, region);
    var stringToSign := StringToSign(p, timestamp, scope, canonicalRequest);
    var signature := Signature(p, secretKey, datestamp, region, stringToSign);
    var authorization := AuthorizationValue(accessKey, scope, signed, signature);
    assert authorization == AuthorizationFor(p, request.verb, request.path, request.query, stamped,
                                             region, accessKey, secretKey, now);
    request.AddHeader(AuthorizationHeader, authorization);
  }

  /** Lower-casing distributes over concatenation. */
  lemma LowerAppend(a: string, b: string)
    ensures Lower(a + b) == Lower(a) + Lower(b)
  {
    assert forall i :: 0 <= i < |a + b| ==> Lower(a + b)[i] == (Lower(a) + Lower(b))[i];
  }

  /** The literal pieces the stamped names are spelled from, and their lower-cased forms. */
  lemma LowerAmzPrefix()
    ensures Lower("X-Amz-") == "x-amz-" && Lower("Date") == "date"
  {
  }

  lemma LowerContentPiece()
    ensures Lower("Content-") == "content-"
  {
  }

  lemma LowerShaPiece()
    ensures Lower("Sha256") == "sha256"
  {
  }

  lemma LowerSpelled()
    ensures "x-amz-" + "date" == "x-amz-date"
    ensures "x-amz-" + ("content-" + "sha256") == "x-amz-content-sha256"
  {
  }

  lemma StampNamesSpelled()
    ensures DateHeader == "X-Amz-" + "Date"
    ensures ContentHeader == "X-Amz-" + ("Content-" + "Sha256")
    ensures ';' !in DateHeader && ';' !in ContentHeader
  {
  }

  lemma LowerDateHeader()
    ensures Lower(DateHeader) == "x-amz-date"
  {
    StampNamesSpelled();
    LowerAmzPrefix();
    LowerSpelled();
    LowerAppend("X-Amz-", "Date");
  }

  lemma LowerContentHeader()
    ensures Lower(ContentHeader) == "x-amz-content-sha256"
  {
    StampNamesSpelled();
    LowerAmzPrefix();
    LowerContentPiece();
    LowerShaPiece();
    LowerSpelled();
    LowerAppend("X-Amz-", "Content-" + "Sha256");
    LowerAppend("Content-", "Sha256");
  }

  lemma NameOfPair(ps: seq<(string, string)>, i: nat)
    requires i < |ps|
    ensures ps[i].0 in Names(ps)
  {
  }

  /** Stamping adds the two header names to the request's names. */
  lemma StampedNames(headers: seq<(string, string)>, timestamp: string)
    ensures Names(headers + AmzHeaders(timestamp)) == Names(headers) + {DateHeader, ContentHeader}
  {
    var ps := headers + AmzHeaders(timestamp);
    var n := |headers|;
    assert ps[n].0 == DateHeader && ps[n + 1].0 == ContentHeader;
    NameOfPair(ps, n);
    NameOfPair(ps, n + 1);
    forall i | 0 <= i < n ensures headers[i].0 in Names(ps) {
      assert ps[i] == headers[i];
      NameOfPair(ps, i);
    }
    forall k | k in Names(ps) ensures k in Names(headers) + {DateHeader, ContentHeader} {
      var i :| 0 <= i < |ps| && ps[i].0 == k;
      if i < n {
        assert ps[i] == headers[i];
        NameOfPair(headers, i);
      }
    }
  }

  /**
   * The canonical values of the two stamped headers are the ones just added:
   * they come last, so they override any earlier header of the same name.
   */
  lemma StampedValues(headers: seq<(string, string)>, timestamp: string)
    ensures var m := FromPairs(headers + AmzHeaders(timestamp));
            DateHeader in m.values && m.values[DateHeader] == timestamp
            && ContentHeader in m.values && m.values[ContentHeader] == UnsignedPayload
  {
    var ps := headers + AmzHeaders(timestamp);
    var n := |headers|;
    assert ps[n] == (DateHeader, timestamp) && ps[n + 1] == (ContentHeader, UnsignedPayload);
    NameOfPair(ps, n);
    NameOfPair(ps, n + 1);
    var v := LastValue(ps, DateHeader);
    var i :| 0 <= i < |ps| && ps[i] == (DateHeader, v) && forall j :: i < j < |ps| ==> ps[j].0 != DateHeader;
    assert i == n;
    var w := LastValue(ps, ContentHeader);
    var k :| 0 <= k < |ps| && ps[k] == (ContentHeader, w) && forall j :: k < j < |ps| ==> ps[j].0 != ContentHeader;
    assert k == n + 1;
  }

  /**
   * After stamping, the lower-cased signed names include x-amz-date and
   * x-amz-content-sha256, and include authorization only when the request
   * already carried a header whose name lower-cases to it.
   */
  lemma StampedSignedNames(headers: seq<(string, string)>, timestamp: string)
    ensures var names := LowerAll(FromPairs(headers + AmzHeaders(timestamp)).keys);
            "x-amz-date" in names && "x-amz-content-sha256" in names
            && ("authorization" in names <==>
                exists i :: 0 <= i < |headers| && Lower(headers[i].0) == "authorization")
  {
    StampedMapNamesOf(FromPairs(headers + AmzHeaders(timestamp)), headers, timestamp);
  }

  lemma StampedMapNamesOf(m: SortedMap, headers: seq<(string, string)>, timestamp: string)
    requires m.Valid() && m.values.Keys == Names(headers + AmzHeaders(timestamp))
    ensures var names := LowerAll(m.keys);
            "x-amz-date" in names && "x-amz-content-sha256" in names
            && ("authorization" in names <==>
                exists i :: 0 <= i < |headers| && Lower(headers[i].0) == "authorization")
  {
    StampedNames(headers, timestamp);
    LowerDateHeader();
    LowerContentHeader();
    StampedMapNames(m, headers, DateHeader, ContentHeader, "x-amz-date", "x-amz-content-sha256", "authorization");
  }

  lemma StampedMapNames(m: SortedMap, headers: seq<(string, string)>, date: string, content: string,
                         lowerDate: string, lowerContent: string, auth: string)
    requires m.Valid() && m.values.Keys == Names(headers) + {date, content}
    requires Lower(date) == lowerDate && Lower(content) == lowerContent
    requires |lowerDate| != |auth| && |lowerContent| != |auth|
    ensures var names := LowerAll(m.keys);
            lowerDate in names && lowerContent in names
            && (auth in names <==> exists i :: 0 <= i < |headers| && Lower(headers[i].0) == auth)
  {
    var names := LowerAll(m.keys);
    LowerKeyListed(m, date, lowerDate);
    LowerKeyListed(m, content, lowerContent);
    if auth in names {
      ListedNameIsHeader(m, headers, date, content, lowerDate, lowerContent, auth);
    }
    if exists i :: 0 <= i < |headers| && Lower(headers[i].0) == auth {
      var i :| 0 <= i < |headers| && Lower(headers[i].0) == auth;
      NameOfPair(headers, i);
      LowerKeyListed(m, headers[i].0, auth);
    }
  }

  lemma ListedNameIsHeader(m: SortedMap, headers: seq<(string, string)>, date: string, content: string,
                           lowerDate: string, lowerContent: string, auth: string)
    requires m.Valid() && m.values.Keys == Names(headers) + {date, content}
    requires Lower(date) == lowerDate && Lower(content) == lowerContent
    requires |lowerDate| != |auth| && |lowerContent| != |auth|
    requires auth in LowerAll(m.keys)
    ensures exists i :: 0 <= i < |headers| && Lower(headers[i].0) == auth
  {
    var names := LowerAll(m.keys);
    var j :| 0 <= j < |names| && names[j] == auth;
    var k := m.keys[j];
    assert Lower(k) == auth && k in m.values;
    assert k != date && k != content;
    var i := HeaderIndexOf(m.values, headers, date, content, k);
  }

  lemma HeaderIndexOf(values: map<string, string>, headers: seq<(string, string)>, date: string, content: string,
                      k: string) returns (i: nat)
    requires values.Keys == Names(headers) + {date, content}
    requires k in values && k != date && k != content
    ensures i < |headers| && headers[i].0 == k
  {
    assert k in Names(headers);
    i :| 0 <= i < |headers| && headers[i].0 == k;
  }

  /** A key of the map whose lower-cased form is `name` puts `name` into the lower-cased key list. */
  lemma LowerKeyListed(m: SortedMap, key: string, name: string)
    requires m.Valid() && key in m.values && Lower(key) == name
    ensures name in LowerAll(m.keys)
  {
    var j :| 0 <= j < |m.keys| && m.keys[j] == key;
    assert LowerAll(m.keys)[j] == name;
  }

  /**
   * The signed-headers field the server reads back, split at `;`, is the
   * lower-cased key list; so it names x-amz-date and x-amz-content-sha256.
   */
  lemma StampedSignedHeaders(headers: seq<(string, string)>, timestamp: string)
    requires forall i :: 0 <= i < |headers| ==> ';' !in headers[i].0
    ensures var fields := SplitOn(SignedHeaders(FromPairs(headers + AmzHeaders(timestamp))), ';');
            "x-amz-date" in fields && "x-amz-content-sha256" in fields
            && ("authorization" in fields <==>
                exists i :: 0 <= i < |headers| && Lower(headers[i].0) == "authorization")
  {
    var m := FromPairs(headers + AmzHeaders(timestamp));
    assert SplitOn(SignedHeaders(m), ';') == LowerAll(m.keys) by {
      assert m.Valid() && m.values.Keys == Names(headers) + {DateHeader, ContentHeader} by {
        StampedNames(headers, timestamp);
      }
      StampedKeysSemicolonFree(m, headers);
      SignedHeadersNames(m);
    }
    StampedSignedNames(headers, timestamp);
  }

  /** The keys of a sorted map are the strictly sorted listing of its names. */
  lemma KeysAre(m: SortedMap, expected: seq<string>)
    requires m.Valid() && StrictlySorted(expected)
    requires forall x :: x in m.values <==> x in expected
    ensures m.keys == expected
  {
    SortedUnique(m.keys, expected);
  }

  lemma ContentBeforeDate()
    ensures Less(ContentHeader, DateHeader)
  {
    assert ContentHeader == "X-Amz-" + "Content-Sha256" && DateHeader == "X-Amz-" + "Date";
    assert Less("Content-Sha256", "Date");
    LessCommonPrefix("X-Amz-", "Content-Sha256", "Date");
  }

  lemma SortedThree(a: string, b: string, c: string)
    requires Less(a, b) && Less(a, c) && Less(b, c)
    ensures StrictlySorted([a, b, c])
  {
  }

  lemma HostOnlySorted()
    ensures StrictlySorted(["Host", ContentHeader, DateHeader])
  {
    ContentBeforeDate();
    assert Less("Host", ContentHeader) && Less("Host", DateHeader);
    SortedThree("Host", ContentHeader, DateHeader);
  }

  lemma HostOnlyNames(host: string, timestamp: string)
    ensures FromPairs([("Host", host)] + AmzHeaders(timestamp)).values.Keys == {"Host", DateHeader, ContentHeader}
  {
    StampedNames([("Host", host)], timestamp);
    assert Names([("Host", host)]) == {"Host"} by {
      NameOfPair([("Host", host)], 0);
    }
  }

  lemma HostOnlyKeys(host: string, timestamp: string)
    ensures FromPairs([("Host", host)] + AmzHeaders(timestamp)).keys == ["Host", ContentHeader, DateHeader]
  {
    var m := FromPairs([("Host", host)] + AmzHeaders(timestamp));
    var e := ["Host", ContentHeader, DateHeader];
    HostOnlyNames(host, timestamp);
    assert forall x :: x in e <==> x in m.values;
    HostOnlySorted();
    KeysAre(m, e);
  }

  lemma LowerAllThree(a: string, b: string, c: string)
    ensures LowerAll([a, b, c]) == [Lower(a), Lower(b), Lower(c)]
  {
    var r := LowerAll([a, b, c]);
    assert r[0] == Lower(a) && r[1] == Lower(b) && r[2] == Lower(c);
  }

  lemma LowerHost()
    ensures Lower("Host") == "host" && Lower("accept") == "accept"
  {
  }

  lemma HostOnlyLowered()
    ensures LowerAll(["Host", ContentHeader, DateHeader]) == ["host", "x-amz-content-sha256", "x-amz-date"]
  {
    LowerAllThree("Host", ContentHeader, DateHeader);
    LowerHost();
    LowerContentHeader();
    LowerDateHeader();
  }

  lemma JoinThree(a: string, b: string, c: string, sep: char)
    ensures Join([a, b, c], sep) == a + [sep] + b + [sep] + c
  {
    JoinSnoc([a], b, sep);
    JoinSnoc([a, b], c, sep);
  }

  lemma HostOnlySpelled()
    ensures "host" + [';'] + "x-amz-content-sha256" + [';'] + "x-amz-date" == "host;x-amz-content-sha256;x-amz-date"
  {
  }

  lemma HostOnlyJoined()
    ensures Join(["host", "x-amz-content-sha256", "x-amz-date"], ';') == "host;x-amz-content-sha256;x-amz-date"
  {
    JoinThree("host", "x-amz-content-sha256", "x-amz-date", ';');
    HostOnlySpelled();
  }

  /**
   * A request carrying only its Host header (as putObject and getObject build
   * it) signs host, x-amz-content-sha256 and x-amz-date, in that order.
   */
  lemma HostOnlySignedHeaders(host: string, timestamp: string)
    ensures SignedHeaders(FromPairs([("Host", host)] + AmzHeaders(timestamp)))
         == "host;x-amz-content-sha256;x-amz-date"
  {
    HostOnlyKeys(host, timestamp);
    HostOnlyLowered();
    HostOnlyJoined();
  }

  /** A map with two keys signs their lower-cased names, separated by `;`. */
  lemma TwoSigned(m: SortedMap, a: string, b: string)
    requires m.keys == [a, b]
    ensures SignedHeaders(m) == Lower(a) + ";" + Lower(b)
  {
    assert LowerAll([a, b]) == [Lower(a), Lower(b)];
    JoinSnoc([Lower(a)], Lower(b), ';');
  }

  /**
   * Header names are ordered as written, not lower-cased: with Host and accept
   * the signed list is host;accept, whose lower-cased names are out of order.
   */
  lemma MixedCaseOrder(host: string, accept: string)
    ensures FromPairs([("Host", host), ("accept", accept)]).keys == ["Host", "accept"]
    ensures SignedHeaders(FromPairs([("Host", host), ("accept", accept)])) == "host;accept"
    ensures Less("accept", "host")
  {
    var m := FromPairs([("Host", host), ("accept", accept)]);
    HostAcceptOrder();
    assert m.keys == ["Host", "accept"] by {
      TwoKeys("Host", "accept", host, accept);
    }
    assert SignedHeaders(m) == "host;accept" by {
      TwoSigned(m, "Host", "accept");
      LowerHost();
      HostAcceptSpelled();
    }
  }

  lemma HostAcceptSpelled()
    ensures "host" + ";" + "accept" == "host;accept"
  {
  }

  /** `H` sorts before `a`, and `a` before `h`. */
  lemma HostAcceptOrder()
    ensures Less("Host", "accept") && Less("accept", "host")
  {
  }

  /**
   * Two names that differ only in case are two keys of the map, so the same
   * lower-cased name is signed twice.
   */
  lemma CaseVariantsBothSigned(n1: string, n2: string, v1: string, v2: string)
    requires n1 != n2 && Lower(n1) == Lower(n2)
    ensures |FromPairs([(n1, v1), (n2, v2)]).keys| == 2
    ensures SignedHeaders(FromPairs([(n1, v1), (n2, v2)])) == Lower(n1) + ";" + Lower(n1)
  {
    var m := FromPairs([(n1, v1), (n2, v2)]);
    TwoKeys(n1, n2, v1, v2);
    if Less(n1, n2) {
      TwoSigned(m, n1, n2);
    } else {
      TwoSigned(m, n2, n1);
    }
  }

  lemma StampedKeysSemicolonFree(m: SortedMap, headers: seq<(string, string)>)
    requires m.Valid() && m.values.Keys == Names(headers) + {DateHeader, ContentHeader}
    requires forall i :: 0 <= i < |headers| ==> ';' !in headers[i].0
    ensures forall k :: k in m.keys ==> ';' !in k
  {
    StampNamesSpelled();
    forall k | k in m.keys ensures ';' !in k {
      if k in Names(headers) {
        var i :| 0 <= i < |headers| && headers[i].0 == k;
      }
    }
  }

  /** The lower-cased names of a header list with space-free names are joined into a space-free list. */
  lemma SignedHeadersSpaceFree(headers: seq<(string, string)>)
    requires forall i :: 0 <= i < |headers| ==> ' ' !in headers[i].0
    ensures ' ' !in SignedHeaders(FromPairs(headers))
  {
    var m := FromPairs(headers);
    var names := LowerAll(m.keys);
    forall j | 0 <= j < |names| ensures ' ' !in names[j] {
      var k := m.keys[j];
      assert k in Names(headers);
      var i :| 0 <= i < |headers| && headers[i].0 == k;
      LowerKeepsAbsent(k, ' ');
    }
    JoinAvoids(names, ';', ' ');
  }

  /** The scope of a digit datestamp and a space-free region holds no space. */
  lemma ScopeSpaceFree(datestamp: string, region: string)
    requires IsDigits(datestamp) && ' ' !in region
    ensures ' ' !in Scope(datestamp, region)
  {
    assert ' ' !in datestamp by {
      forall i | 0 <= i < |datestamp| ensures datestamp[i] != ' ' {
        assert '0' <= datestamp[i] <= '9';
      }
    }
  }

  /**
   * The Authorization value authorization() adds splits at spaces into the
   * algorithm, the credential for the access key and the day's scope, the
   * signed-headers list of the header list and the hex signature.
   */
  lemma AuthorizationForFields(p: Primitives, verb: string, path: string, query: Option<string>,
                               headers: seq<(string, string)>, region: string,
                               accessKey: string, secretKey: string, now: DateTime)
    requires now.Valid()
    requires ' ' !in accessKey && ' ' !in region
    requires forall i :: 0 <= i < |headers| ==> ' ' !in headers[i].0
    ensures var datestamp := FormatDate(now);
            var scope := Scope(datestamp, region);
            var canonicalRequest := CanonicalRequestOf(verb, path, query, headers, p.urlEncode);
            var signature := Signature(p, secretKey, datestamp, region,
                                       StringToSign(p, FormatTime(now), scope, canonicalRequest));
            SplitOn(AuthorizationFor(p, verb, path, query, headers, region, accessKey, secretKey, now), ' ')
            == [Algorithm, "Credential=" + accessKey + "/" + scope + ",",
                "SignedHeaders=" + SignedHeaders(FromPairs(headers)) + ",", "Signature=" + signature]
  {
    var datestamp := FormatDate(now);
    var scope := Scope(datestamp, region);
    var canonicalRequest := CanonicalRequestOf(verb, path, query, headers, p.urlEncode);
    var signature := Signature(p, secretKey, datestamp, region,
                               StringToSign(p, FormatTime(now), scope, canonicalRequest));
    var signed := SignedHeaders(FromPairs(headers));
    assert ' ' !in scope by {
      ScopeSpaceFree(datestamp, region);
    }
    assert ' ' !in signed by {
      SignedHeadersSpaceFree(headers);
    }
    assert ' ' !in signature by {
      HexAvoids(signature, ' ');
    }
    AuthorizationFields(accessKey, scope, signed, signature);
  }
}
