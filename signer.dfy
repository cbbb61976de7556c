/**
 * The signer of ImgService: the credential scope, the string to sign, the
 * HMAC-SHA256 key-derivation chain with the final signature, and the value
 * of the Authorization header.
 */
module Signer {
  import opened Text
  import opened Crypto

  const Algorithm := "AWS4-HMAC-SHA256"
  const ServiceName := "s3"
  const RequestType := "aws4_request"

  /** Splitting four separator-free pieces joined by `c` gives the four pieces back. */
  lemma SplitFour(a: string, b: string, d: string, e: string, c: char)
    requires c !in a && c !in b && c !in d && c !in e
    ensures SplitOn(a + [c] + b + [c] + d + [c] + e, c) == [a, b, d, e]
  {
    var ab := a + [c] + b;
    var abd := ab + [c] + d;
    SplitOnAround(abd, c, e);
    SplitOnAround(ab, c, d);
    SplitOnAround(a, c, b);
    SplitOnNoSeparator(a, c);
    SplitOnNoSeparator(b, c);
    SplitOnNoSeparator(d, c);
    SplitOnNoSeparator(e, c);
  }

  /** getScope: datestamp/region/s3/aws4_request. */
  function Scope(datestamp: string, region: string): string
  {
    datestamp + "/" + region + "/" + ServiceName + "/" + RequestType
  }

  /** The scope has exactly the four components datestamp, region, service and request type. */
  lemma ScopeComponents(datestamp: string, region: string)
    requires '/' !in datestamp && '/' !in region
    ensures SplitOn(Scope(datestamp, region), '/') == [datestamp, region, ServiceName, RequestType]
  {
    SplitFour(datestamp, region, ServiceName, RequestType, '/');
  }

  /** getStringToSign: algorithm, timestamp, scope and the hex SHA-256 of the canonical request, one per line. */
  function StringToSign(p: Primitives, timestamp: string, scope: string, canonicalRequest: string): string
  {
    Algorithm + "\n" + timestamp + "\n" + scope + "\n" + Hash(p, canonicalRequest)
  }

  /** A lower-case hex string holds no character outside the hex digits. */
  lemma HexAvoids(h: string, c: char)
    requires IsLowerHex(h) && !IsLowerHexChar(c)
    ensures c !in h
  {
    forall i | 0 <= i < |h| ensures h[i] != c {
      assert IsLowerHexChar(h[i]);
    }
  }

  /** The string to sign is exactly four lines: algorithm, timestamp, scope, canonical-request hash. */
  lemma StringToSignLines(p: Primitives, timestamp: string, scope: string, canonicalRequest: string)
    requires '\n' !in timestamp && '\n' !in scope
    ensures SplitOn(StringToSign(p, timestamp, scope, canonicalRequest), '\n')
         == [Algorithm, timestamp, scope, Hash(p, canonicalRequest)]
  {
    HexAvoids(Hash(p, canonicalRequest), '\n');
    SplitFour(Algorithm, timestamp, scope, Hash(p, canonicalRequest), '\n');
  }

  /**
   * The signing key of getSignature: HMAC of the datestamp under "AWS4" + secret,
   * then of the region, the service and the request type, each under the
   * previous result.
   */
  function SigningKey(p: Primitives, secretKey: string, datestamp: string, region: string): seq<Byte>
  {
    var kSecret := p.utf8("AWS4" + secretKey);
    var kDate := Sign(p, datestamp, kSecret);
    var kRegion := Sign(p, region, kDate);
    var kService := Sign(p, ServiceName, kRegion);
    Sign(p, RequestType, kService)
  }

  /** A chain of HMACs: each part is signed under the key the previous step produced. */
  function KeyChain(p: Primitives, key: seq<Byte>, parts: seq<string>): seq<Byte>
    decreases |parts|
  {
    if parts == [] then key else KeyChain(p, Sign(p, parts[0], key), parts[1..])
  }

  /** The signing key is the HMAC chain over the scope's own components, in scope order. */
  lemma SigningKeyFollowsScope(p: Primitives, secretKey: string, datestamp: string, region: string)
    requires '/' !in datestamp && '/' !in region
    ensures SigningKey(p, secretKey, datestamp, region)
         == KeyChain(p, p.utf8("AWS4" + secretKey), SplitOn(Scope(datestamp, region), '/'))
  {
    ScopeComponents(datestamp, region);
    KeyChainOfFour(p, p.utf8("AWS4" + secretKey), datestamp, region, ServiceName, RequestType);
  }

  lemma KeyChainOfFour(p: Primitives, key: seq<Byte>, a: string, b: string, c: string, d: string)
    ensures KeyChain(p, key, [a, b, c, d]) == Sign(p, d, Sign(p, c, Sign(p, b, Sign(p, a, key))))
  {
    var k1 := Sign(p, a, key);
    var k2 := Sign(p, b, k1);
    var k3 := Sign(p, c, k2);
    assert [a, b, c, d][1..] == [b, c, d];
    assert [b, c, d][1..] == [c, d];
    assert [c, d][1..] == [d];
    assert KeyChain(p, key, [a, b, c, d]) == KeyChain(p, k1, [b, c, d]);
    assert KeyChain(p, k1, [b, c, d]) == KeyChain(p, k2, [c, d]);
    assert KeyChain(p, k2, [c, d]) == KeyChain(p, k3, [d]);
  }

  /** getSignature: the lower-case hex of the HMAC of the string to sign under the signing key. */
  function Signature(p: Primitives, secretKey: string, datestamp: string, region: string, stringToSign: string): (sig: string)
    ensures IsLowerHex(sig)
    ensures |sig| == 2 * |Sign(p, stringToSign, SigningKey(p, secretKey, datestamp, region))|
  {
    HexEncode(Sign(p, stringToSign, SigningKey(p, secretKey, datestamp, region)))
  }

  /** The signature carries the MAC without loss: decoding the hex gives the MAC bytes back. */
  lemma SignatureDecodesToMac(p: Primitives, secretKey: string, datestamp: string, region: string, stringToSign: string)
    ensures var sig := Signature(p, secretKey, datestamp, region, stringToSign);
            |sig| % 2 == 0 && HexDecode(sig) == Sign(p, stringToSign, SigningKey(p, secretKey, datestamp, region))
  {
    HexRoundTrip(Sign(p, stringToSign, SigningKey(p, secretKey, datestamp, region)));
  }

  /** getAuthorization: the algorithm, then the credential, signed-headers and signature fields. */
  function AuthorizationValue(accessKey: string, scope: string, signedHeaders: string, signature: string): string
  {
    var credential := "Credential=" + accessKey + "/" + scope;
    var signerHeaders := "SignedHeaders=" + signedHeaders;
    var signatureHeader := "Signature=" + signature;
    Algorithm + " " + credential + ", " + signerHeaders + ", " + signatureHeader
  }

  /** Each ", " is a comma that ends the field before it, then the space separator. */
  lemma CommaSpace(a: string, b: string, d: string, e: string)
    ensures a + " " + b + ", " + d + ", " + e == a + [' '] + (b + [',']) + [' '] + (d + [',']) + [' '] + e
  {
    assert ", " == [','] + [' '];
  }

  /**
   * The Authorization value is the algorithm followed by three space-separated
   * fields: the credential (access key and scope), the signed-headers list and
   * the signature, the first two ending in a comma.
   */
  lemma AuthorizationFields(accessKey: string, scope: string, signedHeaders: string, signature: string)
    requires ' ' !in accessKey && ' ' !in scope && ' ' !in signedHeaders && ' ' !in signature
    ensures SplitOn(AuthorizationValue(accessKey, scope, signedHeaders, signature), ' ')
         == [Algorithm, "Credential=" + accessKey + "/" + scope + ",",
             "SignedHeaders=" + signedHeaders + ",", "Signature=" + signature]
  {
    var credential := "Credential=" + accessKey + "/" + scope;
    var signerHeaders := "SignedHeaders=" + signedHeaders;
    var signatureHeader := "Signature=" + signature;
    CommaSpace(Algorithm, credential, signerHeaders, signatureHeader);
    SplitFour(Algorithm, credential + [','], signerHeaders + [','], signatureHeader, ' ');
  }
}
