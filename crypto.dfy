/**
 * The cryptographic and encoding primitives the signer calls into. The
 * digests, the MAC, UTF-8 encoding and URL encoding are library code and are
 * carried as uninterpreted function values; lower-case hexadecimal encoding
 * (Apache Commons Hex.encodeHexString) is modelled exactly.
 */
module Crypto {

  type Byte = b: int | 0 <= b < 256

  /**
   * The library functions: String.getBytes("UTF-8"), SHA-256,
   * HMAC-SHA256 (key first, then data) and URLEncoder.encode(_, "UTF-8").
   */
  datatype Primitives = Primitives(
    utf8: string -> seq<Byte>,
    sha256: seq<Byte> -> seq<Byte>,
    hmacSha256: (seq<Byte>, seq<Byte>) -> seq<Byte>,
    urlEncode: string -> string)

  predicate IsLowerHexChar(c: char)
  {
    '0' <= c <= '9' || 'a' <= c <= 'f'
  }

  predicate IsLowerHex(s: string)
  {
    forall i :: 0 <= i < |s| ==> IsLowerHexChar(s[i])
  }

  function HexDigit(n: int): (c: char)
    requires 0 <= n < 16
    ensures IsLowerHexChar(c)
  {
    if n < 10 then ('0' as int + n) as char else ('a' as int + n - 10) as char
  }

  function HexValue(c: char): (n: int)
    requires IsLowerHexChar(c)
    ensures 0 <= n < 16
    ensures HexDigit(n) == c
  {
    if c <= '9' then c as int - '0' as int else c as int - 'a' as int + 10
  }

  /** Hex.encodeHexString: two lower-case digits per byte, high nibble first. */
  function HexEncode(bytes: seq<Byte>): (s: string)
    ensures |s| == 2 * |bytes|
    ensures IsLowerHex(s)
  {
    if bytes == [] then ""
    else [HexDigit(bytes[0] / 16), HexDigit(bytes[0] % 16)] + HexEncode(bytes[1..])
  }

  /** Reads back a string of lower-case hex digit pairs. */
  function HexDecode(s: string): (bytes: seq<Byte>)
    requires |s| % 2 == 0 && IsLowerHex(s)
    ensures 2 * |bytes| == |s|
  {
    if s == [] then []
    else [HexValue(s[0]) * 16 + HexValue(s[1])] + HexDecode(s[2..])
  }

  /** Hex encoding loses nothing: decoding it gives the bytes back. */
  lemma {:induction false} HexRoundTrip(bytes: seq<Byte>)
    ensures HexDecode(HexEncode(bytes)) == bytes
  {
    if bytes != [] {
      var s := HexEncode(bytes);
      assert s[2..] == HexEncode(bytes[1..]);
      assert HexValue(s[0]) == bytes[0] / 16 by {
        assert HexDigit(HexValue(s[0])) == HexDigit(bytes[0] / 16);
        HexDigitInjective(HexValue(s[0]), bytes[0] / 16);
      }
      assert HexValue(s[1]) == bytes[0] % 16 by {
        HexDigitInjective(HexValue(s[1]), bytes[0] % 16);
      }
      HexRoundTrip(bytes[1..]);
    }
  }

  lemma HexDigitInjective(m: int, n: int)
    requires 0 <= m < 16 && 0 <= n < 16
    requires HexDigit(m) == HexDigit(n)
    ensures m == n
  {
  }

  /** hash(text): SHA-256 of the UTF-8 bytes, as lower-case hex. */
  function Hash(p: Primitives, text: string): (h: string)
    ensures IsLowerHex(h)
    ensures |h| == 2 * |p.sha256(p.utf8(text))|
  {
    HexEncode(p.sha256(p.utf8(text)))
  }

  /** sign(stringData, key): HMAC-SHA256 under `key` of the UTF-8 bytes of `data`. */
  function Sign(p: Primitives, data: string, key: seq<Byte>): seq<Byte>
  {
    p.hmacSha256(key, p.utf8(data))
  }
}
