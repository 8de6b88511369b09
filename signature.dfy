/**
 * Request signing, version "v0": the sender signs "v0:" + timestamp + ":" + body
 * with HMAC-SHA256 (RFC 2104 over FIPS 180-4) keyed by the shared signing secret
 * and sends "v0=" followed by the lower-case hex digest.
 */
module Signature {
  import opened Events

  predicate IsLowerHexDigit(c: char) {
    '0' <= c <= '9' || 'a' <= c <= 'f'
  }

  /** What `hexdigest()` of a SHA-256 based HMAC returns: 64 lower-case hex digits. */
  predicate IsHexDigest(s: string) {
    |s| == 64 && forall i | 0 <= i < |s| :: IsLowerHexDigit(s[i])
  }

  type HexDigest = s: string | IsHexDigest(s)
    witness seq(64, _ => '0')

  /** hex(HMAC-SHA256(key, message)); the MAC itself is supplied from outside the model. */
  type HexHmacSha256 = (string, string) -> HexDigest

  /** The string that is signed. */
  function BaseString(timestamp: string, body: string): string {
    "v0:" + timestamp + ":" + body
  }

  /** The signature header a genuine request carries. */
  function ExpectedSignature(mac: HexHmacSha256, secret: string, timestamp: string, body: string): string {
    "v0=" + mac(secret, BaseString(timestamp, body))
  }

  predicate IsAscii(s: string) {
    forall i | 0 <= i < |s| :: s[i] < 128 as char
  }

  /**
   * `verify_signature`: compares the expected signature with the received one.
   * The comparison of two strings raises a TypeError when either holds a
   * non-ASCII character; `None` stands for that exception.
   */
  function Verify(mac: HexHmacSha256, secret: string, timestamp: string, body: string, signature: string): (r: Option<bool>)
    ensures r.None? <==> !IsAscii(signature)
    ensures r == Some(true) <==> signature == ExpectedSignature(mac, secret, timestamp, body)
  {
    var expected := ExpectedSignature(mac, secret, timestamp, body);
    ExpectedIsAscii(mac, secret, timestamp, body);
    if !IsAscii(signature) then None else Some(expected == signature)
  }

  /** The expected signature is "v0=" and 64 hex digits, all ASCII. */
  lemma ExpectedIsAscii(mac: HexHmacSha256, secret: string, timestamp: string, body: string)
    ensures var expected := ExpectedSignature(mac, secret, timestamp, body);
      |expected| == 67 && expected[..3] == "v0=" && IsAscii(expected)
  {
    var digest := mac(secret, BaseString(timestamp, body));
    var expected := ExpectedSignature(mac, secret, timestamp, body);
    assert expected == "v0=" + digest;
    forall i | 3 <= i < 67
      ensures expected[i] < 128 as char
    {
      assert expected[i] == digest[i - 3];
      assert IsLowerHexDigit(digest[i - 3]);
    }
  }

  /**
   * An ASCII header that is not "v0=" and 64 further characters is rejected without
   * consulting the MAC; this covers the empty header a request without a signature gets.
   */
  lemma MalformedSignatureRejected(mac: HexHmacSha256, secret: string, timestamp: string, body: string, signature: string)
    requires IsAscii(signature)
    requires |signature| != 67 || signature[..3] != "v0="
    ensures Verify(mac, secret, timestamp, body, signature) == Some(false)
  {
    ExpectedIsAscii(mac, secret, timestamp, body);
  }

  /** In the signed string, the first ':' after the version prefix ends the timestamp. */
  lemma ColonEndsTimestamp(t: string, b: string)
    requires ':' !in t
    ensures var m := BaseString(t, b);
      |m| > 3 + |t| && m[3 + |t|] == ':' && forall j | 3 <= j < 3 + |t| :: m[j] != ':'
  {
    var m := BaseString(t, b);
    forall j | 3 <= j < 3 + |t|
      ensures m[j] != ':'
    {
      assert m[j] == t[j - 3];
    }
  }

  /**
   * The signed string determines the timestamp and the body whenever the timestamp
   * holds no ':' (an integer timestamp never does), so a signature for one
   * (timestamp, body) pair cannot be replayed for another.
   */
  lemma {:induction false} BaseStringInjective(t1: string, b1: string, t2: string, b2: string)
    requires ':' !in t1 && ':' !in t2
    requires BaseString(t1, b1) == BaseString(t2, b2)
    ensures t1 == t2 && b1 == b2
  {
    var m := BaseString(t1, b1);
    ColonEndsTimestamp(t1, b1);
    ColonEndsTimestamp(t2, b2);
    assert |t1| == |t2|;
    assert t1 == m[3..3 + |t1|] == t2;
    assert b1 == m[4 + |t1|..] == b2;
  }
}
