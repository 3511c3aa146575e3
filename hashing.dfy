/** The hash utility: hex digits, 256-bit digests, the digest hash function
    (SHA-256 rendered as a lowercase hex string, kept abstract) and the
    left zero-padding of a digest to 64 hex characters. */
module Hashing {

  /** Number of hex characters in a 256-bit digest. */
  const DigestLength: nat := 64

  /** A character that Python's int(c, 16) reads as one hex digit. */
  predicate IsHexDigit(c: char) {
    '0' <= c <= '9' || 'a' <= c <= 'f' || 'A' <= c <= 'F'
  }

  predicate IsLowerHexDigit(c: char) {
    '0' <= c <= '9' || 'a' <= c <= 'f'
  }

  predicate IsHexString(s: string) {
    forall k :: 0 <= k < |s| ==> IsHexDigit(s[k])
  }

  /** What hexdigest() of a SHA-256 object returns: 64 lowercase hex characters. */
  predicate IsDigest(s: string) {
    |s| == DigestLength && forall k :: 0 <= k < |s| ==> IsLowerHexDigit(s[k])
  }

  const AllZeroDigest: string := seq(DigestLength, _ => '0')

  /** A 256-bit digest as hexdigest() renders it. */
  type Digest = s: string | IsDigest(s) witness AllZeroDigest

  /** The hash function of the system, SHA-256 over the UTF-8 encoding of its
      argument, kept abstract: any total function from strings to digests. */
  type Hasher = string -> Digest

  /** zero_padding: a string shorter than 64 characters is left-padded with '0'
      to exactly 64 characters; anything longer is returned unchanged. The
      code tests against 256 for the early return, but for lengths 64 to 255
      the padding count 64 - len is not positive, so nothing is added. */
  function ZeroPad(s: string): (r: string)
    ensures |s| >= DigestLength ==> r == s
    ensures |s| < DigestLength ==>
      |r| == DigestLength && r[DigestLength - |s|..] == s &&
      forall k :: 0 <= k < DigestLength - |s| ==> r[k] == '0'
  {
    if |s| >= 256 then s
    else seq(if |s| < DigestLength then DigestLength - |s| else 0, _ => '0') + s
  }

  /** zero_padding as the code runs it: an early return, then a loop that
      appends one '0' per missing character, then the input. */
  method ZeroPadding(s: string) returns (padded: string)
    ensures padded == ZeroPad(s)
  {
    if |s| >= 256 {
      return s;
    }
    padded := "";
    var needed: int := DigestLength - |s|;
    var i := 0;
    while i < needed
      invariant 0 <= i <= if needed > 0 then needed else 0
      invariant padded == seq(i, _ => '0')
    {
      padded := padded + "0";
      i := i + 1;
    }
    padded := padded + s;
  }

  /** The digest that signing and verification work from: zero_padding(hash(m)).
      The padding never changes a digest, which is already 64 characters. */
  function MessageDigest(h: Hasher, m: string): (d: string)
    ensures d == h(m)
  {
    ZeroPad(h(m))
  }
}
