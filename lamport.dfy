/** The Lamport one-time signature engine: public-key derivation, signing and
    verification over 2 x 256 grids of hex strings, driven bit by bit by the
    256-bit digest of the message. */
module Lamport {
  import opened Hashing

  /** A key grid has one row per bit value ... */
  const Rows: nat := 2
  /** ... and one column per bit of a digest. */
  const Columns: nat := 4 * DigestLength

  /** int(c, 16) for a single hex digit. */
  function HexValue(c: char): (v: nat)
    requires IsHexDigit(c)
    ensures v < 16
  {
    if '0' <= c <= '9' then c as nat - '0' as nat
    else if 'a' <= c <= 'f' then c as nat - 'a' as nat + 10
    else c as nat - 'A' as nat + 10
  }

  predicate IsBits(s: string) {
    forall k :: 0 <= k < |s| ==> s[k] == '0' || s[k] == '1'
  }

  /** The number a string of '0'/'1' denotes, most significant bit first. */
  function BitsValue(bits: string): nat {
    if bits == [] then 0
    else 2 * BitsValue(bits[..|bits| - 1]) + (if bits[|bits| - 1] == '1' then 1 else 0)
  }

  /** Positive integers: the divisors Pow2 produces. */
  type Positive = n: int | n >= 1 witness 1

  function Pow2(e: nat): Positive
  {
    if e == 0 then 1 else 2 * Pow2(e - 1)
  }

  function BinDigit(b: nat): char {
    if b == 0 then '0' else '1'
  }

  /** char2bin: '{:04b}'.format(int(c, 16)), a hex digit as four binary digits. */
  function CharToBin(c: char): (r: string)
    requires IsHexDigit(c)
    ensures |r| == 4 && IsBits(r)
    ensures BitsValue(r) == HexValue(c)
  {
    var v := HexValue(c);
    var r := [BinDigit(v / 8), BinDigit(v / 4 % 2), BinDigit(v / 2 % 2), BinDigit(v % 2)];
    assert r[..1][..0] == [] && r[..2][..1] == r[..1] && r[..3][..2] == r[..2] && r[..4] == r;
    assert BitsValue(r[..1]) == v / 8;
    assert BitsValue(r[..2]) == v / 4;
    assert BitsValue(r[..3]) == v / 2;
    r
  }

  /** Which row the signer and the verifier take for bit index k of digest d:
      row 0 when the k % 4-th character of char2bin(d[k / 4]) is '0', else row 1. */
  function DigestBit(d: string, k: nat): (b: nat)
    requires IsHexString(d) && k < 4 * |d|
    ensures b < Rows
  {
    if CharToBin(d[k / 4])[k % 4] == '0' then 0 else 1
  }

  /** A grid that has the cells the code indexes: two rows of at least 256 cells. */
  predicate CoversKeyGrid(g: seq<seq<string>>) {
    |g| >= Rows && |g[0]| >= Columns && |g[1]| >= Columns
  }

  /** The cells of `grid` chosen by the bits of `d`, in bit order. */
  function Select(d: string, grid: seq<seq<string>>): seq<string>
    requires IsHexString(d) && |d| <= DigestLength && CoversKeyGrid(grid)
  {
    seq(4 * |d|, k requires 0 <= k < 4 * |d| => grid[DigestBit(d, k)][k])
  }

  /** The public key of `sk`: a 2 x 256 grid whose every cell is the hash of
      the private-key cell at the same place. */
  predicate IsPublicKeyOf(h: Hasher, sk: seq<seq<string>>, pk: seq<seq<string>>)
    requires CoversKeyGrid(sk)
  {
    |pk| == Rows && (forall r :: 0 <= r < Rows ==> |pk[r]| == Columns) &&
    forall r, c :: 0 <= r < Rows && 0 <= c < Columns ==> pk[r][c] == h(sk[r][c])
  }

  /** What verify_signature decides for digest d: the signature is no longer
      than the chosen cells and each of its elements hashes to the chosen
      public-key cell at the same position. */
  predicate Accepts(h: Hasher, d: string, sig: seq<string>, pk: seq<seq<string>>)
    requires IsHexString(d) && |d| <= DigestLength && CoversKeyGrid(pk)
  {
    |sig| <= 4 * |d| && forall k :: 0 <= k < |sig| ==> h(sig[k]) == Select(d, pk)[k]
  }

  /** The evidently intended decision: a full-length signature that matches everywhere. */
  predicate AcceptsStrict(h: Hasher, d: string, sig: seq<string>, pk: seq<seq<string>>)
    requires IsHexString(d) && |d| <= DigestLength && CoversKeyGrid(pk)
  {
    |sig| == 4 * |d| && Accepts(h, d, sig, pk)
  }

  /** generate_public_key: fills a fresh 2 x 256 grid, cell by cell, with the
      hash of the private-key cell. */
  method GeneratePublicKey(h: Hasher, sk: seq<seq<string>>) returns (pk: seq<seq<string>>)
    requires CoversKeyGrid(sk)
    ensures IsPublicKeyOf(h, sk, pk)
  {
    var blank := seq(Columns, _ => "");
    pk := [blank, blank];
    for i := 0 to Rows
      invariant |pk| == Rows && |pk[0]| == Columns && |pk[1]| == Columns
      invariant forall r, c :: 0 <= r < i && 0 <= c < Columns ==> pk[r][c] == h(sk[r][c])
    {
      for j := 0 to Columns
        invariant |pk| == Rows && |pk[0]| == Columns && |pk[1]| == Columns
        invariant forall r, c :: 0 <= r < i && 0 <= c < Columns ==> pk[r][c] == h(sk[r][c])
        invariant forall c :: 0 <= c < j ==> pk[i][c] == h(sk[i][c])
      {
        pk := pk[i := pk[i][j := h(sk[i][j])]];
      }
    }
  }

  /** The selection loop shared by generate_signature and verify_signature:
      for each hex character i and each of its four bits j, append
      grid[0][4i + j] for a '0' bit and grid[1][4i + j] for a '1' bit. */
  method SelectByDigest(d: string, grid: seq<seq<string>>) returns (chosen: seq<string>)
    requires IsHexString(d) && |d| <= DigestLength && CoversKeyGrid(grid)
    ensures chosen == Select(d, grid)
  {
    chosen := [];
    for i := 0 to |d|
      invariant |chosen| == 4 * i
      invariant forall k :: 0 <= k < 4 * i ==> chosen[k] == grid[DigestBit(d, k)][k]
    {
      var bin := CharToBin(d[i]);
      for j := 0 to |bin|
        invariant |chosen| == 4 * i + j
        invariant forall k :: 0 <= k < 4 * i + j ==> chosen[k] == grid[DigestBit(d, k)][k]
      {
        assert (4 * i + j) / 4 == i && (4 * i + j) % 4 == j;
        if bin[j] == '0' {
          chosen := chosen + [grid[0][i * 4 + j]];
        } else {
          chosen := chosen + [grid[1][i * 4 + j]];
        }
      }
    }
  }

  /** generate_signature: the private-key cells chosen by the bits of the
      zero-padded digest of the message, 256 of them. */
  method GenerateSignature(h: Hasher, message: string, sk: seq<seq<string>>)
    returns (signature: seq<string>)
    requires CoversKeyGrid(sk)
    ensures |signature| == Columns
    ensures signature == Select(MessageDigest(h, message), sk)
  {
    var digest := ZeroPadding(h(message));
    signature := SelectByDigest(digest, sk);
  }

  /** The last two loops of verify_signature: hash every signature element,
      then compare with the chosen cells position by position up to the
      signature's length, stopping at the first mismatch. The requires is
      what keeps chosen[i] in range: either the signature is not longer than
      the chosen cells, or a mismatch stops the loop before it runs past them. */
  method CompareHashed(h: Hasher, chosen: seq<string>, signature: seq<string>)
    returns (verified: int)
    requires |signature| <= |chosen| ||
             exists k :: 0 <= k < |chosen| && h(signature[k]) != chosen[k]
    ensures verified == 0 || verified == 1
    ensures verified == 1 <==>
      |signature| <= |chosen| &&
      forall k :: 0 <= k < |signature| ==> h(signature[k]) == chosen[k]
  {
    verified := 1;
    var hashed: seq<string> := [];
    for i := 0 to |signature|
      invariant |hashed| == i
      invariant forall k :: 0 <= k < i ==> hashed[k] == h(signature[k])
    {
      hashed := hashed + [h(signature[i])];
    }
    for i := 0 to |hashed|
      invariant verified == 1
      invariant i <= |chosen|
      invariant forall k :: 0 <= k < i ==> chosen[k] == hashed[k]
    {
      if i == |chosen| {
        // every chosen cell matched, so the requires promises a short signature
        assert false;
      }
      if chosen[i] != hashed[i] {
        verified := 0;
        break;
      }
    }
  }

  /** verify_signature as written: 1 when the signature matches the chosen
      public-key cells on its own length, 0 at the first mismatch. The
      requires excludes the IndexError of a signature longer than 256 whose
      first 256 elements all match. */
  method VerifySignature(h: Hasher, message: string, signature: seq<string>, pk: seq<seq<string>>)
    returns (verified: int)
    requires CoversKeyGrid(pk)
    requires |signature| <= Columns ||
             exists k :: 0 <= k < Columns &&
               h(signature[k]) != Select(MessageDigest(h, message), pk)[k]
    ensures verified == (if Accepts(h, MessageDigest(h, message), signature, pk) then 1 else 0)
  {
    var digest := ZeroPadding(h(message));
    var chosen := SelectByDigest(digest, pk);
    verified := CompareHashed(h, chosen, signature);
  }

  /** verify_signature corrected: a signature whose length is not the number
      of digest bits is rejected, with no precondition on its length. */
  method VerifySignatureStrict(h: Hasher, message: string, signature: seq<string>, pk: seq<seq<string>>)
    returns (verified: int)
    requires CoversKeyGrid(pk)
    ensures verified == (if AcceptsStrict(h, MessageDigest(h, message), signature, pk) then 1 else 0)
  {
    var digest := ZeroPadding(h(message));
    var chosen := SelectByDigest(digest, pk);
    if |signature| != |chosen| {
      return 0;
    }
    verified := CompareHashed(h, chosen, signature);
  }

  /** char2bin lists the bits of the digit most significant first. */
  lemma {:induction false} CharToBinMsbFirst(c: char, j: nat)
    requires IsHexDigit(c) && j < 4
    ensures CharToBin(c)[j] == BinDigit(HexValue(c) / Pow2(3 - j) % 2)
  {
    var v := HexValue(c);
    var bits := CharToBin(c);
    if j == 0 {
      assert Pow2(3 - j) == 8;
      assert v / 8 % 2 == v / 8;
      assert bits[j] == BinDigit(v / 8);
    } else if j == 1 {
      assert Pow2(3 - j) == 4;
      assert bits[j] == BinDigit(v / 4 % 2);
    } else if j == 2 {
      assert Pow2(3 - j) == 2;
      assert bits[j] == BinDigit(v / 2 % 2);
    } else {
      assert Pow2(3 - j) == 1;
      assert bits[j] == BinDigit(v % 2);
    }
  }

  /** generate_signature's selection: element 4i + j of the signature is the
      private-key cell in the row given by bit j, most significant first, of
      hex digit i of the digest. */
  lemma {:induction false} SignatureSelection(h: Hasher, message: string, sk: seq<seq<string>>, i: nat, j: nat)
    requires CoversKeyGrid(sk) && i < DigestLength && j < 4
    ensures var d := MessageDigest(h, message);
      Select(d, sk)[4 * i + j] == sk[HexValue(d[i]) / Pow2(3 - j) % 2][4 * i + j]
  {
    var d := MessageDigest(h, message);
    assert (4 * i + j) / 4 == i && (4 * i + j) % 4 == j;
    CharToBinMsbFirst(d[i], j);
    assert HexValue(d[i]) / Pow2(3 - j) % 2 == DigestBit(d, 4 * i + j);
  }

  /** Round trip: a signature made with sk is accepted, at full length, by the
      public key derived from sk. */
  lemma {:induction false} RoundTrip(h: Hasher, message: string, sk: seq<seq<string>>, pk: seq<seq<string>>)
    requires CoversKeyGrid(sk) && IsPublicKeyOf(h, sk, pk)
    ensures var d := MessageDigest(h, message);
      CoversKeyGrid(pk) && AcceptsStrict(h, d, Select(d, sk), pk) && Accepts(h, d, Select(d, sk), pk)
  {
    var d := MessageDigest(h, message);
    var sig := Select(d, sk);
    forall k | 0 <= k < |sig|
      ensures h(sig[k]) == Select(d, pk)[k]
    {
      var b := DigestBit(d, k);
      assert sig[k] == sk[b][k];
      assert Select(d, pk)[k] == pk[b][k];
    }
  }

  /** A signature made for one message is accepted for another exactly when,
      at every bit where the two digests differ, the public key has the same
      hash in both rows. With distinct rows, any differing bit rejects it. */
  lemma {:induction false} OtherMessage(h: Hasher, signed: string, other: string, sk: seq<seq<string>>, pk: seq<seq<string>>)
    requires CoversKeyGrid(sk) && IsPublicKeyOf(h, sk, pk)
    ensures var d, d' := MessageDigest(h, signed), MessageDigest(h, other);
      CoversKeyGrid(pk) &&
      (Accepts(h, d', Select(d, sk), pk) <==>
        forall k :: 0 <= k < Columns && DigestBit(d, k) != DigestBit(d', k) ==> pk[0][k] == pk[1][k])
  {
    var d, d' := MessageDigest(h, signed), MessageDigest(h, other);
    var sig := Select(d, sk);
    forall k | 0 <= k < Columns
      ensures h(sig[k]) == Select(d', pk)[k] <==>
        (DigestBit(d, k) != DigestBit(d', k) ==> pk[0][k] == pk[1][k])
    {
      var b, b' := DigestBit(d, k), DigestBit(d', k);
      assert h(sig[k]) == pk[b][k];
      assert Select(d', pk)[k] == pk[b'][k];
    }
  }

  /** Replacing one element of a valid signature by a string with a different
      hash makes verification fail. */
  lemma {:induction false} TamperedSignature(h: Hasher, message: string, sk: seq<seq<string>>, pk: seq<seq<string>>, k: nat, forged: string)
    requires CoversKeyGrid(sk) && IsPublicKeyOf(h, sk, pk) && k < Columns
    requires h(forged) != h(Select(MessageDigest(h, message), sk)[k])
    ensures var d := MessageDigest(h, message);
      CoversKeyGrid(pk) && !Accepts(h, d, Select(d, sk)[k := forged], pk)
  {
    var d := MessageDigest(h, message);
    RoundTrip(h, message, sk, pk);
    assert h(Select(d, sk)[k]) == Select(d, pk)[k];
  }

  /** As written, verification accepts the empty signature for every message
      and every public key; the corrected decision rejects it. */
  lemma {:induction false} EmptySignatureAccepted(h: Hasher, message: string, pk: seq<seq<string>>)
    requires CoversKeyGrid(pk)
    ensures Accepts(h, MessageDigest(h, message), [], pk)
    ensures !AcceptsStrict(h, MessageDigest(h, message), [], pk)
  {
  }

  /** As written, every prefix of a valid signature is accepted; the corrected
      decision accepts only the whole signature. */
  lemma {:induction false} TruncatedSignatureAccepted(h: Hasher, message: string, sk: seq<seq<string>>, pk: seq<seq<string>>, n: nat)
    requires CoversKeyGrid(sk) && IsPublicKeyOf(h, sk, pk) && n <= Columns
    ensures var d := MessageDigest(h, message);
      CoversKeyGrid(pk) &&
      Accepts(h, d, Select(d, sk)[..n], pk) &&
      (AcceptsStrict(h, d, Select(d, sk)[..n], pk) <==> n == Columns)
  {
    var d := MessageDigest(h, message);
    RoundTrip(h, message, sk, pk);
    var sig := Select(d, sk);
    assert forall k :: 0 <= k < n ==> sig[..n][k] == sig[k];
  }
}
