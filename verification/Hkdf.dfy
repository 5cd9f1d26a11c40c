/** Key derivation (security/Crypto.cpp, lines 93-119), over any HMAC. */
module Hkdf {
  import opened Bytes

  const DIGEST := 32

  type Digest = s: seq<byte> | |s| == DIGEST witness seq(DIGEST, _ => 0)

  /** HMAC-SHA256 as a function of key and message; only the digest length is assumed. */
  type Hmac = (seq<byte>, seq<byte>) -> Digest

  /** Block T(n) of the expand step, section 2.3 of RFC 5869; T(0) is empty. */
  ghost function Block(hmac: Hmac, prk: Digest, info: seq<byte>, n: nat): (t: seq<byte>)
    requires n <= 255
    ensures |t| == if n == 0 then 0 else DIGEST
  {
    if n == 0 then [] else hmac(prk, Block(hmac, prk, info, n - 1) + info + [n])
  }

  /** T(1) | T(2) | ... | T(n). */
  ghost function Blocks(hmac: Hmac, prk: Digest, info: seq<byte>, n: nat): (s: seq<byte>)
    requires n <= 255
    ensures |s| == n * DIGEST
  {
    if n == 0 then [] else Blocks(hmac, prk, info, n - 1) + Block(hmac, prk, info, n)
  }

  /** The output keying material of sections 2.2 and 2.3 of RFC 5869; no output for a length out of range. */
  ghost function Okm(hmac: Hmac, ikm: seq<byte>, salt: seq<byte>, info: seq<byte>, length: nat): (okm: seq<byte>)
    ensures |okm| == if length > 255 * DIGEST then 0 else length
  {
    if length == 0 || length > 255 * DIGEST then []
    else Blocks(hmac, hmac(salt, ikm), info, (length + DIGEST - 1) / DIGEST)[..length]
  }

  lemma {:induction false} BlocksExtend(hmac: Hmac, prk: Digest, info: seq<byte>, m: nat, n: nat)
    requires m <= n <= 255
    ensures Blocks(hmac, prk, info, m) == Blocks(hmac, prk, info, n)[..m * DIGEST]
  {
    if m < n {
      BlocksExtend(hmac, prk, info, m, n - 1);
    }
  }

  /** The output is a prefix of the block stream, however many blocks are written out. */
  lemma OkmIsPrefix(hmac: Hmac, ikm: seq<byte>, salt: seq<byte>, info: seq<byte>, length: nat, n: nat)
    requires 1 <= length <= n * DIGEST && n <= 255
    ensures Okm(hmac, ikm, salt, info, length) == Blocks(hmac, hmac(salt, ikm), info, n)[..length]
  {
    BlocksExtend(hmac, hmac(salt, ikm), info, (length + DIGEST - 1) / DIGEST, n);
  }

  /** The loop: an 8-bit counter, the previous block, and the output so far. */
  method HkdfSha256(hmac: Hmac, ikm: seq<byte>, salt: seq<byte>, info: seq<byte>, outLen: nat) returns (out: seq<byte>)
    ensures out == Okm(hmac, ikm, salt, info, outLen)
  {
    out := [];
    if outLen == 0 || outLen > 255 * DIGEST {
      return;
    }
    var prk := hmac(salt, ikm);
    var t: seq<byte> := [];
    var counter: byte := 1;
    ghost var n := 0;
    while |out| < outLen
      invariant n <= 255 && (|out| < outLen ==> n < 255) && counter == (n + 1) % 256
      invariant t == Block(hmac, prk, info, n)
      invariant |out| == Min(n * DIGEST, outLen) && out == Blocks(hmac, prk, info, n)[..|out|]
      invariant n > 0 ==> (n - 1) * DIGEST < outLen
      decreases outLen - |out|
    {
      var input := t + info + [counter];
      t := hmac(prk, input);
      var take := Min(DIGEST, outLen - |out|);
      ghost var sofar := out;
      out := out + t[..take];
      n := n + 1;
      assert Blocks(hmac, prk, info, n)[..|out|] == sofar + t[..take];
      counter := (counter + 1) % 256;
    }
    OkmIsPrefix(hmac, ikm, salt, info, outLen, n);
  }

  /** The first blocks written out: each is keyed with the extracted key and hashes the one before, the info and its number. */
  lemma FirstBlocks(hmac: Hmac, ikm: seq<byte>, salt: seq<byte>, info: seq<byte>, length: nat)
    requires 1 <= length <= 64
    ensures var prk := hmac(salt, ikm);
      var t1 := hmac(prk, info + [1]);
      var t2 := hmac(prk, t1 + info + [2]);
      Okm(hmac, ikm, salt, info, length) == (t1 + t2)[..length]
  {
    var prk := hmac(salt, ikm);
    assert [] + info + [1] == info + [1];
    OkmIsPrefix(hmac, ikm, salt, info, length, 2);
  }
}
