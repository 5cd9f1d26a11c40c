/** Bytes and the little-endian integers that every wire format of the program is built from. */
module Bytes {
  type byte = x: int | 0 <= x < 256

  datatype Option<+T> = None | Some(value: T)

  function Max(a: int, b: int): (m: int) {
    if a < b then b else a
  }

  function Min(a: int, b: int): (m: int) {
    if a < b then a else b
  }

  /** The number of values an `n`-byte integer can hold. */
  function Pow256(n: nat): (p: nat)
    ensures p > 0
  {
    if n == 0 then 1 else 256 * Pow256(n - 1)
  }

  /** The `n` low bytes of `v`, least significant first. */
  function PutLE(v: nat, n: nat): (s: seq<byte>)
    ensures |s| == n
  {
    if n == 0 then [] else [v % 256] + PutLE(v / 256, n - 1)
  }

  function GetLE(s: seq<byte>): (v: nat) {
    if s == [] then 0 else s[0] + 256 * GetLE(s[1..])
  }

  lemma {:induction false} GetPutLE(v: nat, n: nat)
    requires v < Pow256(n)
    ensures GetLE(PutLE(v, n)) == v
  {
    if n > 0 {
      GetPutLE(v / 256, n - 1);
      assert PutLE(v, n)[1..] == PutLE(v / 256, n - 1);
    }
  }

  lemma {:induction false} PutGetLE(s: seq<byte>)
    ensures GetLE(s) < Pow256(|s|)
    ensures PutLE(GetLE(s), |s|) == s
  {
    if s != [] {
      PutGetLE(s[1..]);
      var v, rest := GetLE(s), GetLE(s[1..]);
      assert v % 256 == s[0] && v / 256 == rest;
      assert PutLE(v, |s|) == [s[0]] + s[1..];
    }
  }

  /** Concatenation is associative. */
  lemma ConcatAssociates<T>(a: seq<T>, b: seq<T>, c: seq<T>)
    ensures a + (b + c) == a + b + c
  {
  }

  /** The widths in use: 8, 16, 32 and 64 bits. */
  lemma Widths()
    ensures Pow256(1) == 0x100
    ensures Pow256(2) == 0x1_0000
    ensures Pow256(4) == 0x1_0000_0000
    ensures Pow256(8) == 0x1_0000_0000_0000_0000
  {
    assert Pow256(3) == 256 * Pow256(2);
    assert Pow256(5) == 256 * Pow256(4);
    assert Pow256(6) == 256 * Pow256(5);
    assert Pow256(7) == 256 * Pow256(6);
  }

  /** Writes the `n` low bytes of `v` at `off`, as `memcpy` of a little-endian integer does. */
  method StoreLE(buf: array<byte>, off: nat, n: nat, v: nat)
    requires off + n <= buf.Length
    modifies buf
    ensures buf[..off + n] == old(buf[..off]) + PutLE(v, n)
    ensures forall k :: off + n <= k < buf.Length ==> buf[k] == old(buf[k])
  {
    var rest := v;
    for i := 0 to n
      invariant buf[..off + i] + PutLE(rest, n - i) == old(buf[..off]) + PutLE(v, n)
      invariant forall k :: off + i <= k < buf.Length ==> buf[k] == old(buf[k])
    {
      ghost var before := buf[..off + i];
      buf[off + i] := rest % 256;
      assert buf[..off + i + 1] == before + [rest % 256];
      rest := rest / 256;
      assert before + ([buf[off + i]] + PutLE(rest, n - i - 1)) == before + [buf[off + i]] + PutLE(rest, n - i - 1);
    }
    assert buf[..off + n] + PutLE(rest, 0) == buf[..off + n];
  }
}
