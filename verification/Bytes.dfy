/** Byte strings and their little-endian reading, shared by every device that
    keeps integers in raw memory. */
module Bytes {
  import opened Common

  type byte = x: int | 0 <= x < 256

  function Pow256(n: nat): nat {
    if n == 0 then 1 else 256 * Pow256(n - 1)
  }

  /** The number whose little-endian bytes are `s`. */
  function FromLE(s: seq<byte>): (v: nat)
    ensures v < Pow256(|s|)
  {
    if s == [] then 0 else s[0] + 256 * FromLE(s[1..])
  }

  /** The `n` low little-endian bytes of `v`. */
  function ToLE(v: nat, n: nat): (s: seq<byte>)
    ensures |s| == n
  {
    if n == 0 then [] else [v % 256] + ToLE(v / 256, n - 1)
  }

  lemma {:induction false} FromToLE(v: nat, n: nat)
    requires v < Pow256(n)
    ensures FromLE(ToLE(v, n)) == v
  {
    if n > 0 {
      FromToLE(v / 256, n - 1);
      assert ToLE(v, n)[1..] == ToLE(v / 256, n - 1);
    }
  }

  lemma {:induction false} ToFromLE(s: seq<byte>)
    ensures ToLE(FromLE(s), |s|) == s
  {
    if s != [] {
      var v, w: int := FromLE(s[1..]), s[0];
      ToFromLE(s[1..]);
      assert (w + 256 * v) % 256 == w && (w + 256 * v) / 256 == v;
      assert s == [s[0]] + s[1..];
    }
  }

  lemma Pow256Values()
    ensures Pow256(1) == 256
    ensures Pow256(2) == U16
    ensures Pow256(4) == U32
    ensures Pow256(8) == U64
  {
    assert Pow256(3) == 256 * Pow256(2);
    assert Pow256(5) == 256 * Pow256(4);
    assert Pow256(6) == 256 * Pow256(5);
    assert Pow256(7) == 256 * Pow256(6);
  }

  function Zeros(n: nat): (s: seq<byte>)
    ensures |s| == n && forall i :: 0 <= i < n ==> s[i] == 0
  {
    seq(n, _ => 0)
  }

  /** `m` with `b` stored at offset `a`. */
  function Put(m: seq<byte>, a: nat, b: seq<byte>): (r: seq<byte>)
    requires a + |b| <= |m|
    ensures |r| == |m|
    ensures r[a..a + |b|] == b
    ensures forall i :: 0 <= i < |m| && !(a <= i < a + |b|) ==> r[i] == m[i]
  {
    m[..a] + b + m[a + |b|..]
  }

  /** The little-endian word of `n` bytes at offset `a`. */
  function Word(m: seq<byte>, a: nat, n: nat): (v: nat)
    requires a + n <= |m|
  {
    FromLE(m[a..a + n])
  }

  lemma PutWord(m: seq<byte>, a: nat, v: nat, n: nat)
    requires a + n <= |m| && v < Pow256(n)
    ensures Word(Put(m, a, ToLE(v, n)), a, n) == v
  {
    FromToLE(v, n);
  }

  /** Two memories agree on the `n` bytes at `a`. */
  predicate Agree(m: seq<byte>, k: seq<byte>, a: nat, n: nat) {
    a + n <= |m| && |m| == |k| && forall i :: a <= i < a + n ==> m[i] == k[i]
  }

  lemma AgreeWord(m: seq<byte>, k: seq<byte>, a: nat, n: nat)
    requires Agree(m, k, a, n)
    ensures Word(m, a, n) == Word(k, a, n)
  {
    assert m[a..a + n] == k[a..a + n];
  }
}
