/** Bytes, big-endian numbers, and where a byte string sits inside a buffer. */
module Bytes {

  type byte = x: int | 0 <= x < 256

  const TWO_32: int := 0x1_0000_0000
  const TWO_64: int := 0x1_0000_0000_0000_0000

  function Pow256(k: nat): (r: nat)
    ensures r > 0
  {
    if k == 0 then 1 else 256 * Pow256(k - 1)
  }

  lemma PowValues()
    ensures Pow256(1) == 0x100 && Pow256(2) == 0x1_0000
    ensures Pow256(4) == TWO_32 && Pow256(8) == TWO_64
  {
    assert Pow256(3) == 0x100_0000;
    assert Pow256(5) == 0x100_0000_0000;
    assert Pow256(6) == 0x1_0000_0000_0000;
    assert Pow256(7) == 0x100_0000_0000_0000;
  }

  /** The `k` bytes of `n`, most significant first (network byte order). */
  function ToBE(n: nat, k: nat): (s: seq<byte>)
    requires n < Pow256(k)
    ensures |s| == k
  {
    if k == 0 then [] else ToBE(n / 256, k - 1) + [n % 256]
  }

  function FromBE(s: seq<byte>): (n: nat)
    ensures n < Pow256(|s|)
  {
    if s == [] then 0 else FromBE(s[..|s| - 1]) * 256 + s[|s| - 1]
  }

  lemma {:induction false} FromToBE(n: nat, k: nat)
    requires n < Pow256(k)
    ensures FromBE(ToBE(n, k)) == n
  {
    if k > 0 {
      FromToBE(n / 256, k - 1);
      assert ToBE(n, k)[..k - 1] == ToBE(n / 256, k - 1);
    }
  }

  lemma {:induction false} ToFromBE(s: seq<byte>)
    ensures ToBE(FromBE(s), |s|) == s
  {
    if s != [] {
      ToFromBE(s[..|s| - 1]);
    }
  }

  /** A number that fits in the low `k` bytes has only those bytes. */
  lemma {:induction false} ToBETail(n: nat, k: nat, m: nat)
    requires k <= m && n < Pow256(k) && n < Pow256(m)
    ensures ToBE(n, m)[m - k..] == ToBE(n, k)
  {
    if k > 0 {
      ToBETail(n / 256, k - 1, m - 1);
    }
  }

  /** `t` is found at offset `p` of `s`. */
  predicate Sits(s: seq<byte>, p: nat, t: seq<byte>) {
    p + |t| <= |s| && s[p..p + |t|] == t
  }

  lemma SitsAt(s: seq<byte>, p: nat, t: seq<byte>)
    requires Sits(s, p, t) && t != []
    ensures p < |s| && s[p] == t[0]
  {
    assert s[p..p + |t|][0] == s[p];
  }

  lemma SitsConcat(s: seq<byte>, p: nat, a: seq<byte>, b: seq<byte>)
    ensures Sits(s, p, a + b) <==> Sits(s, p, a) && Sits(s, p + |a|, b)
  {
    if p + |a + b| <= |s| {
      assert s[p..p + |a + b|] == s[p..p + |a|] + s[p + |a|..p + |a| + |b|];
      if s[p..p + |a + b|] == a + b {
        assert (a + b)[..|a|] == a && (a + b)[|a|..] == b;
      }
    }
  }

  lemma Associative(x: seq<byte>, y: seq<byte>, z: seq<byte>)
    ensures x + (y + z) == (x + y) + z
  {
  }

  method CopyInto(a: array<byte>, p: nat, data: seq<byte>)
    requires p + |data| <= a.Length
    modifies a
    ensures a[..p + |data|] == old(a[..p]) + data
  {
    for i := 0 to |data|
      invariant a[..p + i] == old(a[..p]) + data[..i]
    {
      a[p + i] := data[i];
    }
  }
}
