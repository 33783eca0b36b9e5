/** Base32 as section 6 of RFC 4648 defines it: five bytes and eight digits spell the same 40-bit number. */
module Base32 {
  import opened Bytes
  import opened Wrappers

  const PAD: byte := '=' as int
  const NEWLINE: byte := '\n' as int

  function Digit(v: nat): (c: byte)
    requires v < 32
    ensures c != PAD && c != NEWLINE && c != 0
  {
    if v < 26 then 65 + v else 50 + (v - 26)
  }

  /** The decoding table: the value of a digit, or -1. */
  function DigitValue(c: byte): (v: int)
    ensures -1 <= v < 32
  {
    if 65 <= c <= 90 then c - 65 else if 50 <= c <= 55 then c as int - 50 + 26 else -1
  }

  predicate IsDigit(c: byte) {
    DigitValue(c) >= 0
  }

  lemma DigitRoundTrip(v: nat)
    requires v < 32
    ensures DigitValue(Digit(v)) == v
  {
  }

  // ----- Numbers in base 32

  type quint = x: int | 0 <= x < 32

  function Pow32(k: nat): (r: nat)
    ensures r > 0
  {
    if k == 0 then 1 else 32 * Pow32(k - 1)
  }

  function ToDigits(n: nat, k: nat): (s: seq<quint>)
    requires n < Pow32(k)
    ensures |s| == k
  {
    if k == 0 then [] else ToDigits(n / 32, k - 1) + [n % 32]
  }

  function FromDigits(s: seq<quint>): (n: nat)
    ensures n < Pow32(|s|)
  {
    if s == [] then 0 else FromDigits(s[..|s| - 1]) * 32 + s[|s| - 1]
  }

  lemma {:induction false} FromToDigits(n: nat, k: nat)
    requires n < Pow32(k)
    ensures FromDigits(ToDigits(n, k)) == n
  {
    if k > 0 {
      FromToDigits(n / 32, k - 1);
      assert ToDigits(n, k)[..k - 1] == ToDigits(n / 32, k - 1);
    }
  }

  lemma {:induction false} ToFromDigits(s: seq<quint>)
    ensures ToDigits(FromDigits(s), |s|) == s
  {
    if s != [] {
      ToFromDigits(s[..|s| - 1]);
    }
  }

  lemma FortyBits()
    ensures Pow32(8) == Pow256(5) == 0x100_0000_0000
  {
    assert Pow32(4) == 0x10_0000;
    assert Pow32(6) == 0x4000_0000;
    assert Pow256(3) == 0x100_0000;
  }

  // ----- Groups

  /** How many digits carry `r` bytes. */
  function DigitsFor(r: nat): nat {
    if r == 1 then 2 else if r == 2 then 4 else if r == 3 then 5 else if r == 4 then 7 else 8
  }

  function Number(b: seq<byte>): (n: nat)
    requires |b| <= 5
    ensures n < Pow32(8)
  {
    FortyBits();
    FromBE(Padded(b))
  }

  function EncodeGroup(b: seq<byte>): (t: seq<byte>)
    requires 1 <= |b| <= 5
    ensures |t| == 8
  {
    var digits := ToDigits(Number(b), 8);
    seq(8, j requires 0 <= j < 8 => if j < DigitsFor(|b|) then Digit(digits[j]) else PAD)
  }

  /** `k` digits and then padding. */
  predicate Shape(t: seq<byte>, k: nat)
    requires |t| == 8
  {
    (forall j | 0 <= j < 8 && j < k :: IsDigit(t[j])) && (forall j | k <= j < 8 :: t[j] == PAD)
  }

  /** How many bytes the group carries; 0 if it is no group at all. */
  function GroupBytes(t: seq<byte>): (r: nat)
    requires |t| == 8
    ensures r <= 5 && (r > 0 ==> Shape(t, DigitsFor(r)))
  {
    if Shape(t, 2) then 1 else if Shape(t, 4) then 2 else if Shape(t, 5) then 3
    else if Shape(t, 7) then 4 else if Shape(t, 8) then 5 else 0
  }

  function Digits(t: seq<byte>): (v: seq<quint>)
    requires |t| == 8
    ensures |v| == 8
  {
    seq(8, j requires 0 <= j < 8 => if IsDigit(t[j]) then DigitValue(t[j]) as quint else 0)
  }

  function DecodeGroup(t: seq<byte>): (r: Option<seq<byte>>)
    requires |t| == 8
    ensures r.Some? ==> 1 <= |r.value| <= 5
  {
    FortyBits();
    if GroupBytes(t) == 0 then None else Some(ToBE(FromDigits(Digits(t)), 5)[..GroupBytes(t)])
  }

  // ----- The same numbers, bit by bit

  /** The shifts and masks of the encoder. */
  function Split(b: seq<byte>): (v: seq<quint>)
    requires |b| == 5
    ensures |v| == 8
  {
    var b0: int, b1: int, b2: int, b3: int, b4: int := b[0], b[1], b[2], b[3], b[4];
    [b0 / 8 % 32, (b0 * 4 + b1 / 64) % 32, b1 / 2 % 32, (b1 * 16 + b2 / 16) % 32,
     (b2 * 2 + b3 / 128) % 32, b3 / 4 % 32, (b3 * 8 + b4 / 32) % 32, b4 % 32]
  }

  /** The shifts and masks of the decoder. */
  function Merge(v: seq<quint>): (b: seq<byte>)
    requires |v| == 8
    ensures |b| == 5
  {
    var v0: int, v1: int, v2: int, v3: int := v[0], v[1], v[2], v[3];
    var v4: int, v5: int, v6: int, v7: int := v[4], v[5], v[6], v[7];
    [v0 * 8 + v1 / 4, v1 % 4 * 64 + v2 * 2 + v3 / 16, v3 % 16 * 16 + v4 / 2,
     v4 % 2 * 128 + v5 * 4 + v6 / 8, v6 % 8 * 32 + v7]
  }

  lemma FromBE5(b: seq<byte>)
    requires |b| == 5
    ensures FromBE(b) == (((b[0] as int * 256 + b[1]) * 256 + b[2]) * 256 + b[3]) * 256 + b[4]
  {
    var b4, b3, b2, b1 := b[..4], b[..3], b[..2], b[..1];
    assert b4[..3] == b3 && b3[..2] == b2 && b2[..1] == b1 && b1[..0] == [];
    assert FromBE(b1) == b[0];
    assert FromBE(b2) == FromBE(b1) * 256 + b[1];
    assert FromBE(b3) == FromBE(b2) * 256 + b[2];
    assert FromBE(b4) == FromBE(b3) * 256 + b[3];
  }

  lemma FromDigits8(v: seq<quint>)
    requires |v| == 8
    ensures FromDigits(v)
         == ((((((v[0] as int * 32 + v[1]) * 32 + v[2]) * 32 + v[3]) * 32 + v[4]) * 32 + v[5]) * 32 + v[6]) * 32 + v[7]
  {
    var v7, v6, v5, v4, v3, v2, v1 := v[..7], v[..6], v[..5], v[..4], v[..3], v[..2], v[..1];
    assert v7[..6] == v6 && v6[..5] == v5 && v5[..4] == v4 && v4[..3] == v3 && v3[..2] == v2 && v2[..1] == v1;
    assert FromDigits(v1) == v[0];
    assert FromDigits(v2) == FromDigits(v1) * 32 + v[1];
    assert FromDigits(v3) == FromDigits(v2) * 32 + v[2];
    assert FromDigits(v4) == FromDigits(v3) * 32 + v[3];
    assert FromDigits(v5) == FromDigits(v4) * 32 + v[4];
    assert FromDigits(v6) == FromDigits(v5) * 32 + v[5];
    assert FromDigits(v7) == FromDigits(v6) * 32 + v[6];
  }

  lemma SplitRight(b: seq<byte>)
    requires |b| == 5
    ensures FromBE(b) < Pow32(8) && ToDigits(FromBE(b), 8) == Split(b)
  {
    FortyBits();
    MergeSplit(b);
    MergeRight(Split(b));
    FromToBE(FromDigits(Split(b)), 5);
    ToFromDigits(Split(b));
  }

  lemma Low5(x: nat, q: nat, r: nat)
    requires x == 32 * q + r && r < 32
    ensures x % 32 == r
  {
  }

  lemma SplitLow(b: seq<byte>)
    requires |b| == 5
    ensures var v, b0: int, b1: int, b2: int, b3: int, b4: int := Split(b), b[0], b[1], b[2], b[3], b[4];
            && v[1] == b0 % 8 * 4 + b1 / 64 && v[3] == b1 % 2 * 16 + b2 / 16
            && v[4] == b2 % 16 * 2 + b3 / 128 && v[6] == b3 % 4 * 8 + b4 / 32
  {
    var b0: int, b1: int, b2: int, b3: int, b4: int := b[0], b[1], b[2], b[3], b[4];
    Low5(b0 * 4 + b1 / 64, b0 / 8, b0 % 8 * 4 + b1 / 64);
    Low5(b1 * 16 + b2 / 16, b1 / 2, b1 % 2 * 16 + b2 / 16);
    Low5(b2 * 2 + b3 / 128, b2 / 16, b2 % 16 * 2 + b3 / 128);
    Low5(b3 * 8 + b4 / 32, b3 / 4, b3 % 4 * 8 + b4 / 32);
  }

  lemma MidBits1(x: nat)
    requires x < 256
    ensures x == x / 64 * 64 + x / 2 % 32 * 2 + x % 2
  {
    assert x / 2 / 32 == x / 64;
  }

  lemma MidBits3(x: nat)
    requires x < 256
    ensures x == x / 128 * 128 + x / 4 % 32 * 4 + x % 4
  {
    assert x / 4 / 32 == x / 128;
  }

  /** Two digits that share a byte boundary come apart again. */
  lemma Apart(high: nat, low: nat)
    ensures low < 2 ==> (high * 2 + low) / 2 == high && (high * 2 + low) % 2 == low
    ensures low < 4 ==> (high * 4 + low) / 4 == high && (high * 4 + low) % 4 == low
    ensures low < 8 ==> (high * 8 + low) / 8 == high && (high * 8 + low) % 8 == low
    ensures low < 16 ==> (high * 16 + low) / 16 == high && (high * 16 + low) % 16 == low
  {
  }

  lemma MergeSplit(b: seq<byte>)
    requires |b| == 5
    ensures Merge(Split(b)) == b
  {
    var b0: int, b1: int, b2: int, b3: int, b4: int := b[0], b[1], b[2], b[3], b[4];
    var v := Split(b);
    SplitLow(b);
    MidBits1(b1);
    MidBits3(b3);
    Apart(b0 % 8, b1 / 64);
    Apart(b1 % 2, b2 / 16);
    Apart(b2 % 16, b3 / 128);
    Apart(b3 % 4, b4 / 32);
    assert v[0] == b0 / 8 && v[2] == b1 / 2 % 32 && v[5] == b3 / 4 % 32 && v[7] == b4 % 32;
  }

  lemma MergeRight(v: seq<quint>)
    requires |v| == 8
    ensures FromDigits(v) < Pow256(5) && ToBE(FromDigits(v), 5) == Merge(v)
  {
    FortyBits();
    FromBE5(Merge(v));
    FromDigits8(v);
    ToFromBE(Merge(v));
  }

  // ----- Groups round trip

  function Padded(b: seq<byte>): (s: seq<byte>)
    requires |b| <= 5
    ensures |s| == 5
  {
    b + seq(5 - |b|, i => 0)
  }

  lemma GroupDigits(b: seq<byte>)
    requires 1 <= |b| <= 5
    ensures var t := EncodeGroup(b);
            && (forall j | 0 <= j < 8 :: t[j] == if j < DigitsFor(|b|) then Digit(Split(Padded(b))[j]) else PAD)
            && GroupBytes(t) == |b| && Digits(t) == Split(Padded(b))
  {
    SplitRight(Padded(b));
    var t := EncodeGroup(b);
    var v := Split(Padded(b));
    forall j | 0 <= j < 8
      ensures Digits(t)[j] == v[j]
    {
      DigitRoundTrip(v[j]);
    }
    assert Shape(t, DigitsFor(|b|));
    OneShape(t, DigitsFor(|b|));
  }

  lemma OneShape(t: seq<byte>, k: nat)
    requires |t| == 8 && k <= 8 && Shape(t, k)
    ensures forall m | 0 <= m <= 8 && Shape(t, m) :: m == k
  {
    forall m | 0 <= m <= 8 && Shape(t, m)
      ensures m == k
    {
      assert m < 8 ==> !IsDigit(t[m]);
      assert k < 8 ==> !IsDigit(t[k]);
    }
  }

  /** Decoding a group undoes encoding it. */
  lemma GroupRoundTrip(b: seq<byte>)
    requires 1 <= |b| <= 5
    ensures DecodeGroup(EncodeGroup(b)) == Some(b)
  {
    FortyBits();
    GroupDigits(b);
    SplitRight(Padded(b));
    FromToDigits(FromBE(Padded(b)), 8);
    ToFromBE(Padded(b));
    assert Padded(b)[..|b|] == b;
  }

  // ----- Texts

  /** Groups of five bytes; the last may be shorter. */
  function Encode(b: seq<byte>): (t: seq<byte>)
    ensures |t| == (|b| + 4) / 5 * 8
  {
    if b == [] then []
    else if |b| <= 5 then EncodeGroup(b)
    else EncodeGroup(b[..5]) + Encode(b[5..])
  }

  /** Groups of eight characters, each decoded on its own. */
  function Decode(t: seq<byte>): (r: Option<seq<byte>>)
  {
    if t == [] then Some([])
    else if |t| < 8 then None
    else
      match DecodeGroup(t[..8])
      case None => None
      case Some(b) =>
        match Decode(t[8..])
        case None => None
        case Some(rest) => Some(b + rest)
  }

  lemma {:induction false} RoundTrip(b: seq<byte>)
    ensures Decode(Encode(b)) == Some(b)
    decreases |b|
  {
    if 0 < |b| <= 5 {
      GroupRoundTrip(b);
      var t := Encode(b);
      assert t[..8] == t && t[8..] == [] && b + [] == b;
    } else if |b| > 5 {
      GroupRoundTrip(b[..5]);
      RoundTrip(b[5..]);
      var t := Encode(b);
      assert t[..8] == EncodeGroup(b[..5]) && t[8..] == Encode(b[5..]);
      assert b[..5] + b[5..] == b;
    }
  }
}
