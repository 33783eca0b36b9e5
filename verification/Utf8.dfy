/** The UTF-8 decoder (include/tinycbor/utf8_p.h), against section 3 and the grammar of section 4 of RFC 3629. */
module Utf8 {
  import opened Bytes

  predicate Scalar(cp: int) {
    0 <= cp < 0xd800 || 0xe000 <= cp <= 0x10ffff
  }

  /** The encoding of one code point. */
  function EncodeCp(cp: int): (t: seq<byte>)
    requires Scalar(cp)
    ensures 1 <= |t| <= 4
  {
    if cp < 0x80 then [cp]
    else if cp < 0x800 then [0xc0 + cp / 64, 0x80 + cp % 64]
    else if cp < 0x1_0000 then [0xe0 + cp / 4096, 0x80 + cp / 64 % 64, 0x80 + cp % 64]
    else [0xf0 + cp / 0x4_0000, 0x80 + cp / 4096 % 64, 0x80 + cp / 64 % 64, 0x80 + cp % 64]
  }

  predicate AllScalar(cps: seq<int>) {
    forall i | 0 <= i < |cps| :: Scalar(cps[i])
  }

  function EncodeAll(cps: seq<int>): seq<byte>
    requires AllScalar(cps)
  {
    if cps == [] then [] else EncodeCp(cps[0]) + EncodeAll(cps[1..])
  }

  /** A string is UTF-8 when it is the encoding of some code points. */
  ghost predicate Utf8Text(s: seq<byte>) {
    exists cps :: AllScalar(cps) && s == EncodeAll(cps)
  }

  // ----- The grammar of section 4

  predicate Tail(b: byte) { 0x80 <= b <= 0xbf }

  /** UTF8-char of section 4 of RFC 3629. */
  predicate Utf8Char(t: seq<byte>) {
    match |t|
    case 1 => t[0] <= 0x7f
    case 2 => 0xc2 <= t[0] <= 0xdf && Tail(t[1])
    case 3 =>
      Tail(t[2]) && (
        || (t[0] == 0xe0 && 0xa0 <= t[1] <= 0xbf)
        || (0xe1 <= t[0] <= 0xec && Tail(t[1]))
        || (t[0] == 0xed && 0x80 <= t[1] <= 0x9f)
        || (0xee <= t[0] <= 0xef && Tail(t[1])))
    case 4 =>
      Tail(t[2]) && Tail(t[3]) && (
        || (t[0] == 0xf0 && 0x90 <= t[1] <= 0xbf)
        || (0xf1 <= t[0] <= 0xf3 && Tail(t[1]))
        || (t[0] == 0xf4 && 0x80 <= t[1] <= 0x8f))
    case _ => false
  }

  /** Shift in the six low bits of a continuation byte. */
  function Join(uc: nat, b: byte): (r: nat)
    ensures r / 64 == uc && r % 64 == b % 64
  {
    uc * 64 + b % 64
  }

  /** The bits of a sequence of two to four bytes, put together. */
  function Bits(t: seq<byte>): nat
    requires 2 <= |t| <= 4
  {
    if |t| == 2 then Join(t[0] % 32, t[1])
    else if |t| == 3 then Join(Join(t[0] % 16, t[1]), t[2])
    else Join(Join(Join(t[0] % 8, t[1]), t[2]), t[3])
  }

  /** The length a lead byte calls for; 0 if no sequence starts with it. */
  function Need(b: byte): nat {
    if b < 0x80 then 1
    else if b < 0xc2 then 0
    else if b < 0xe0 then 2
    else if b < 0xf0 then 3
    else if b < 0xf5 then 4
    else 0
  }

  lemma Chars2(t: seq<byte>)
    requires |t| == 2 && Need(t[0]) == 2
    ensures Utf8Char(t) <==> Tail(t[1])
    ensures Utf8Char(t) ==> 0x80 <= Bits(t) < 0x800 && EncodeCp(Bits(t)) == t
  {
  }

  lemma Chars3(t: seq<byte>)
    requires |t| == 3 && Need(t[0]) == 3
    ensures Utf8Char(t) <==> Tail(t[1]) && Tail(t[2]) && 0x800 <= Bits(t) && Scalar(Bits(t))
    ensures Utf8Char(t) ==> Bits(t) < 0x1_0000 && EncodeCp(Bits(t)) == t
  {
    if Tail(t[1]) && Tail(t[2]) {
      Sum3(t);
      Places4(0, t[0] as int - 0xe0, t[1] as int - 0x80, t[2] as int - 0x80);
      hide Bits;
    }
  }

  lemma Sum3(t: seq<byte>)
    requires |t| == 3 && Need(t[0]) == 3 && Tail(t[1]) && Tail(t[2])
    ensures Bits(t) == (t[0] as int - 0xe0) * 0x1000 + (t[1] as int - 0x80) * 64 + (t[2] as int - 0x80)
  {
    Low6(t[1]);
    Low6(t[2]);
    assert t[0] % 16 == t[0] - 0xe0;
  }

  lemma Chars4(t: seq<byte>)
    requires |t| == 4 && Need(t[0]) == 4
    ensures Utf8Char(t) <==> Tail(t[1]) && Tail(t[2]) && Tail(t[3]) && 0x1_0000 <= Bits(t) && Scalar(Bits(t))
    ensures Utf8Char(t) ==> EncodeCp(Bits(t)) == t
  {
    Range4(t);
    if Utf8Char(t) {
      Encode4(t);
    }
  }

  /** With continuation bytes in place, the bits are a sum. */
  lemma Sum4(t: seq<byte>)
    requires |t| == 4 && Need(t[0]) == 4 && Tail(t[1]) && Tail(t[2]) && Tail(t[3])
    ensures Bits(t) == (t[0] as int - 0xf0) * 0x4_0000 + (t[1] as int - 0x80) * 0x1000
                     + (t[2] as int - 0x80) * 64 + (t[3] as int - 0x80)
  {
    Low6(t[1]);
    Low6(t[2]);
    Low6(t[3]);
    assert t[0] % 8 == t[0] - 0xf0;
  }

  lemma Low6(b: byte)
    requires Tail(b)
    ensures b % 64 == b - 0x80
  {
  }

  lemma Range4(t: seq<byte>)
    requires |t| == 4 && Need(t[0]) == 4
    ensures Utf8Char(t) <==> Tail(t[1]) && Tail(t[2]) && Tail(t[3]) && 0x1_0000 <= Bits(t) && Scalar(Bits(t))
  {
    if Tail(t[1]) && Tail(t[2]) && Tail(t[3]) {
      Sum4(t);
      hide Bits;
    }
  }

  lemma Encode4(t: seq<byte>)
    requires |t| == 4 && Need(t[0]) == 4 && Tail(t[1]) && Tail(t[2]) && Tail(t[3]) && 0x1_0000 <= Bits(t) <= 0x10ffff
    ensures EncodeCp(Bits(t)) == t
  {
    hide Bits;
    Sum4(t);
    Places4(t[0] as int - 0xf0, t[1] as int - 0x80, t[2] as int - 0x80, t[3] as int - 0x80);
  }

  lemma Places4(x: nat, y: nat, z: nat, w: nat)
    requires y < 64 && z < 64 && w < 64
    ensures var cp := x * 0x4_0000 + y * 0x1000 + z * 64 + w;
            cp / 0x4_0000 == x && cp / 0x1000 % 64 == y && cp / 64 % 64 == z && cp % 64 == w
  {
    var cp := x * 0x4_0000 + y * 0x1000 + z * 64 + w;
    assert cp / 0x1000 == x * 64 + y;
    assert cp / 64 == (x * 64 + y) * 64 + z;
  }

  lemma LengthIsNeed(s: seq<byte>, p: nat)
    requires p < |s|
    ensures forall e | p < e <= |s| :: Utf8Char(s[p..e]) ==> e == p + Need(s[p])
  {
    forall e | p < e <= |s| && Utf8Char(s[p..e])
      ensures e == p + Need(s[p])
    {
      assert s[p..e][0] == s[p];
    }
  }

  /** Every sequence of the grammar is the encoding of the code point its bits spell ... */
  lemma CharIsEncode(t: seq<byte>)
    requires Utf8Char(t)
    ensures var cp := if |t| == 1 then t[0] else Bits(t); Scalar(cp) && EncodeCp(cp) == t
  {
    match |t|
    case 2 => Chars2(t);
    case 3 => Chars3(t);
    case 4 => Chars4(t);
    case _ =>
  }

  /** ... and every code point's encoding is a sequence of the grammar. */
  lemma EncodeIsChar(cp: int)
    requires Scalar(cp)
    ensures Utf8Char(EncodeCp(cp))
    ensures |EncodeCp(cp)| >= 2 ==> Bits(EncodeCp(cp)) == cp
  {
    var t := EncodeCp(cp);
    if |t| == 2 {
      Chars2(t);
    } else if |t| == 3 {
      Bits3(cp);
      Chars3(t);
    } else if |t| == 4 {
      Bits4(cp);
      Chars4(t);
    }
  }

  lemma Bits3(cp: int)
    requires 0x800 <= cp < 0x1_0000 && Scalar(cp)
    ensures Bits(EncodeCp(cp)) == cp
  {
    var t := EncodeCp(cp);
    assert Join(t[0] % 16, t[1]) == cp / 64;
  }

  lemma Bits4(cp: int)
    requires 0x1_0000 <= cp <= 0x10ffff
    ensures Bits(EncodeCp(cp)) == cp
  {
    var t := EncodeCp(cp);
    Sixes(cp);
    assert Join(t[0] % 8, t[1]) == cp / 4096;
    assert Join(cp / 4096, t[2]) == cp / 64;
  }

  lemma Sixes(cp: nat)
    ensures cp / 64 / 64 == cp / 4096 && cp / 4096 / 64 == cp / 0x4_0000
    ensures cp / 64 * 64 + cp % 64 == cp
    ensures cp / 4096 * 64 + cp / 64 % 64 == cp / 64 && cp / 0x4_0000 * 64 + cp / 4096 % 64 == cp / 4096
  {
  }

  // ----- The decoder

  const FAILED: int := 0xffff_ffff

  /** `get_utf8`: one code point, or `FAILED`; the position moves past the bytes looked at. */
  method GetUtf8(s: seq<byte>, p: nat) returns (uc: nat, next: nat)
    requires p <= |s|
    ensures p <= next <= |s|
    ensures uc != FAILED ==> Scalar(uc) && p + |EncodeCp(uc)| == next && s[p..next] == EncodeCp(uc)
    ensures uc == FAILED ==> forall e | p < e <= |s| :: !Utf8Char(s[p..e])
  {
    var n := |s| - p;
    if n == 0 {
      return FAILED, p;
    }
    LengthIsNeed(s, p);
    uc, next := s[p], p + 1;
    if uc < 0x80 {
      assert s[p..next] == [uc];
      return;
    }
    if uc <= 0xc1 {
      return FAILED, next;
    }
    var charsNeeded, minUc;
    if uc < 0xe0 {
      charsNeeded, minUc, uc := 2, 0x80, uc % 32;
    } else if uc < 0xf0 {
      charsNeeded, minUc, uc := 3, 0x800, uc % 16;
    } else if uc < 0xf5 {
      charsNeeded, minUc, uc := 4, 0x1_0000, uc % 8;
    } else {
      return FAILED, next;
    }
    if n < charsNeeded {
      return FAILED, next;
    }
    CharTest(s, p, charsNeeded);
    hide Utf8Char, Bits, EncodeCp;
    var ok;
    ok, uc, next := Continuations(s, p, charsNeeded, uc);
    if !ok {
      return FAILED, next;
    }
    Surrogates(uc);
    if uc < minUc || (uc - 0xd800) % TWO_32 < 2048 || uc > 0x10ffff {
      return FAILED, next;
    }
  }

  function Smallest(n: nat): nat {
    if n == 2 then 0x80 else if n == 3 then 0x800 else 0x1_0000
  }

  /** What makes the bytes a lead byte asks for a sequence of the grammar. */
  lemma CharTest(s: seq<byte>, p: nat, n: nat)
    requires 2 <= n <= 4 && p + n <= |s| && Need(s[p]) == n
    ensures var t := s[p..p + n];
            && (Utf8Char(t) <==> (forall i | p < i < p + n :: Tail(s[i])) && Smallest(n) <= Bits(t) && Scalar(Bits(t)))
            && (Utf8Char(t) ==> EncodeCp(Bits(t)) == t)
  {
    var t := s[p..p + n];
    assert forall i | 0 <= i < n :: t[i] == s[p + i];
    assert (forall i | p < i < p + n :: Tail(s[i])) <==> (forall i | 0 < i < n :: Tail(t[i])) by {
      assert forall i | p < i < p + n :: s[i] == t[i - p];
    }
    hide Bits, EncodeCp;
    if n == 2 { Chars2(t); } else if n == 3 { Chars3(t); } else { Chars4(t); }
  }

  /** The continuation bytes of `get_utf8`. */
  method Continuations(s: seq<byte>, p: nat, charsNeeded: nat, lead: nat) returns (ok: bool, uc: nat, next: nat)
    requires 2 <= charsNeeded <= 4 && p + charsNeeded <= |s|
    requires lead == s[p] % (if charsNeeded == 2 then 32 else if charsNeeded == 3 then 16 else 8)
    ensures p < next <= |s|
    ensures ok <==> forall i | p < i < p + charsNeeded :: Tail(s[i])
    ensures ok ==> next == p + charsNeeded && uc == Bits(s[p..next]) && uc < TWO_32
  {
    uc := lead;
    var b := s[p + 1];
    next := p + 2;
    if b / 64 != 2 {
      return false, uc, next;
    }
    uc := Join(uc, b);
    if charsNeeded > 2 {
      b := s[next];
      next := next + 1;
      if b / 64 != 2 {
        return false, uc, next;
      }
      uc := Join(uc, b);
      if charsNeeded > 3 {
        b := s[next];
        next := next + 1;
        if b / 64 != 2 {
          return false, uc, next;
        }
        uc := Join(uc, b);
      }
    }
    ok := true;
  }

  /** The unsigned subtraction wraps round below the surrogates. */
  lemma Surrogates(uc: nat)
    requires uc < TWO_32
    ensures (uc - 0xd800) % TWO_32 < 2048 <==> 0xd800 <= uc < 0xe000
  {
  }

  /** Encodings of code points are told apart by any text they start. */
  lemma SameStart(t: seq<byte>, a: int, b: int)
    requires Scalar(a) && Scalar(b) && EncodeCp(a) <= t && EncodeCp(b) <= t
    ensures a == b
  {
    EncodeIsChar(a);
    EncodeIsChar(b);
    LengthIsNeed(t, 0);
    assert t[0..|EncodeCp(a)|] == EncodeCp(a) && t[0..|EncodeCp(b)|] == EncodeCp(b);
  }

  lemma TextStep(t: seq<byte>, cp: int)
    requires Scalar(cp) && EncodeCp(cp) <= t
    ensures Utf8Text(t) <==> Utf8Text(t[|EncodeCp(cp)|..])
  {
    var n := |EncodeCp(cp)|;
    forall cps | AllScalar(cps) && t[n..] == EncodeAll(cps)
      ensures Utf8Text(t)
    {
      assert ([cp] + cps)[1..] == cps;
      assert AllScalar([cp] + cps) && t == EncodeAll([cp] + cps);
    }
    forall cps | AllScalar(cps) && t == EncodeAll(cps)
      ensures Utf8Text(t[n..])
    {
      SameStart(t, cps[0], cp);
      assert t[n..] == EncodeAll(cps[1..]);
    }
  }

  lemma NoText(t: seq<byte>)
    requires t != [] && forall e | 0 < e <= |t| :: !Utf8Char(t[..e])
    ensures !Utf8Text(t)
  {
    forall cps | AllScalar(cps)
      ensures t != EncodeAll(cps)
    {
      if cps != [] {
        EncodeIsChar(cps[0]);
        assert EncodeAll(cps)[..|EncodeCp(cps[0])|] == EncodeCp(cps[0]);
      }
    }
  }

  /** `validate_utf8_string` accepts exactly the encodings of sequences of code points. */
  method ValidateUtf8String(s: seq<byte>) returns (ok: bool)
    ensures ok <==> Utf8Text(s)
  {
    var buffer := 0;
    assert s[0..] == s;
    while buffer < |s|
      invariant 0 <= buffer <= |s|
      invariant Utf8Text(s) <==> Utf8Text(s[buffer..])
      decreases |s| - buffer
    {
      var uc, next := GetUtf8(s, buffer);
      ghost var t := s[buffer..];
      if uc == FAILED {
        assert forall e | 0 < e <= |t| :: t[..e] == s[buffer..buffer + e];
        NoText(t);
        return false;
      }
      assert t[..next - buffer] == s[buffer..next] && t[next - buffer..] == s[next..];
      TextStep(t, uc);
      buffer := next;
    }
    assert EncodeAll([]) == s[buffer..];
    return true;
  }
}
