/**
 Which characters a base32 text has: every five bits of the bytes, in order, name a character of the
 alphabet of section 6 of RFC 4648, and '=' fills up the last group (src/encoding/base32.c).
 */
module Base32Text {
  import opened Bytes
  import opened Wrappers
  import opened Base32
  import opened Base32Codec
  import opened Base32Stream

  const ALPHABET: string := "ABCDEFGHIJKLMNOPQRSTUVWXYZ234567"

  function Letter(v: nat): char
    requires v < 32
  {
    ALPHABET[v]
  }

  lemma DigitIs(v: nat)
    requires v < 32
    ensures Digit(v) as char == Letter(v)
  {
  }

  lemma ValueRoundTrip(c: byte)
    ensures DigitValue(c) >= 0 ==> Digit(DigitValue(c)) == c
  {
  }

  /** The decoding table is the alphabet read backwards. */
  lemma DigitValueIs(c: byte)
    ensures DigitValue(c) >= 0 ==> Letter(DigitValue(c)) == c as char
    ensures forall v | 0 <= v < 32 :: Letter(v) == c as char <==> DigitValue(c) == v
    ensures IsDigit(c) <==> exists v | 0 <= v < 32 :: Letter(v) == c as char
  {
    hide Letter, Digit, DigitValue;
    forall v | 0 <= v < 32
      ensures Letter(v) == c as char <==> DigitValue(c) == v
    {
      DigitIs(v);
      DigitRoundTrip(v);
      ValueRoundTrip(c);
    }
  }

  // ----- Encoding

  /** What is left of sixteen bits behind `offset` and five more. */
  function Divisor(offset: nat): nat {
    match offset
    case 0 => 2048
    case 1 => 1024
    case 2 => 512
    case 3 => 256
    case 4 => 128
    case 5 => 64
    case 6 => 32
    case _ => 16
  }

  /** The five bits from bit `5 * q` on, with zeros behind the last byte. */
  function FiveBits(b: seq<byte>, q: nat): (v: nat)
    requires 5 * q < 8 * |b|
    ensures v < 32
  {
    var i := 5 * q / 8;
    var pair := b[i] as int * 256 + if i + 1 < |b| then b[i + 1] as int else 0;
    pair / Divisor(5 * q % 8) % 32
  }

  /** Five bits of two bytes, by shifts. */
  lemma PairBits(x: nat, y: nat)
    requires x < 256 && y < 256
    ensures var pair := x * 256 + y;
            && pair / 2048 == x / 8 && pair / 1024 == x / 4 && pair / 512 == x / 2 && pair / 256 == x
            && pair / 128 == x * 2 + y / 128 && pair / 64 == x * 4 + y / 64
            && pair / 32 == x * 8 + y / 32 && pair / 16 == x * 16 + y / 16
  {
  }

  lemma CodeCharIs(g: seq<byte>, j: nat)
    requires |g| >= 1 && j < 8
    ensures CodeChar(g, j) == if 5 * j < 8 * |g| then Digit(FiveBits(g, j)) else '=' as int
  {
    if j < 4 {
      CodeCharLow(g, j);
    } else {
      CodeCharHigh(g, j);
    }
  }

  lemma CodeCharLow(g: seq<byte>, j: nat)
    requires |g| >= 1 && j < 4
    ensures CodeChar(g, j) == if 5 * j < 8 * |g| then Digit(FiveBits(g, j)) else '=' as int
  {
    hide Digit;
    var i := 5 * j / 8;
    if i < |g| {
      PairBits(g[i], if i + 1 < |g| then g[i + 1] else 0);
    }
  }

  lemma CodeCharHigh(g: seq<byte>, j: nat)
    requires |g| >= 1 && 4 <= j < 8
    ensures CodeChar(g, j) == if 5 * j < 8 * |g| then Digit(FiveBits(g, j)) else '=' as int
  {
    hide Digit;
    var i := 5 * j / 8;
    if i < |g| {
      PairBits(g[i], if i + 1 < |g| then g[i + 1] else 0);
    }
  }

  lemma FiveBitsLater(b: seq<byte>, k: nat, j: nat)
    requires 5 * k < |b| && j < 8
    ensures 5 * (8 * k + j) < 8 * |b| <==> 5 * j < 8 * |b[5 * k..]|
    ensures 5 * j < 8 * |b[5 * k..]| ==> FiveBits(b, 8 * k + j) == FiveBits(b[5 * k..], j)
  {
    assert 5 * (8 * k + j) == 8 * (5 * k) + 5 * j;
    assert 5 * (8 * k + j) / 8 == 5 * k + 5 * j / 8 && 5 * (8 * k + j) % 8 == 5 * j % 8;
  }

  lemma GroupOf(n: nat, q: nat)
    requires q < (n + 4) / 5 * 8
    ensures 5 * (q / 8) < n && 8 * (q / 8) + q % 8 == q
  {
  }

  /** Every character of every text. */
  lemma EncodeIs(b: seq<byte>, q: nat)
    requires q < |Encode(b)|
    ensures |Encode(b)| == (|b| + 4) / 5 * 8
    ensures Encode(b)[q] as char == if 5 * q < 8 * |b| then Letter(FiveBits(b, q)) else '='
  {
    hide Letter, Digit, FiveBits, CodeChar, EncodeGroup;
    var k, j := q / 8, q % 8;
    GroupOf(|b|, q);
    EncodeGroupAt(b, k, j);
    CodeCharRight(b, 5 * k, j);
    CodeCharIs(b[5 * k..], j);
    FiveBitsLater(b, k, j);
    if 5 * q < 8 * |b| {
      DigitIs(FiveBits(b, q));
    }
  }

  /** The letter "f" of section 10 of RFC 4648. */
  lemma LetterF()
    ensures var t := Encode([0x66]);
            && |t| == 8 && t[0] as char == 'M' && t[1] as char == 'Y'
            && forall q | 2 <= q < 8 :: t[q] as char == '='
  {
    hide FiveBits, Letter;
    var b := [0x66];
    EncodeIs(b, 0);
    EncodeIs(b, 1);
    BitsOfF();
    forall q | 2 <= q < 8
      ensures Encode(b)[q] as char == '='
    {
      EncodeIs(b, q);
    }
  }

  lemma BitsOfF()
    ensures FiveBits([0x66], 0) == 12 && FiveBits([0x66], 1) == 24 && Letter(12) == 'M' && Letter(24) == 'Y'
  {
  }

  // ----- Decoding

  ghost predicate InAlphabet(c: byte) {
    exists v | 0 <= v < 32 :: Letter(v) == c as char
  }

  /** A group: `k` characters of the alphabet and then '='. */
  ghost predicate IsGroup(t: seq<byte>, k: nat)
    requires |t| == 8
  {
    && (k == 2 || k == 4 || k == 5 || k == 7 || k == 8)
    && (forall j | 0 <= j < k :: InAlphabet(t[j]))
    && (forall j | k <= j < 8 :: t[j] as char == '=')
  }

  /** Eight characters decode exactly if they are a group, */
  lemma DecodeGroupIff(t: seq<byte>)
    requires |t| == 8
    ensures DecodeGroup(t).Some? <==> exists k :: IsGroup(t, k)
  {
    forall j | 0 <= j < 8
      ensures IsDigit(t[j]) <==> InAlphabet(t[j])
    {
      DigitValueIs(t[j]);
    }
    hide InAlphabet;
    assert IsGroup(t, 2) <==> Shape(t, 2);
    assert IsGroup(t, 4) <==> Shape(t, 4);
    assert IsGroup(t, 5) <==> Shape(t, 5);
    assert IsGroup(t, 7) <==> Shape(t, 7);
    assert IsGroup(t, 8) <==> Shape(t, 8);
    if DecodeGroup(t).Some? {
      assert IsGroup(t, DigitsFor(GroupBytes(t)));
    }
  }

  lemma PadIsNone()
    ensures !IsDigit('=' as int)
  {
  }

  /** and then to the bytes that the places of the characters spell, '=' counting as nothing. */
  lemma DecodeGroupIs(t: seq<byte>, v: seq<nat>, r: nat, k: nat)
    requires |t| == 8 && |v| == 8 && 1 <= r <= 5 && k == [2, 4, 5, 7, 8][r - 1]
    requires forall j | 0 <= j < 8 :: v[j] < 32 && (j >= k ==> v[j] == 0)
    requires forall j | 0 <= j < 8 :: t[j] as char == if j < k then Letter(v[j]) else '='
    ensures DecodeGroup(t).Some? && |DecodeGroup(t).value| == r
    ensures DecodeGroup(t).value ==
            [v[0] * 8 + v[1] / 4, v[1] % 4 * 64 + v[2] * 2 + v[3] / 16, v[3] % 16 * 16 + v[4] / 2,
             v[4] % 2 * 128 + v[5] * 4 + v[6] / 8, v[6] % 8 * 32 + v[7]][..r]
  {
    hide Letter, DigitValue;
    forall j | 0 <= j < 8
      ensures Digits(t)[j] == v[j] && (j < k ==> IsDigit(t[j]))
    {
      DigitValueIs(t[j]);
      PadIsNone();
    }
    assert k == DigitsFor(r) && Shape(t, k);
    GroupIs(t, r);
    MergeBytes(t);
  }

  /** A text is decoded group by group, padding inside it included. */
  lemma {:induction false} DecodeConcat(a: seq<byte>, b: seq<byte>)
    requires |a| % 8 == 0
    ensures Decode(a + b) ==
            if Decode(a).Some? && Decode(b).Some? then Some(Decode(a).value + Decode(b).value) else None
    decreases |a|
  {
    if a == [] {
      assert a + b == b && (Decode(b).Some? ==> [] + Decode(b).value == Decode(b).value);
    } else {
      DecodeConcat(a[8..], b);
      assert (a + b)[..8] == a[..8] && (a + b)[8..] == a[8..] + b;
      if DecodeGroup(a[..8]).Some? && Decode(a[8..]).Some? && Decode(b).Some? {
        Associative(DecodeGroup(a[..8]).value, Decode(a[8..]).value, Decode(b).value);
      }
    }
  }

  lemma DecodeBase(t: seq<byte>)
    ensures |t| == 8 ==> Decode(t) == DecodeGroup(t)
    ensures |t| == 0 ==> Decode(t) == Some([])
  {
    hide DecodeGroup;
    if |t| == 8 {
      assert t[..8] == t && t[8..] == [] && Decode(t[8..]) == Some([]);
      assert DecodeGroup(t).Some? ==> DecodeGroup(t).value + [] == DecodeGroup(t).value;
    }
  }

  lemma {:induction false} DecodeWholeGroups(t: seq<byte>)
    ensures |t| % 8 != 0 ==> Decode(t) == None
    decreases |t|
  {
    hide DecodeGroup;
    if |t| >= 8 {
      DecodeWholeGroups(t[8..]);
    }
  }

  /** The only characters that are skipped are newlines. */
  lemma TextIs(c: byte)
    ensures Text([c]) == if c as char == '\n' then [] else [c]
  {
    assert Text([c]) == NoNewline(c) + Text([]);
  }
}
