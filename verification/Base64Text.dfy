/**
 Which characters the texts of the JSON exporter have (src/tinycbor/cbortojson.c): every six bits of
 the bytes, in order, name a character of an alphabet of sections 4 and 5 of RFC 4648, every four
 bits one of section 8; and looking the characters up again gives the bytes back.
 */
module Base64Text {
  import opened Bytes
  import opened InPlace

  const UPPER: string := "ABCDEFGHIJKLMNOPQRSTUVWXYZ"
  const LOWER: string := "abcdefghijklmnopqrstuvwxyz"
  const DIGITS: string := "0123456789"

  /** The alphabets of sections 4 and 5. */
  function Letters(a: Alphabet): (s: string)
    ensures |s| == 64
  {
    UPPER + LOWER + DIGITS + if a.Plain? then "+/" else "-_"
  }

  function Letter(a: Alphabet, d: nat): char
    requires d < 64
  {
    Letters(a)[d]
  }

  /** The alphabet of section 8, in lower case. */
  const HEX_LETTERS: string := "0123456789abcdef"

  function HexLetter(d: nat): char
    requires d < 16
  {
    HEX_LETTERS[d]
  }

  lemma HexByteIs(x: byte)
    ensures HexByte(x)[0] as char == HexLetter(x / 16) && HexByte(x)[1] as char == HexLetter(x % 16)
  {
  }

  lemma CharIs(a: Alphabet, d: nat)
    requires d < 64
    ensures Char(a, d) as char == Letter(a, d)
  {
    if d < 26 {
      UpperIs(d);
    } else if d < 52 {
      LowerIs(d - 26);
    } else if d < 62 {
      DigitIs(d - 52);
    }
  }

  lemma UpperIs(d: nat)
    requires d < 26
    ensures UPPER[d] as int == 65 + d
  {
  }

  lemma LowerIs(d: nat)
    requires d < 26
    ensures LOWER[d] as int == 97 + d
  {
  }

  lemma DigitIs(d: nat)
    requires d < 10
    ensures DIGITS[d] as int == 48 + d
  {
  }

  // ----- The characters

  /** The six bits from bit `6 * q` on, with zeros behind the last byte. */
  function SixBits(b: seq<byte>, q: nat): (v: nat)
    requires 6 * q < 8 * |b|
    ensures v < 64
  {
    var i := 6 * q / 8;
    var pair := b[i] as int * 256 + if i + 1 < |b| then b[i + 1] as int else 0;
    match q % 4
    case 0 => pair / 1024 % 64
    case 1 => pair / 16 % 64
    case 2 => pair / 64 % 64
    case _ => pair / 256 % 64
  }

  lemma TripleBits(x: nat, y: nat, z: nat)
    requires x < 256 && y < 256 && z < 256
    ensures var val := (x * 256 + y) * 256 + z;
            && val / 0x4_0000 % 64 == (x * 256 + y) / 1024 % 64 && val / 0x1000 % 64 == (x * 256 + y) / 16 % 64
            && val / 64 % 64 == (y * 256 + z) / 64 % 64 && val % 64 == z % 64
  {
    TripleHigh(x, y, z);
    TripleLow(x, y, z);
  }

  lemma TripleHigh(x: nat, y: nat, z: nat)
    requires x < 256 && y < 256 && z < 256
    ensures var val := (x * 256 + y) * 256 + z;
            val / 0x4_0000 == (x * 256 + y) / 1024 && val / 0x1000 == (x * 256 + y) / 16
  {
  }

  lemma TripleLow(x: nat, y: nat, z: nat)
    requires x < 256 && y < 256 && z < 256
    ensures var val := (x * 256 + y) * 256 + z;
            val / 64 % 64 == (y * 256 + z) / 64 % 64 && val % 64 == z % 64
  {
    var val := (x * 256 + y) * 256 + z;
    assert val / 64 == x * 1024 + (y * 256 + z) / 64;
  }

  /** The characters of one group. */
  lemma GroupIs(a: Alphabet, g: seq<byte>, j: nat)
    requires 1 <= |g| <= 3 && j < |GroupText(a, g)|
    ensures GroupText(a, g)[j] as char == if 6 * j < 8 * |g| then Letter(a, SixBits(g, j)) else '='
  {
    hide Letter, Char, GroupText;
    CodeGroup(a, g, 0);
    var p := g + Zeros(3 - |g|);
    TripleBits(p[0], p[1], p[2]);
    var val := (p[0] as int * 256 + p[1]) * 256 + p[2];
    CodeLetters(a, val);
    if 6 * j < 8 * |g| {
      GroupBits(g, j);
    }
  }

  lemma CodeLetters(a: Alphabet, val: nat)
    ensures var t := CodeChars(a, val);
            && t[0] as char == Letter(a, val / 0x4_0000 % 64) && t[1] as char == Letter(a, val / 0x1000 % 64)
            && t[2] as char == Letter(a, val / 64 % 64) && t[3] as char == Letter(a, val % 64)
  {
    hide Letter, Char;
    CharIs(a, val / 0x4_0000 % 64);
    CharIs(a, val / 0x1000 % 64);
    CharIs(a, val / 64 % 64);
    CharIs(a, val % 64);
  }

  lemma GroupBits(g: seq<byte>, j: nat)
    requires 1 <= |g| <= 3 && j < 4 && 6 * j < 8 * |g|
    ensures var p := g + Zeros(3 - |g|);
            SixBits(g, j) ==
            match j {
              case 0 => (p[0] as int * 256 + p[1]) / 1024 % 64
              case 1 => (p[0] as int * 256 + p[1]) / 16 % 64
              case 2 => (p[1] as int * 256 + p[2]) / 64 % 64
              case _ => p[2] % 64 }
  {
  }

  function Length(a: Alphabet, n: nat): nat {
    if a.Plain? then (n + 2) / 3 * 4 else (8 * n + 5) / 6
  }

  lemma SixBitsLater(b: seq<byte>, q: nat)
    requires |b| > 3 && q >= 4
    ensures 6 * q < 8 * |b| <==> 6 * (q - 4) < 8 * |b[3..]|
    ensures 6 * q < 8 * |b| ==> SixBits(b, q) == SixBits(b[3..], q - 4)
  {
    assert 6 * q / 8 == 3 + 6 * (q - 4) / 8 && q % 4 == (q - 4) % 4;
  }

  lemma SixBitsFirst(b: seq<byte>, q: nat)
    requires |b| > 3 && q < 4
    ensures SixBits(b, q) == SixBits(b[..3], q)
  {
  }

  /** Every character of every text. */
  lemma {:induction false} Base64Is(a: Alphabet, b: seq<byte>, q: nat)
    requires q < |Base64(a, b)|
    ensures Base64(a, b)[q] as char == if 6 * q < 8 * |b| then Letter(a, SixBits(b, q)) else '='
    decreases |b|
  {
    hide Letter, SixBits, GroupText;
    if |b| <= 3 {
      GroupIs(a, b, q);
    } else if q < 4 {
      GroupIs(a, b[..3], q);
      SixBitsFirst(b, q);
    } else {
      Base64Is(a, b[3..], q - 4);
      SixBitsLater(b, q);
    }
  }

  /** Padded, a text has four characters for every three bytes; unpadded, one for every six bits. */
  lemma {:induction false} Base64Length(a: Alphabet, b: seq<byte>)
    ensures |Base64(a, b)| == Length(a, |b|)
    decreases |b|
  {
    hide GroupText;
    if |b| > 3 {
      Base64Length(a, b[3..]);
    }
  }

  /** Every character of a base16 text. */
  lemma {:induction false} HexIs(b: seq<byte>, i: nat)
    requires i < |b|
    ensures |Hex(b)| == 2 * |b|
    ensures Hex(b)[2 * i] as char == HexLetter(b[i] / 16) && Hex(b)[2 * i + 1] as char == HexLetter(b[i] % 16)
  {
    hide HexByte, HexLetter;
    HexByteIs(b[0]);
    if i > 0 {
      HexIs(b[1..], i - 1);
      assert Hex(b)[2 * i] == Hex(b[1..])[2 * (i - 1)] && Hex(b)[2 * i + 1] == Hex(b[1..])[2 * (i - 1) + 1];
    }
  }

  // ----- Looking the characters up again

  /** Where a character first stands in a string. */
  function Place(s: string, c: char): (p: nat)
    ensures p <= |s| && (p < |s| ==> s[p] == c)
  {
    if s == "" || s[0] == c then 0 else 1 + Place(s[1..], c)
  }

  lemma {:induction false} PlaceIs(s: string, i: nat)
    requires i < |s| && forall j | 0 <= j < i :: s[j] != s[i]
    ensures Place(s, s[i]) == i
  {
    if i > 0 {
      PlaceIs(s[1..], i - 1);
    }
  }

  lemma LettersDiffer(a: Alphabet, d: nat)
    requires d < 64
    ensures Place(Letters(a), Letter(a, d)) == d && Letter(a, d) != '='
  {
    hide Letters;
    CharIs(a, d);
    forall e | 0 <= e < d
      ensures Letters(a)[e] != Letters(a)[d]
    {
      CharIs(a, e);
    }
    PlaceIs(Letters(a), d);
  }

  /** The text without the '=' it ends with. */
  function Unpadded(t: seq<byte>): (s: seq<byte>)
    ensures |s| <= |t|
  {
    if t != [] && t[|t| - 1] as char == '=' then Unpadded(t[..|t| - 1]) else t
  }

  /** Two to four digits of six bits spell one to three bytes. */
  function Spell(v: seq<nat>): seq<byte>
    requires forall j | 0 <= j < |v| :: v[j] < 64
  {
    if |v| == 4 then [v[0] * 4 + v[1] / 16, v[1] % 16 * 16 + v[2] / 4, v[2] % 4 * 64 + v[3]]
    else if |v| == 3 then [v[0] * 4 + v[1] / 16, v[1] % 16 * 16 + v[2] / 4]
    else if |v| == 2 then [v[0] * 4 + v[1] / 16]
    else []
  }

  function Digits(a: Alphabet, t: seq<byte>): (v: seq<nat>)
    ensures |v| == |t| && forall j | 0 <= j < |v| :: v[j] < 64
  {
    seq(|t|, j requires 0 <= j < |t| => var p := Place(Letters(a), t[j] as char); if p < 64 then p else 0)
  }

  /** A decoder that takes four characters at a time. */
  function Decode(a: Alphabet, t: seq<byte>): seq<byte> {
    if |t| <= 4 then Spell(Digits(a, Unpadded(t)))
    else Spell(Digits(a, Unpadded(t[..4]))) + Decode(a, t[4..])
  }

  /** The digits of a group are its bits in sixes. */
  lemma GroupDigits(a: Alphabet, g: seq<byte>)
    requires 1 <= |g| <= 3
    ensures var v := Digits(a, Unpadded(GroupText(a, g)));
            |v| == |g| + 1 && forall j | 0 <= j <= |g| :: 6 * j < 8 * |g| && v[j] == SixBits(g, j)
  {
    hide Letters, Letter, SixBits, GroupText;
    var t := GroupText(a, g);
    forall j | 0 <= j < |t|
      ensures t[j] as char == if j <= |g| then Letter(a, SixBits(g, j)) else '='
      ensures j <= |g| ==> t[j] as char != '=' && Place(Letters(a), t[j] as char) == SixBits(g, j)
    {
      GroupIs(a, g, j);
      if j <= |g| {
        LettersDiffer(a, SixBits(g, j));
      }
    }
    UnpaddedIs(t, |g| + 1);
  }

  lemma {:induction false} UnpaddedIs(t: seq<byte>, k: nat)
    requires 0 < k <= |t| && t[k - 1] as char != '=' && forall j | k <= j < |t| :: t[j] as char == '='
    ensures Unpadded(t) == t[..k]
    decreases |t|
  {
    if k < |t| {
      UnpaddedIs(t[..|t| - 1], k);
      assert t[..|t| - 1][..k] == t[..k];
    } else {
      assert t[..k] == t;
    }
  }

  lemma SpellIs(g: seq<byte>, v: seq<nat>)
    requires 1 <= |g| <= 3 && |v| == |g| + 1
    requires forall j | 0 <= j <= |g| :: 6 * j < 8 * |g| && v[j] == SixBits(g, j)
    ensures (forall j | 0 <= j < |v| :: v[j] < 64) && Spell(v) == g
  {
    assert v[0] == SixBits(g, 0) && v[1] == SixBits(g, 1);
    var x, y, z := g[0] as int, if |g| > 1 then g[1] as int else 0, if |g| > 2 then g[2] as int else 0;
    Joined(x, y, z);
    if |g| >= 2 {
      assert v[2] == SixBits(g, 2);
    }
    if |g| == 3 {
      assert v[3] == SixBits(g, 3);
    }
  }

  lemma Joined(x: nat, y: nat, z: nat)
    requires x < 256 && y < 256 && z < 256
    ensures (x * 256 + y) / 1024 % 64 == x / 4 && (x * 256 + y) / 16 % 64 == x % 4 * 16 + y / 16
    ensures (y * 256 + z) / 64 % 64 == y % 16 * 4 + z / 64
    ensures x == x / 4 * 4 + (x % 4 * 16 + y / 16) / 16
    ensures y == (x % 4 * 16 + y / 16) % 16 * 16 + (y % 16 * 4 + z / 64) / 4
    ensures z == (y % 16 * 4 + z / 64) % 4 * 64 + z % 64
  {
    assert (x * 256 + y) / 1024 == x / 4 && (x * 256 + y) / 16 == x * 16 + y / 16;
    assert (y * 256 + z) / 64 == y * 4 + z / 64;
  }

  /** The decoder gives the bytes back, from padded and from unpadded texts. */
  lemma {:induction false} Base64Back(a: Alphabet, b: seq<byte>)
    ensures Decode(a, Base64(a, b)) == b
    decreases |b|
  {
    hide GroupText, SixBits, Letters;
    if b == [] {
      assert Unpadded([]) == [];
    } else if |b| <= 3 {
      GroupDigits(a, b);
      SpellIs(b, Digits(a, Unpadded(GroupText(a, b))));
    } else {
      var g, rest := b[..3], Base64(a, b[3..]);
      GroupDigits(a, g);
      SpellIs(g, Digits(a, Unpadded(GroupText(a, g))));
      Base64Back(a, b[3..]);
      Base64Length(a, b[3..]);
      assert (GroupText(a, g) + rest)[..4] == GroupText(a, g) && (GroupText(a, g) + rest)[4..] == rest;
      assert g + b[3..] == b;
    }
  }

  function UnHex(t: seq<byte>): seq<byte> {
    if |t| < 2 then []
    else
      var x, y := HexPlace(t[0]), HexPlace(t[1]);
      [if x < 16 && y < 16 then x * 16 + y else 0] + UnHex(t[2..])
  }

  function HexPlace(c: byte): nat {
    Place(HEX_LETTERS, c as char)
  }

  lemma HexPlaceIs(d: nat, c: byte)
    requires d < 16 && c as char == HexLetter(d)
    ensures HexPlace(c) == d
  {
    PlaceIs(HEX_LETTERS, d);
  }

  /** Looking hexadecimal digits up gives the bytes back. */
  lemma {:induction false} HexBack(b: seq<byte>)
    ensures UnHex(Hex(b)) == b
  {
    hide HexByte, HexLetter, HexPlace;
    if b != [] {
      HexByteIs(b[0]);
      HexPlaceIs(b[0] / 16, Hex(b)[0]);
      HexPlaceIs(b[0] % 16, Hex(b)[1]);
      HexBack(b[1..]);
      assert Hex(b)[2..] == Hex(b[1..]);
      assert [b[0]] + b[1..] == b;
    }
  }
}
