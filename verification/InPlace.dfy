/**
 The byte string converters of the JSON exporter (src/tinycbor/cbortojson.c). The string is copied
 to the end of a buffer and turned into text from the front of that same buffer. The texts are
 those of sections 4, 5 and 8 of RFC 4648.
 */
module InPlace {
  import opened Bytes
  import opened Errors
  import opened Places
  import opened Parser
  import opened Strings
  import opened StringApi

  // ----- The texts

  const HEX: seq<byte> := [48, 49, 50, 51, 52, 53, 54, 55, 56, 57, 97, 98, 99, 100, 101, 102]

  function HexByte(x: byte): (t: seq<byte>)
    ensures |t| == 2
  {
    [HEX[x / 16], HEX[x % 16]]
  }

  function Hex(b: seq<byte>): (t: seq<byte>)
    ensures |t| == 2 * |b|
  {
    if b == [] then [] else HexByte(b[0]) + Hex(b[1..])
  }

  datatype Alphabet = Plain | Url

  /** The character of a 6-bit digit. */
  function Char(a: Alphabet, d: nat): (c: byte)
    requires d < 64
    ensures c != 0
  {
    if d < 26 then 65 + d
    else if d < 52 then 97 + (d - 26)
    else if d < 62 then 48 + (d - 52)
    else if d == 62 then (if a.Plain? then 43 else 45)
    else (if a.Plain? then 47 else 95)
  }

  /** The last `k` digits of a number in base 64. */
  function Base64Digits(n: nat, k: nat): (v: seq<nat>)
    ensures |v| == k && forall j | 0 <= j < k :: v[j] < 64
  {
    if k == 0 then [] else Base64Digits(n / 64, k - 1) + [n % 64]
  }

  function Zeros(k: nat): (s: seq<byte>)
    ensures |s| == k
  {
    seq(k, _ => 0)
  }

  function Chars(a: Alphabet, v: seq<nat>): (t: seq<byte>)
    requires forall j | 0 <= j < |v| :: v[j] < 64
    ensures |t| == |v| && 0 !in t
  {
    seq(|v|, j requires 0 <= j < |v| => Char(a, v[j]))
  }

  /** Up to three bytes are a 24-bit number, filled up with zero bits, and its digits that carry data. */
  function GroupText(a: Alphabet, g: seq<byte>): (t: seq<byte>)
    requires 1 <= |g| <= 3
    ensures 0 !in t && |t| == if a.Plain? then 4 else |g| + 1
  {
    Chars(a, Base64Digits(FromBE(g + Zeros(3 - |g|)), 4)[..|g| + 1])
      + seq(if a.Plain? then 3 - |g| else 0, _ => 61)
  }

  function Base64(a: Alphabet, b: seq<byte>): (t: seq<byte>)
    ensures 0 !in t
  {
    if b == [] then []
    else if |b| <= 3 then GroupText(a, b)
    else GroupText(a, b[..3]) + Base64(a, b[3..])
  }

  lemma {:induction false} Base64Whole(a: Alphabet, b: seq<byte>, c: seq<byte>)
    requires |b| % 3 == 0
    ensures |Base64(a, b)| == |b| / 3 * 4 && Base64(a, b + c) == Base64(a, b) + Base64(a, c)
    decreases |b|
  {
    hide GroupText;
    if b == [] {
      assert b + c == c && [] + Base64(a, c) == Base64(a, c);
    } else {
      Base64Whole(a, b[3..], c);
      OneGroup(a, b[..3], b[3..]);
      OneGroup(a, b[..3], b[3..] + c);
      assert b[..3] + b[3..] == b && b[..3] + (b[3..] + c) == b + c;
      assert |GroupText(a, b[..3])| == 4;
    }
  }

  lemma OneGroup(a: Alphabet, g: seq<byte>, c: seq<byte>)
    requires |g| == 3
    ensures Base64(a, g + c) == GroupText(a, g) + Base64(a, c)
  {
    hide GroupText;
    assert (g + c)[..3] == g && (g + c)[3..] == c;
    if c == [] {
      assert g + c == g && GroupText(a, g) + [] == GroupText(a, g);
    }
  }

  lemma {:induction false} HexConcat(b: seq<byte>, x: byte)
    ensures Hex(b + [x]) == Hex(b) + HexByte(x)
  {
    hide HexByte;
    if b == [] {
      assert b + [x] == [x] && [x][1..] == [] && [] + HexByte(x) == HexByte(x) + [];
    } else {
      HexConcat(b[1..], x);
      assert (b + [x])[1..] == b[1..] + [x];
    }
  }

  // ----- The conversions

  /** Writing two characters for every byte read never reaches a byte that is still to be read. */
  method HexInPlace(buffer: array<byte>, n: nat, ghost content: seq<byte>)
    requires |content| == n && buffer.Length == 2 * n + 1 && buffer[n..] == content + [0]
    modifies buffer
    ensures buffer[..] == Hex(content) + [0]
  {
    var i := 0;
    assert content[..0] == [] && content[0..] == content;
    while i < n
      invariant 0 <= i <= n
      invariant buffer[..2 * i] == Hex(content[..i]) && buffer[n + i..] == content[i..] + [0]
    {
      var x := buffer[n + i];
      ghost var s := buffer[..];
      HexOne(s, n, content, i);
      buffer[2 * i] := HEX[x / 16];
      buffer[2 * i + 1] := HEX[x % 16];
      assert buffer[..2 * i + 2] == s[..2 * i] + HexByte(x);
      assert buffer[n + i + 1..] == s[n + i + 1..];
      i := i + 1;
    }
    assert content[..n] == content;
  }

  lemma HexOne(s: seq<byte>, n: nat, content: seq<byte>, i: nat)
    requires |content| == n && |s| == 2 * n + 1 && i < n
    requires s[..2 * i] == Hex(content[..i]) && s[n + i..] == content[i..] + [0]
    ensures s[..2 * i] + HexByte(s[n + i]) == Hex(content[..i + 1]) && s[n + i + 1..] == content[i + 1..] + [0]
  {
    hide HexByte;
    assert s[n + i] == s[n + i..][0] == content[i];
    assert content[..i + 1] == content[..i] + [content[i]];
    HexConcat(content[..i], content[i]);
    assert s[n + i + 1..] == s[n + i..][1..];
    assert (content[i..] + [0])[1..] == content[i + 1..] + [0];
  }

  /** A buffer that starts with `t` and a NUL, and `t` has none: `t` as a C string. */
  ghost predicate CString(s: seq<byte>, t: seq<byte>) {
    |t| < |s| && s[..|t|] == t && s[|t|] == 0 && 0 !in t
  }

  /** The four digits of a 24-bit number; a byte above them does not show. */
  lemma DigitsOf(n: nat, above: nat)
    requires n < 0x100_0000
    ensures var val := above * 0x100_0000 + n;
            Base64Digits(n, 4) == [val / 0x4_0000 % 64, val / 0x1000 % 64, val / 64 % 64, val % 64]
  {
    var val := above * 0x100_0000 + n;
    DropAbove(n, above);
    assert Base64Digits(n / 64 / 64 / 64, 1) == [] + [n / 64 / 64 / 64 % 64];
    assert Base64Digits(n / 64 / 64, 2) == Base64Digits(n / 64 / 64 / 64, 1) + [n / 64 / 64 % 64];
    assert Base64Digits(n / 64, 3) == Base64Digits(n / 64 / 64, 2) + [n / 64 % 64];
  }

  lemma DropAbove(n: nat, above: nat)
    ensures var val := above * 0x100_0000 + n;
            && val / 0x4_0000 % 64 == n / 64 / 64 / 64 % 64 && val / 0x1000 % 64 == n / 64 / 64 % 64
            && val / 64 % 64 == n / 64 % 64 && val % 64 == n % 64
  {
    var val := above * 0x100_0000 + n;
    Twice(val);
    Thrice(val);
    ShiftOne(n, above * 0x4_0000);
    ShiftOne(n / 64, above * 0x1000);
    ShiftOne(n / 64 / 64, above * 64);
    ShiftOne(n / 64 / 64 / 64, above);
  }

  lemma ShiftOne(n: nat, q: nat)
    ensures (q * 64 + n) / 64 == q + n / 64 && (q * 64 + n) % 64 == n % 64
  {
  }

  lemma Twice(x: nat)
    ensures x / 0x1000 == x / 64 / 64
  {
  }

  lemma Thrice(x: nat)
    ensures x / 0x4_0000 == x / 64 / 64 / 64
  {
    Twice(x);
    var y := x / 64 / 64;
    assert x / 0x4_0000 == y / 64;
  }

  lemma FromBE3(s: seq<byte>)
    requires |s| == 3
    ensures FromBE(s) == (s[0] as int * 256 + s[1]) * 256 + s[2] < 0x100_0000
  {
    assert s[..2][..1] == [s[0]];
    assert FromBE([s[0]]) == s[0];
  }

  /** The four characters the code takes from the low 24 bits of `val`. */
  function CodeChars(a: Alphabet, val: nat): (t: seq<byte>)
    ensures |t| == 4 && 0 !in t
  {
    [Char(a, val / 0x4_0000 % 64), Char(a, val / 0x1000 % 64), Char(a, val / 64 % 64), Char(a, val % 64)]
  }

  lemma CodeGroup(a: Alphabet, g: seq<byte>, above: nat)
    requires 1 <= |g| <= 3
    ensures var p, r := g + Zeros(3 - |g|), |g|;
            var val := above * 0x100_0000 + ((p[0] as int * 256 + p[1]) * 256 + p[2]);
            GroupText(a, g) == CodeChars(a, val)[..r + 1] + seq(if a.Plain? then 3 - r else 0, _ => 61)
  {
    hide Char;
    var p := g + Zeros(3 - |g|);
    FromBE3(p);
    DigitsOf(FromBE(p), above);
    var val := above * 0x100_0000 + FromBE(p);
    CodeDigits(a, val);
    ChooseChars(a, Base64Digits(FromBE(p), 4), |g| + 1);
  }

  lemma CodeDigits(a: Alphabet, val: nat)
    ensures CodeChars(a, val) == Chars(a, [val / 0x4_0000 % 64, val / 0x1000 % 64, val / 64 % 64, val % 64])
  {
  }

  lemma ChooseChars(a: Alphabet, v: seq<nat>, k: nat)
    requires k <= |v| && forall j | 0 <= j < |v| :: v[j] < 64
    ensures Chars(a, v[..k]) == Chars(a, v)[..k]
  {
  }

  /** Three bytes become four characters; `i` tells whether the byte before them is read along. */
  method ConvertThree(a: Alphabet, buffer: array<byte>, at: nat, i: nat, out: nat)
    requires at + 3 <= buffer.Length && out + 4 <= at + 3 && (i > 0 ==> at > 0)
    modifies buffer
    ensures buffer[..out] == old(buffer[..out]) && buffer[at + 3..] == old(buffer[at + 3..])
    ensures buffer[out..out + 4] == GroupText(a, old(buffer[at..at + 3]))
  {
    var above := if i > 0 then buffer[at - 1] else 0;
    var val: nat := above as int * 0x100_0000 + ((buffer[at] as int * 256 + buffer[at + 1]) * 256 + buffer[at + 2]);
    ghost var g := buffer[at..at + 3];
    CodeGroup(a, g, above);
    assert g + Zeros(0) == g;
    var t := CodeChars(a, val);
    assert t[..4] + [] == t;
    WriteFour(buffer, out, t);
  }

  method WriteFour(buffer: array<byte>, out: nat, t: seq<byte>)
    requires |t| == 4 && out + 4 <= buffer.Length
    modifies buffer
    ensures buffer[..out] == old(buffer[..out]) && buffer[out + 4..] == old(buffer[out + 4..])
    ensures buffer[out..out + 4] == t
  {
    buffer[out] := t[0];
    buffer[out + 1] := t[1];
    buffer[out + 2] := t[2];
    buffer[out + 3] := t[3];
  }

  /** From `out` on, `t` and a NUL have been written. */
  ghost predicate Ended(s: seq<byte>, s': seq<byte>, t: seq<byte>, out: nat) {
    |s'| == |s| && out + |t| < |s| && s'[..out] == s[..out] && s'[out..out + |t|] == t && s'[out + |t|] == 0
  }

  /** The last one or two bytes, of which the NUL behind them may be read along. */
  method ConvertRest(a: Alphabet, buffer: array<byte>, at: nat, left: nat, out: nat)
    requires 1 <= left <= 2 && at + left + 1 == buffer.Length && buffer[at + left] == 0
    requires out + 5 <= buffer.Length
    modifies buffer
    ensures Ended(old(buffer[..]), buffer[..], GroupText(a, old(buffer[..])[at..at + left]), out)
  {
    var val: nat := (buffer[at] as int * 256 + buffer[at + 1]) * 256;
    ghost var g := buffer[..][at..at + left];
    CodeGroup(a, g, 0);
    assert (g + Zeros(3 - left))[1] == buffer[at + 1];
    var t := CodeChars(a, val);
    var filler := if a.Plain? then 61 else 0;
    buffer[out + 4] := 0;
    buffer[out + 3] := filler;
    buffer[out + 2] := if left == 2 then t[2] else filler;
    buffer[out + 1] := t[1];
    buffer[out] := t[0];
  }

  function Base64Room(n: nat): nat {
    (n + 5) / 3 * 4
  }

  /** The text never catches up with the bytes that are still to be read. */
  lemma EnoughRoom(n: nat, i: nat)
    requires i % 3 == 0 && i <= n
    ensures i + 3 <= n ==> i / 3 * 4 + 4 <= Base64Room(n) - n + i + 3
    ensures i / 3 * 4 + 5 <= Base64Room(n) + 1 && i / 3 * 4 <= Base64Room(n) - n + i
  {
    var m, r := n / 3, n % 3;
    assert (n + 5) / 3 == m + (r + 5) / 3;
  }

  /** The buffer half way: the text of the first `i` bytes in front, the other bytes at the end. */
  ghost predicate HalfWay(a: Alphabet, s: seq<byte>, content: seq<byte>, i: nat) {
    && i <= |content| && i % 3 == 0 && |s| == Base64Room(|content|) + 1 && |s| - 1 - |content| >= 0
    && i / 3 * 4 <= |s|
    && s[..i / 3 * 4] == Base64(a, content[..i])
    && s[|s| - 1 - |content| + i..] == content[i..] + [0]
  }

  lemma HalfWayOn(a: Alphabet, s: seq<byte>, s': seq<byte>, content: seq<byte>, i: nat, at: nat, out: nat)
    requires HalfWay(a, s, content, i) && i + 3 <= |content| && |s'| == |s|
    requires at == |s| - 1 - |content| + i && out == i / 3 * 4 && out + 4 <= at + 3
    requires s'[..out] == s[..out] && s'[at + 3..] == s[at + 3..]
    requires s'[out..out + 4] == GroupText(a, s[at..at + 3])
    ensures HalfWay(a, s', content, i + 3)
  {
    hide GroupText, Base64Room;
    assert s[at..at + 3] == s[at..][..3] == content[i..i + 3];
    assert s'[..out + 4] == s'[..out] + s'[out..out + 4];
    OneMore(a, content, i);
    assert s'[at + 3..] == s[at..][3..] == content[i + 3..] + [0];
  }

  lemma HalfWayDone(a: Alphabet, s: seq<byte>, s': seq<byte>, content: seq<byte>, i: nat, at: nat, out: nat)
    requires HalfWay(a, s, content, i) && |content| < i + 3 && |s'| == |s|
    requires at == |s| - 1 - |content| + i && out == i / 3 * 4
    requires Ended(s, s', if i < |content| then GroupText(a, s[at..|s| - 1]) else [], out)
    ensures CString(s', Base64(a, content))
  {
    hide GroupText, Base64Room, CString, HalfWay;
    HalfWayFacts(a, s, content, i, at, out);
    LastGroup(a, content, i);
    var t := if i < |content| then GroupText(a, content[i..]) else [];
    EndsWith(s', Base64(a, content[..i]), t);
  }

  lemma HalfWayFacts(a: Alphabet, s: seq<byte>, content: seq<byte>, i: nat, at: nat, out: nat)
    requires HalfWay(a, s, content, i) && at == |s| - 1 - |content| + i && out == i / 3 * 4
    ensures i <= |content| && i % 3 == 0 && at < |s| && out <= |s|
    ensures s[..out] == Base64(a, content[..i]) && s[at..|s| - 1] == content[i..]
  {
    assert s[at..|s| - 1] == s[at..][..|content| - i] == content[i..];
  }

  lemma EndsWith(s: seq<byte>, x: seq<byte>, t: seq<byte>)
    requires |x| + |t| < |s| && s[..|x|] == x && s[|x|..|x| + |t|] == t && s[|x| + |t|] == 0 && 0 !in x && 0 !in t
    ensures CString(s, x + t)
  {
    assert s[..|x| + |t|] == s[..|x|] + s[|x|..|x| + |t|];
  }

  lemma JustNul(s: seq<byte>, s': seq<byte>, out: nat)
    requires out < |s| && s' == s[out := 0]
    ensures Ended(s, s', [], out)
  {
  }

  lemma HalfWaySize(a: Alphabet, s: seq<byte>, content: seq<byte>, i: nat)
    requires HalfWay(a, s, content, i)
    ensures |s| == Base64Room(|content|) + 1 && |s| - 1 - |content| >= 0
  {
  }

  /** One turn of the loop. */
  method Base64Turn(a: Alphabet, buffer: array<byte>, n: nat, i: nat, out: nat, ghost content: seq<byte>)
    requires |content| == n && i + 3 <= n && i % 3 == 0 && out == i / 3 * 4
    requires HalfWay(a, buffer[..], content, i)
    modifies buffer
    ensures HalfWay(a, buffer[..], content, i + 3)
  {
    HalfWaySize(a, buffer[..], content, i);
    EnoughRoom(n, i);
    hide HalfWay, Base64Room, GroupText;
    var start := buffer.Length - 1 - n;
    ghost var s := buffer[..];
    ConvertThree(a, buffer, start + i, i, out);
    HalfWayOn(a, s, buffer[..], content, i, start + i, out);
  }

  /** The last one or two bytes, if there are any, and the NUL. */
  method Base64End(a: Alphabet, buffer: array<byte>, n: nat, i: nat, out: nat, ghost content: seq<byte>)
    requires |content| == n && i <= n < i + 3 && i % 3 == 0 && out == i / 3 * 4
    requires HalfWay(a, buffer[..], content, i)
    modifies buffer
    ensures CString(buffer[..], Base64(a, content))
  {
    HalfWaySize(a, buffer[..], content, i);
    EnoughRoom(n, i);
    hide HalfWay, Base64Room, GroupText, CString, Ended;
    var start := buffer.Length - 1 - n;
    ghost var s := buffer[..];
    if n - i > 0 {
      NulBehind(a, s, content, i);
      ConvertRest(a, buffer, start + i, n - i, out);
    } else {
      buffer[out] := 0;
      JustNul(s, buffer[..], out);
    }
    HalfWayDone(a, s, buffer[..], content, i, start + i, out);
  }

  method Base64InPlace(a: Alphabet, buffer: array<byte>, n: nat, ghost content: seq<byte>)
    requires |content| == n && buffer.Length == Base64Room(n) + 1
    requires buffer.Length - 1 - n >= 0 && buffer[buffer.Length - 1 - n..] == content + [0]
    modifies buffer
    ensures CString(buffer[..], Base64(a, content))
  {
    hide Base64Room, HalfWay, CString;
    var i, out := 0, 0;
    AtStart(a, buffer[..], content);
    while n - i >= 3
      invariant 0 <= i <= n && i % 3 == 0 && out == i / 3 * 4
      invariant HalfWay(a, buffer[..], content, i)
    {
      Base64Turn(a, buffer, n, i, out, content);
      i, out := i + 3, out + 4;
    }
    Base64End(a, buffer, n, i, out, content);
  }

  lemma AtStart(a: Alphabet, s: seq<byte>, content: seq<byte>)
    requires |s| == Base64Room(|content|) + 1 && |s| - 1 - |content| >= 0 && s[|s| - 1 - |content|..] == content + [0]
    ensures HalfWay(a, s, content, 0)
  {
    assert content[0..] == content && content[..0] == [] && s[..0] == [];
  }

  lemma NulBehind(a: Alphabet, s: seq<byte>, content: seq<byte>, i: nat)
    requires HalfWay(a, s, content, i)
    ensures s[|s| - 1] == 0
  {
    assert s[|s| - 1] == s[|s| - 1 - |content| + i..][|content| - i];
  }

  lemma OneMore(a: Alphabet, content: seq<byte>, i: nat)
    requires i % 3 == 0 && i + 3 <= |content|
    ensures Base64(a, content[..i + 3]) == Base64(a, content[..i]) + GroupText(a, content[i..i + 3])
  {
    Base64Whole(a, content[..i], content[i..i + 3]);
    assert content[..i + 3] == content[..i] + content[i..i + 3];
  }

  lemma LastGroup(a: Alphabet, content: seq<byte>, i: nat)
    requires i % 3 == 0 && i <= |content| < i + 3
    ensures |Base64(a, content[..i])| == i / 3 * 4
    ensures Base64(a, content) == Base64(a, content[..i]) + if i < |content| then GroupText(a, content[i..]) else []
  {
    Base64Whole(a, content[..i], content[i..]);
    assert content == content[..i] + content[i..];
  }

  // ----- From the iterator

  /** Copies the string and its NUL to the end of a buffer that has just enough room. */
  method CopyToEnd(it: CborValue, buffer: array<byte>, off: nat, n: nat)
    requires it.OnItem() && it.IsString() && AfterString(it) != Bad
    requires |StringContent(it)| == n && buffer.Length == off + n + 1
    modifies it`ptr, it`remaining, it`typ, it`extra, it`tooLarge, it`bit1, it`unknownLength, it`key, buffer
    ensures it.Is(old(AfterString(it))) && buffer[off..] == old(StringContent(it)) + [0]
  {
    hide HeadOk, TypeAt, ExtraAt, Took, Next;
    ghost var content := StringContent(it);
    var err, len := CopyString(it, Memcpy(buffer, off), n + 1);
    TookAtEnd(buffer, off, content);
  }

  /** `dump_bytestring_base16`. */
  method DumpBase16(it: CborValue) returns (err: CborError, buffer: array<byte>)
    requires it.OnItem() && it.IsString()
    modifies it`ptr, it`remaining, it`typ, it`extra, it`tooLarge, it`bit1, it`unknownLength, it`key
    ensures err == NoError <==> old(AfterString(it)) != Bad
    ensures err == NoError ==> it.Is(old(AfterString(it))) && CString(buffer[..], Hex(old(StringContent(it))))
  {
    var n;
    err, n := CalculateStringLength(it);
    if err != NoError {
      buffer := new byte[0];
      return;
    }
    hide HeadOk, TypeAt, ExtraAt, CString, Took;
    buffer := new byte[2 * n + 1];
    ghost var content := StringContent(it);
    CopyToEnd(it, buffer, n, n);
    HexInPlace(buffer, n, content);
    HexNonZero(content);
    EndsWith(buffer[..], Hex(content), []);
    assert Hex(content) + [] == Hex(content);
  }

  lemma TookAtEnd(buffer: array<byte>, off: nat, content: seq<byte>)
    requires buffer.Length == off + |content| + 1 && Took(Memcpy(buffer, off), content + [0])
    ensures buffer[off..] == content + [0]
  {
    assert buffer[off..off + |content| + 1] == buffer[off..];
  }

  lemma {:induction false} HexNonZero(b: seq<byte>)
    ensures 0 !in Hex(b)
  {
    if b != [] {
      HexNonZero(b[1..]);
    }
  }

  /** `dump_bytestring_base64` and `dump_bytestring_base64url`. */
  method DumpBase64(a: Alphabet, it: CborValue) returns (err: CborError, buffer: array<byte>)
    requires it.OnItem() && it.IsString()
    modifies it`ptr, it`remaining, it`typ, it`extra, it`tooLarge, it`bit1, it`unknownLength, it`key
    ensures err == NoError <==> old(AfterString(it)) != Bad
    ensures err == NoError ==> it.Is(old(AfterString(it))) && CString(buffer[..], Base64(a, old(StringContent(it))))
  {
    var n;
    err, n := CalculateStringLength(it);
    if err != NoError {
      buffer := new byte[0];
      return;
    }
    hide HeadOk, TypeAt, ExtraAt, Base64Room, CString, Took, Next;
    var len := Base64Room(n);
    EnoughRoom(n, 0);
    buffer := new byte[len + 1];
    ghost var content := StringContent(it);
    CopyToEnd(it, buffer, len - n, n);
    Base64InPlace(a, buffer, n, content);
  }
}
