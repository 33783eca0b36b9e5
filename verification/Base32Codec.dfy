/**
 The base32 encoder and decoder (src/encoding/base32.c): the encoder fills a buffer as far as it
 goes; the decoder works on a whole text, or on pieces of one through a context that keeps up to
 seven characters between calls and skips newlines.
 */
module Base32Codec {
  import opened Bytes
  import opened Wrappers
  import opened Base32

  // ----- Encoding

  /** The eight characters of a group as the code computes them: `g` holds the bytes that are left. */
  function CodeChar(g: seq<byte>, j: nat): byte
    requires |g| >= 1 && j < 8
  {
    var n := |g|;
    match j
    case 0 => Digit(g[0] / 8 % 32)
    case 1 => Digit((g[0] as int * 4 + if n > 1 then g[1] / 64 else 0) % 32)
    case 2 => if n > 1 then Digit(g[1] / 2 % 32) else PAD
    case 3 => if n > 1 then Digit((g[1] as int * 16 + if n > 2 then g[2] / 16 else 0) % 32) else PAD
    case 4 => if n > 2 then Digit((g[2] as int * 2 + if n > 3 then g[3] / 128 else 0) % 32) else PAD
    case 5 => if n > 3 then Digit(g[3] / 4 % 32) else PAD
    case 6 => if n > 3 then Digit((g[3] as int * 8 + if n > 4 then g[4] / 32 else 0) % 32) else PAD
    case _ => if n > 4 then Digit(g[4] % 32) else PAD
  }

  /** The group that starts at `i`. */
  function GroupAt(b: seq<byte>, i: nat): (g: seq<byte>)
    requires i < |b|
    ensures 1 <= |g| <= 5
  {
    b[i..if i + 5 <= |b| then i + 5 else |b|]
  }

  lemma PaddedChar(g: seq<byte>, j: nat)
    requires 1 <= |g| <= 5 && j < 8
    ensures CodeChar(g, j) == if j < DigitsFor(|g|) then Digit(Split(Padded(g))[j]) else PAD
  {
    hide Digit;
    var p := Padded(g);
    assert forall m | 0 <= m < |g| :: p[m] == g[m];
    assert forall m | |g| <= m < 5 :: p[m] == 0;
  }

  lemma CodeCharRight(b: seq<byte>, i: nat, j: nat)
    requires i < |b| && j < 8
    ensures CodeChar(b[i..], j) == EncodeGroup(GroupAt(b, i))[j]
  {
    var g := GroupAt(b, i);
    CodeCharPrefix(b, i, j);
    GroupDigits(g);
    PaddedChar(g, j);
    hide CodeChar, EncodeGroup, Split, Digit;
  }

  /** A character depends on the bytes of its group only. */
  lemma CodeCharPrefix(b: seq<byte>, i: nat, j: nat)
    requires i < |b| && j < 8
    ensures CodeChar(b[i..], j) == CodeChar(GroupAt(b, i), j)
  {
    hide Digit;
    var g := GroupAt(b, i);
    assert forall m | 0 <= m < |g| :: g[m] == b[i..][m];
  }

  /** Group number `k` of the text encodes group number `k` of the bytes. */
  lemma {:induction false} EncodeGroupAt(b: seq<byte>, k: nat, j: nat)
    requires 5 * k < |b| && j < 8
    ensures 8 * k + 8 <= |Encode(b)| && Encode(b)[8 * k + j] == EncodeGroup(GroupAt(b, 5 * k))[j]
    decreases k
  {
    hide EncodeGroup;
    if k == 0 {
      assert GroupAt(b, 0) == if |b| <= 5 then b else b[..5];
    } else {
      EncodeGroupAt(b[5..], k - 1, j);
      assert GroupAt(b[5..], 5 * (k - 1)) == GroupAt(b, 5 * k);
      assert Encode(b) == EncodeGroup(b[..5]) + Encode(b[5..]);
    }
  }

  /** The characters of `t` from `o` to `o'` have been written, and nothing else. */
  ghost predicate Written(was: seq<byte>, now: seq<byte>, t: seq<byte>, o: nat, o': nat) {
    && |was| == |now| && o <= o' <= |t| && o' <= |now|
    && forall q | 0 <= q < |now| :: now[q] == if o <= q < o' then t[q] else was[q]
  }

  lemma WrittenOn(x: seq<byte>, y: seq<byte>, z: seq<byte>, t: seq<byte>, o: nat, o': nat)
    requires Written(x, y, t, 0, o) && Written(y, z, t, o, o')
    ensures Written(x, z, t, 0, o')
  {
  }

  /** Writes as much of the text as fits, and a NUL if it all fits with room to spare. */
  method Base32Encode(input: seq<byte>, out: array<byte>)
    modifies out
    ensures forall q | 0 <= q < out.Length ::
              out[q] == if q < |Encode(input)| then Encode(input)[q]
                        else if q == |Encode(input)| then 0 else old(out[q])
  {
    hide Written;
    var i, o := 0, 0;
    ghost var t, was, k := Encode(input), out[..], 0;
    WrittenNothing(was, t);
    while i < |input| && o < out.Length
      invariant i == 5 * k && o == Min(8 * k, out.Length) && Written(was, out[..], t, 0, o)
      invariant k > 0 ==> 5 * (k - 1) < |input|
      decreases |input| - i
    {
      ghost var now := out[..];
      o := EncodeOne(input, i, out, o, k);
      WrittenOn(was, now, out[..], t, Min(8 * k, out.Length), o);
      i, k := i + 5, k + 1;
    }
    AllWritten(was, out[..], t, |input|, k, o);
    if o < out.Length {
      out[o] := 0;
    }
  }

  lemma WrittenNothing(was: seq<byte>, t: seq<byte>)
    ensures Written(was, was, t, 0, 0)
  {
  }

  lemma AllWritten(was: seq<byte>, now: seq<byte>, t: seq<byte>, n: nat, k: nat, o: nat)
    requires Written(was, now, t, 0, o) && |t| == (n + 4) / 5 * 8 && o == Min(8 * k, |now|)
    requires (k > 0 ==> 5 * (k - 1) < n) && (5 * k >= n || o == |now|)
    ensures o == Min(|t|, |now|) && forall q | 0 <= q < |now| :: now[q] == if q < |t| then t[q] else was[q]
  {
    if 5 * k >= n {
      assert (n + 4) / 5 == k;
    }
  }

  /** One turn of the loop: up to eight characters. */
  method EncodeOne(input: seq<byte>, i: nat, out: array<byte>, o: nat, ghost k: nat) returns (o': nat)
    requires i == 5 * k && i < |input| && o == 8 * k < out.Length
    modifies out
    ensures o' == Min(o + 8, out.Length) && Written(old(out[..]), out[..], Encode(input), o, o')
  {
    EncodeGroupAt(input, k, 0);
    var j := 0;
    while j < 8
      invariant 0 <= j <= 8 && o + j <= out.Length && Written(old(out[..]), out[..], Encode(input), o, o + j)
    {
      if o + j == out.Length {
        return o + j;
      }
      CodeCharRight(input, i, j);
      EncodeGroupAt(input, k, j);
      ghost var now := out[..];
      out[o + j] := CodeChar(input[i..], j);
      OneWritten(old(out[..]), now, out[..], Encode(input), o, o + j);
      j := j + 1;
    }
    return o + 8;
  }

  lemma OneWritten(was: seq<byte>, now: seq<byte>, then': seq<byte>, t: seq<byte>, o: nat, at: nat)
    requires Written(was, now, t, o, at) && at < |t| && at < |now| && then' == now[at := t[at]]
    ensures Written(was, then', t, o, at + 1)
  {
  }

  function Min(a: nat, b: nat): nat {
    if a < b then a else b
  }

  // ----- Decoding one group

  /** The buffer holds `bytes` up to `o`, or as much of them as it can. */
  ghost predicate Holds(out: array<byte>, o: nat, bytes: seq<byte>)
    reads out
  {
    o == Min(|bytes|, out.Length) && out[..o] == bytes[..o]
  }

  method Put(out: array<byte>, o: nat, b: byte, ghost bytes: seq<byte>) returns (o': nat)
    requires Holds(out, o, bytes)
    modifies out
    ensures Holds(out, o', bytes + [b])
    ensures o <= o' <= out.Length && out[..o] == old(out[..o])
  {
    o' := o;
    if o < out.Length {
      out[o] := b;
      o' := o + 1;
    }
  }

  /** A group of the right shape decodes to the merged digits. */
  lemma GroupIs(t: seq<byte>, r: nat)
    requires |t| == 8 && 1 <= r <= 5 && Shape(t, DigitsFor(r))
    ensures DecodeGroup(t) == Some(Merge(Digits(t))[..r])
  {
    OneShape(t, DigitsFor(r));
    MergeRight(Digits(t));
  }

  /** Decodes eight characters, writing each byte as soon as it is known. */
  method Decode8(t: seq<byte>, out: array<byte>, o: nat, ghost before: seq<byte>) returns (ok: bool, o': nat)
    requires Holds(out, o, before)
    modifies out
    ensures ok <==> |t| >= 8 && DecodeGroup(t[..8]).Some?
    ensures ok ==> Holds(out, o', before + DecodeGroup(t[..8]).value)
    ensures o <= o' <= out.Length && Holds(out, o, before)
  {
    if |t| < 8 {
      return false, o;
    }
    var r;
    r, o' := Decode8Bytes(t[..8], out, o, before);
    ok := r > 0;
    if ok {
      GroupIs(t[..8], r);
    }
  }

  /** The bytes of a group, as the code puts them together. */
  lemma MergeBytes(t: seq<byte>)
    requires |t| == 8
    ensures var b, v := Merge(Digits(t)), Digits(t);
            && b[0] == v[0] as int * 8 + v[1] / 4 && b[1] == v[1] as int % 4 * 64 + v[2] as int * 2 + v[3] / 16
            && b[2] == v[3] as int % 16 * 16 + v[4] / 2 && b[3] == v[4] as int % 2 * 128 + v[5] as int * 4 + v[6] / 8
            && b[4] == v[6] as int % 8 * 32 + v[7]
  {
  }

  lemma OneMore(before: seq<byte>, b: seq<byte>, k: nat)
    requires k < |b|
    ensures before + b[..k] + [b[k]] == before + b[..k + 1]
  {
  }

  /** The shapes, character by character. */
  lemma Shapes(t: seq<byte>)
    requires |t| == 8
    ensures Shape(t, 2) == (IsDigit(t[0]) && IsDigit(t[1]) && t[2] == PAD && AllPad(t, 3))
    ensures Shape(t, 4) == (Four(t) && t[4] == PAD && AllPad(t, 5))
    ensures GroupBytes(t) > 0 ==>
              IsDigit(t[0]) && IsDigit(t[1]) && (t[2] != PAD ==> Four(t) && (t[4] != PAD ==> IsDigit(t[4])))
    ensures GroupBytes(t) > 0 ==> (t[2] == PAD ==> AllPad(t, 3)) && (t[4] == PAD ==> AllPad(t, 5))
  {
  }

  predicate Four(t: seq<byte>)
    requires |t| == 8
  {
    IsDigit(t[0]) && IsDigit(t[1]) && IsDigit(t[2]) && IsDigit(t[3])
  }

  predicate AllPad(t: seq<byte>, k: nat)
    requires |t| == 8
  {
    forall j | k <= j < 8 :: t[j] == PAD
  }

  /** The nested tests of `decode_8`: how many bytes the group carries, 0 if it is none. */
  method Decode8Bytes(t: seq<byte>, out: array<byte>, o: nat, ghost before: seq<byte>) returns (r: nat, o': nat)
    requires |t| == 8 && Holds(out, o, before)
    modifies out
    ensures r <= 5 && (r > 0 ==> Shape(t, DigitsFor(r)) && Holds(out, o', before + Merge(Digits(t))[..r]))
    ensures r == 0 ==> GroupBytes(t) == 0
    ensures o <= o' <= out.Length && out[..o] == old(out[..o])
  {
    Shapes(t);
    hide Shape, GroupBytes, Merge, Holds;
    o' := o;
    if !IsDigit(t[0]) || !IsDigit(t[1]) {
      return 0, o;
    }
    ghost var b := Merge(Digits(t));
    MergeBytes(t);
    OneMore(before, b, 0);
    assert before + b[..0] == before;
    o' := Put(out, o', DigitValue(t[0]) * 8 + DigitValue(t[1]) / 4, before);
    if t[2] == PAD {
      r := if t[3] == PAD && t[4] == PAD && t[5] == PAD && t[6] == PAD && t[7] == PAD then 1 else 0;
      return;
    }
    r, o' := Decode8Middle(t, out, o', before);
  }

  /** The second and third byte. */
  method Decode8Middle(t: seq<byte>, out: array<byte>, o: nat, ghost before: seq<byte>) returns (r: nat, o': nat)
    requires |t| == 8 && IsDigit(t[0]) && IsDigit(t[1]) && t[2] != PAD && Holds(out, o, before + Merge(Digits(t))[..1])
    modifies out
    ensures r <= 5 && (r > 0 ==> Shape(t, DigitsFor(r)) && Holds(out, o', before + Merge(Digits(t))[..r]))
    ensures r == 0 ==> GroupBytes(t) == 0
    ensures o <= o' <= out.Length && out[..o] == old(out[..o])
  {
    assert o <= out.Length;
    Shapes(t);
    hide Shape, GroupBytes, Merge, Holds;
    o' := o;
    ghost var b := Merge(Digits(t));
    if !IsDigit(t[2]) || !IsDigit(t[3]) {
      return 0, o';
    }
    MergeBytes(t);
    OneMore(before, b, 1);
    OneMore(before, b, 2);
    o' := Put(out, o', DigitValue(t[1]) % 4 * 64 + DigitValue(t[2]) * 2 + DigitValue(t[3]) / 16, before + b[..1]);
    if t[4] == PAD {
      r := if t[5] == PAD && t[6] == PAD && t[7] == PAD then 2 else 0;
      return;
    }
    if !IsDigit(t[4]) {
      return 0, o';
    }
    o' := Put(out, o', DigitValue(t[3]) % 16 * 16 + DigitValue(t[4]) / 2, before + b[..2]);
    r, o' := Decode8Tail(t, out, o', before);
  }

  /** The last two bytes. */
  method Decode8Tail(t: seq<byte>, out: array<byte>, o: nat, ghost before: seq<byte>) returns (r: nat, o': nat)
    requires |t| == 8 && (forall j | 0 <= j < 5 :: IsDigit(t[j])) && Holds(out, o, before + Merge(Digits(t))[..3])
    modifies out
    ensures r <= 5 && (r > 0 ==> Shape(t, DigitsFor(r)) && Holds(out, o', before + Merge(Digits(t))[..r]))
    ensures r == 0 ==> GroupBytes(t) == 0
    ensures o <= o' <= out.Length && out[..o] == old(out[..o])
  {
    ghost var b := Merge(Digits(t));
    MergeBytes(t);
    OneMore(before, b, 3);
    OneMore(before, b, 4);
    hide Merge, Holds;
    o' := o;
    if t[5] == PAD {
      r := if t[6] == PAD && t[7] == PAD then 3 else 0;
      return;
    }
    if !IsDigit(t[5]) || !IsDigit(t[6]) {
      return 0, o';
    }
    o' := Put(out, o', DigitValue(t[4]) % 2 * 128 + DigitValue(t[5]) * 4 + DigitValue(t[6]) / 8, before + b[..3]);
    if t[7] == PAD {
      return 4, o';
    }
    if !IsDigit(t[7]) {
      return 0, o';
    }
    o' := Put(out, o', DigitValue(t[6]) % 8 * 32 + DigitValue(t[7]), before + b[..4]);
    r := 5;
  }
}
