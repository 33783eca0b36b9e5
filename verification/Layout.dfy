/**
 The encoding of a value, byte by byte: initial bytes as in section 2.1 of RFC 7049 and numbers in
 network byte order, written out. The encoder's bytes are these. Heads are the shortest there are.
 */
module Layouts {
  import opened Bytes
  import opened Syntax
  import opened Values

  /** The initial byte of a major type and the number behind it. */
  function Head(major: nat, n: nat): (s: seq<byte>)
    requires major < 8 && n < 0x1_0000_0000_0000_0000
  {
    if n < 24 then [major * 32 + n]
    else if n < 0x100 then [major * 32 + 24, n]
    else if n < 0x1_0000 then [major * 32 + 25, n / 0x100, n % 0x100]
    else if n < 0x1_0000_0000 then
      [major * 32 + 26, n / 0x100_0000, n / 0x1_0000 % 0x100, n / 0x100 % 0x100, n % 0x100]
    else
      [major * 32 + 27, n / 0x100_0000_0000_0000, n / 0x1_0000_0000_0000 % 0x100, n / 0x100_0000_0000 % 0x100,
       n / 0x1_0000_0000 % 0x100, n / 0x100_0000 % 0x100, n / 0x1_0000 % 0x100, n / 0x100 % 0x100, n % 0x100]
  }

  function Layout(v: Value): seq<byte>
    requires Valid(v)
    decreases v
  {
    match v
    case Int(n) => if n >= 0 then Head(0, n) else Head(1, -1 - n)
    case Str(text, data) => Head(if text then 3 else 2, |data|) + data
    case Con(isMap, items) => (if isMap then Head(5, |items| / 2) else Head(4, |items|)) + LayoutAll(items)
    case Tagged(tag, content) => Head(6, tag) + Layout(content)
    case Simple(n) => Head(7, n)
    case Float(ai, bits) => LayoutFloat(ai, bits)
  }

  function LayoutAll(items: seq<Value>): seq<byte>
    requires forall i | 0 <= i < |items| :: Valid(items[i])
    decreases items
  {
    if items == [] then [] else Layout(items[0]) + LayoutAll(items[1..])
  }

  /** Half, single and double precision: 0xf9, 0xfa and 0xfb, and the bits. */
  function LayoutFloat(ai: nat, bits: nat): seq<byte>
    requires 25 <= ai <= 27 && bits < Pow256(NumBytes(ai))
  {
    PowValues();
    if ai == 25 then [0xf9, bits / 0x100, bits % 0x100]
    else if ai == 26 then [0xfa, bits / 0x100_0000, bits / 0x1_0000 % 0x100, bits / 0x100 % 0x100, bits % 0x100]
    else
      [0xfb, bits / 0x100_0000_0000_0000, bits / 0x1_0000_0000_0000 % 0x100, bits / 0x100_0000_0000 % 0x100,
       bits / 0x1_0000_0000 % 0x100, bits / 0x100_0000 % 0x100, bits / 0x1_0000 % 0x100, bits / 0x100 % 0x100,
       bits % 0x100]
  }

  // ----- Numbers

  lemma TwoBytes(n: nat)
    requires n < 0x1_0000
    ensures n < Pow256(2) && ToBE(n, 2) == [n / 0x100, n % 0x100]
  {
    PowValues();
    assert ToBE(n / 0x100, 1) == ToBE(n / 0x100 / 0x100, 0) + [n / 0x100 % 0x100];
  }

  lemma FourBytes(n: nat)
    requires n < 0x1_0000_0000
    ensures n < Pow256(4)
    ensures ToBE(n, 4) == [n / 0x100_0000, n / 0x1_0000 % 0x100, n / 0x100 % 0x100, n % 0x100]
  {
    PowValues();
    var m := n / 0x100 / 0x100;
    assert n / 0x1_0000 == m && n / 0x100_0000 == m / 0x100;
    TwoBytes(m);
    ToBETwoMore(n, 2);
  }

  lemma EightBytes(n: nat)
    requires n < 0x1_0000_0000_0000_0000
    ensures n < Pow256(8)
    ensures ToBE(n, 8) == [n / 0x100_0000_0000_0000, n / 0x1_0000_0000_0000 % 0x100, n / 0x100_0000_0000 % 0x100,
                           n / 0x1_0000_0000 % 0x100, n / 0x100_0000 % 0x100, n / 0x1_0000 % 0x100,
                           n / 0x100 % 0x100, n % 0x100]
  {
    PowValues();
    PowMore();
    var m := n / 0x100 / 0x100;
    var k := m / 0x100 / 0x100;
    assert n / 0x1_0000 == m && n / 0x100_0000 == m / 0x100 && n / 0x1_0000_0000 == k;
    assert n / 0x100_0000_0000 == k / 0x100 && n / 0x1_0000_0000_0000 == k / 0x1_0000;
    assert n / 0x100_0000_0000_0000 == k / 0x100_0000;
    FourBytes(k);
    ToBETwoMore(m, 4);
    ToBETwoMore(n, 6);
  }

  lemma PowMore()
    ensures Pow256(6) == 0x1_0000_0000_0000
  {
    assert Pow256(3) == 0x100_0000 && Pow256(5) == 0x100 * Pow256(4);
    PowValues();
  }

  lemma ToBETwoMore(n: nat, k: nat)
    requires n < Pow256(k + 2)
    ensures n / 0x100 / 0x100 < Pow256(k)
    ensures ToBE(n, k + 2) == ToBE(n / 0x100 / 0x100, k) + [n / 0x100 % 0x100, n % 0x100]
  {
    assert Pow256(k + 2) == 256 * Pow256(k + 1) && Pow256(k + 1) == 256 * Pow256(k);
    assert ToBE(n / 0x100, k + 1) == ToBE(n / 0x100 / 0x100, k) + [n / 0x100 % 0x100];
  }

  lemma HeadIs(major: nat, n: nat)
    requires major < 8 && n < TWO_64
    ensures SerNum(major, MinNum(n)) == Head(major, n)
  {
    if n >= 0x1_0000_0000 {
      HeadOf8(major, n);
    } else if n >= 0x1_0000 {
      HeadOf4(major, n);
    } else if n >= 0x100 {
      TwoBytes(n);
    } else if n >= 24 {
      OneByte(n);
    }
  }

  lemma OneByte(n: nat)
    requires n < 0x100
    ensures n < Pow256(1) && ToBE(n, 1) == [n]
  {
    PowValues();
    assert ToBE(n, 1) == ToBE(n / 256, 0) + [n];
  }

  lemma HeadOf4(major: nat, n: nat)
    requires major < 8 && 0x1_0000 <= n < 0x1_0000_0000
    ensures SerNum(major, MinNum(n)) == Head(major, n)
  {
    FourBytes(n);
  }

  lemma HeadOf8(major: nat, n: nat)
    requires major < 8 && 0x1_0000_0000 <= n < 0x1_0000_0000_0000_0000
    ensures SerNum(major, MinNum(n)) == Head(major, n)
  {
    EightBytes(n);
  }

  lemma FloatIs(ai: nat, bits: nat)
    requires 25 <= ai <= 27 && bits < Pow256(NumBytes(ai))
    ensures SerNum(7, Num(ai, bits)) == LayoutFloat(ai, bits)
  {
    PowValues();
    if ai == 25 {
      TwoBytes(bits);
    } else if ai == 26 {
      FourBytes(bits);
    } else {
      EightBytes(bits);
    }
  }

  // ----- Values

  /** The canonical encoding of every value is the layout above. */
  lemma {:induction false} EncodingIs(v: Value)
    requires Valid(v)
    ensures Encoding(v) == Layout(v)
    decreases v, 0
  {
    CanonWf(v);
    match v
    case Int(n) => HeadIs(if n >= 0 then 0 else 1, if n >= 0 then n else -1 - n);
    case Str(text, data) =>
      SerOneChunk(text, Chunk(MinNum(|data|), data));
      HeadIs(if text then 3 else 2, |data|);
    case Con(isMap, items) =>
      HeadIs(if isMap then 5 else 4, Entries(isMap, |items|));
      AllIs(items);
    case Tagged(tag, content) =>
      HeadIs(6, tag);
      EncodingIs(content);
    case Simple(n) => HeadIs(7, n);
    case Float(ai, bits) => FloatIs(ai, bits);
  }

  lemma {:induction false} AllIs(items: seq<Value>)
    requires forall i | 0 <= i < |items| :: Valid(items[i])
    ensures WfAll(CanonAll(items)) && SerializeAll(CanonAll(items)) == LayoutAll(items)
    decreases items, 1
  {
    forall i | 0 <= i < |items| { CanonWf(items[i]); }
    if items != [] {
      EncodingIs(items[0]);
      AllIs(items[1..]);
      assert CanonAll(items)[1..] == CanonAll(items[1..]);
    }
  }

  // ----- Shortest heads

  /** Of all heads with a number, the canonical one has the fewest bytes, and it is the only such. */
  lemma LeastHead(num: Num)
    requires WfNum(num)
    ensures num.arg < TWO_64 && NumBytes(MinNum(num.arg).ai) <= NumBytes(num.ai)
    ensures NumBytes(MinNum(num.arg).ai) == NumBytes(num.ai) <==> num == MinNum(num.arg)
  {
    PowValues();
  }

  /** A head is shortest exactly if it is the canonical one. */
  lemma ShortestIff(num: Num)
    requires WfNum(num)
    ensures num.arg < TWO_64 && (Shortest(num) <==> num == MinNum(num.arg))
  {
    PowValues();
  }

  /** The canonical tree of every value is canonical: what the encoder writes is what is asked for. */
  lemma {:induction false} CanonCanonical(v: Value)
    requires Valid(v)
    ensures Canonical(Canon(v))
  {
    match v
    case Int(n) => ShortestIff(MinNum(if n >= 0 then n else -1 - n));
    case Str(_, data) => ShortestIff(MinNum(|data|));
    case Con(isMap, items) =>
      ShortestIff(MinNum(Entries(isMap, |items|)));
      forall i | 0 <= i < |items| { CanonCanonical(items[i]); }
    case Tagged(tag, content) =>
      ShortestIff(MinNum(tag));
      CanonCanonical(content);
    case Simple(n) => ShortestIff(MinNum(n));
    case Float(_, _) =>
  }

  /** The canonical trees are exactly the canonical trees of values. */
  lemma CanonicalIff(c: Cst)
    requires Wf(c)
    ensures Canonical(c) <==> Valid(ToValue(c)) && c == Canon(ToValue(c))
  {
    if Canonical(c) {
      CanonicalIsCanon(c);
    } else if Valid(ToValue(c)) {
      CanonCanonical(ToValue(c));
    }
  }
}
