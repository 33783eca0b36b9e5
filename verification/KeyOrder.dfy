/**
 Section 3.9 of RFC 7049 sorts map keys by the length of their encoding and then bytewise. The
 validator compares the numbers in the heads first (src/tinycbor/cborvalidation.c). The two orders
 differ on exactly the pairs of keys that `Clash` names; for integers and strings with shortest
 heads, `PlainClash` says it in terms of the keys themselves.
 */
module KeyOrder {
  import opened Bytes
  import opened Wrappers
  import opened Syntax
  import opened Values
  import opened Canonical

  /** The order of the RFC, on encodings. */
  predicate RfcLess(x: seq<byte>, y: seq<byte>) {
    |x| < |y| || (|x| == |y| && LexLess(x, y))
  }

  // ----- Keys

  /** Any key the sorting check can come to: a well-formed item whose head has a number. */
  predicate Definite(c: Cst) {
    Wf(c) && (c.String? ==> !c.indefinite) && (c.Container? ==> c.len.Some?)
  }

  function HeadNum(c: Cst): (num: Num)
    requires Definite(c)
    ensures WfNum(num) && HeadNumber(c) == num.arg
  {
    match c
    case Integer(_, num) => num
    case String(_, _, chunks) => chunks[0].num
    case Container(_, len, _) => len.value
    case Tag(num, _) => num
    case Prim(num) => num
  }

  function HeadMajor(c: Cst): (m: nat)
    ensures m <= 7
  {
    match c
    case Integer(negative, _) => if negative then 1 else 0
    case String(text, _, _) => StringMajor(text)
    case Container(isMap, _, _) => ContainerMajor(isMap)
    case Tag(_, _) => 6
    case Prim(_) => 7
  }

  /** An encoding is its head and what follows it. */
  lemma HeadFirst(c: Cst) returns (rest: seq<byte>)
    requires Definite(c)
    ensures Serialize(c) == SerNum(HeadMajor(c), HeadNum(c)) + rest
  {
    match c
    case String(text, _, chunks) =>
      SerOneChunk(text, chunks[0]);
      assert chunks == [chunks[0]];
      rest := chunks[0].data;
    case Container(_, _, items) => rest := SerializeAll(items);
    case Tag(_, item) => rest := Serialize(item);
    case _ => rest := [];
  }

  // ----- Lexicographic order

  /** Big-endian numbers of one width are ordered as their bytes are. */
  lemma {:induction false} BigEndianOrder(m: nat, n: nat, k: nat)
    requires m < n < Pow256(k)
    ensures LexLess(ToBE(m, k), ToBE(n, k))
  {
    var x, y := ToBE(m / 256, k - 1), ToBE(n / 256, k - 1);
    if m / 256 == n / 256 {
      LexAppend(x, [m % 256], [n % 256]);
    } else {
      BigEndianOrder(m / 256, n / 256, k - 1);
      LexExtend(x, y, [m % 256], [n % 256]);
    }
  }

  lemma {:induction false} LexAppend(x: seq<byte>, u: seq<byte>, v: seq<byte>)
    ensures LexLess(x + u, x + v) == LexLess(u, v)
  {
    if x == [] {
      assert x + u == u && x + v == v;
    } else {
      LexAppend(x[1..], u, v);
      assert (x + u)[1..] == x[1..] + u && (x + v)[1..] == x[1..] + v;
    }
  }

  lemma {:induction false} LexExtend(x: seq<byte>, y: seq<byte>, u: seq<byte>, v: seq<byte>)
    requires |x| == |y| && LexLess(x, y)
    ensures LexLess(x + u, y + v)
    decreases |x|
  {
    if x[0] == y[0] {
      LexExtend(x[1..], y[1..], u, v);
      assert (x + u)[1..] == x[1..] + u && (y + v)[1..] == y[1..] + v;
    }
  }

  lemma LexFirst(x: seq<byte>, y: seq<byte>)
    requires x != [] && y != [] && x[0] != y[0]
    ensures LexLess(x, y) == (x[0] < y[0])
  {
  }

  lemma {:induction false} RfcTotal(x: seq<byte>, y: seq<byte>)
    ensures !(RfcLess(x, y) && RfcLess(y, x))
    ensures x != y ==> RfcLess(x, y) || RfcLess(y, x)
  {
    CompareIsLex(x, y);
    CompareIsLex(y, x);
    Opposite(x, y);
  }

  lemma {:induction false} Opposite(x: seq<byte>, y: seq<byte>)
    ensures MemCmp(x, y) == -MemCmp(y, x)
    decreases |x|
  {
    if x != [] && y != [] && x[0] == y[0] {
      Opposite(x[1..], y[1..]);
    }
  }

  // ----- The two orders

  /** Shorter, or as long and with a first byte that is not larger. */
  predicate Before(x: seq<byte>, y: seq<byte>) {
    x != [] && y != [] && (|x| < |y| || (|x| == |y| && x[0] <= y[0]))
  }

  /** `a` comes first for the validator, but `b` for the RFC. */
  predicate Clash(a: Cst, b: Cst)
    requires Definite(a) && Definite(b)
  {
    var x, y := Serialize(a), Serialize(b);
    || (HeadNumber(a) < HeadNumber(b) && !Before(x, y))
    || (HeadNumber(a) == HeadNumber(b) && LexLess(x, y) && |x| > |y|)
  }

  /** Heads of one major type and one width are ordered as their numbers are. */
  lemma SameHeads(major: nat, m: Num, n: Num, u: seq<byte>, v: seq<byte>)
    requires major <= 7 && WfNum(m) && WfNum(n) && m.ai == n.ai && m.arg < n.arg
    ensures LexLess(SerNum(major, m) + u, SerNum(major, n) + v)
  {
    var k := NumBytes(m.ai);
    assert m.ai >= 24;
    BigEndianOrder(m.arg, n.arg, k);
    LexAppend([major * 32 + m.ai], ToBE(m.arg, k), ToBE(n.arg, k));
    LexExtend(SerNum(major, m), SerNum(major, n), u, v);
  }

  /** With the smaller head number, the RFC goes by length and first byte. */
  lemma SmallerHead(a: Cst, b: Cst)
    requires Definite(a) && Definite(b) && HeadNumber(a) < HeadNumber(b)
    ensures RfcLess(Serialize(a), Serialize(b)) <==> Before(Serialize(a), Serialize(b))
  {
    var u := HeadFirst(a);
    var v := HeadFirst(b);
    var x, y := Serialize(a), Serialize(b);
    if x[0] != y[0] {
      LexFirst(x, y);
    } else {
      HeadByte(x[0], HeadMajor(a), HeadNum(a).ai);
      HeadByte(x[0], HeadMajor(b), HeadNum(b).ai);
      SameHeads(HeadMajor(a), HeadNum(a), HeadNum(b), u, v);
    }
  }

  /** The two orders agree on a pair of keys exactly if the keys do not clash, either way round. */
  lemma OrdersAgree(a: Cst, b: Cst)
    requires Definite(a) && Definite(b)
    ensures (KeyLess(a, b) <==> RfcLess(Serialize(a), Serialize(b))) <==> !Clash(a, b) && !Clash(b, a)
  {
    var x, y := Serialize(a), Serialize(b);
    CompareIsLex(x, y);
    if HeadNumber(a) < HeadNumber(b) {
      SmallerHead(a, b);
    } else if HeadNumber(a) == HeadNumber(b) {
      CompareIsLex(y, x);
      Opposite(x, y);
    } else {
      SmallerHead(b, a);
      RfcTotal(x, y);
      KeyLessDistinct(b, a);
    }
  }

  /** A map the validator finds sorted is sorted for the RFC exactly if no two of its keys clash. */
  lemma MapOrder(items: seq<Cst>)
    requires WfAll(items) && Increasing(items) && forall i | 0 <= i < |items| && i % 2 == 0 :: Definite(items[i])
    ensures (forall i, j | 0 <= i < j < |items| && i % 2 == 0 && j % 2 == 0 ::
               RfcLess(Serialize(items[i]), Serialize(items[j]))) <==>
            (forall i, j | 0 <= i < j < |items| && i % 2 == 0 && j % 2 == 0 :: !Clash(items[i], items[j]))
  {
    forall i, j | 0 <= i < j < |items| && i % 2 == 0 && j % 2 == 0
      ensures RfcLess(Serialize(items[i]), Serialize(items[j])) <==> !Clash(items[i], items[j])
    {
      OneWay(items[i], items[j]);
    }
  }

  /** The same of the maps that validation with unique keys accepts: all their keys have a number. */
  lemma AcceptedOrder(items: seq<Cst>, f: Flags, fp: FloatCheck)
    requires WfAll(items) && UniqueKeys(f) && AcceptItems(None, items, true, f, fp)
    ensures Increasing(items) && forall i | 0 <= i < |items| && i % 2 == 0 :: Definite(items[i])
    ensures (forall i, j | 0 <= i < j < |items| && i % 2 == 0 && j % 2 == 0 ::
               RfcLess(Serialize(items[i]), Serialize(items[j]))) <==>
            (forall i, j | 0 <= i < j < |items| && i % 2 == 0 && j % 2 == 0 :: !Clash(items[i], items[j]))
  {
    KeysIncrease(None, items, f, fp);
    forall i | 0 <= i < |items|
      ensures Definite(items[i])
    {
      AcceptedItem(None, items, true, f, fp, i);
    }
    MapOrder(items);
  }

  /** Of two keys in the validator's order, only the first can clash with the second. */
  lemma OneWay(a: Cst, b: Cst)
    requires Definite(a) && Definite(b) && KeyLess(a, b)
    ensures RfcLess(Serialize(a), Serialize(b)) <==> !Clash(a, b)
  {
    var x, y := Serialize(a), Serialize(b);
    OrdersAgree(a, b);
    CompareIsLex(x, y);
    CompareIsLex(y, x);
    Opposite(x, y);
  }

  // ----- Integers and strings

  /** Integers, and strings in one piece, with shortest heads. */
  predicate PlainKey(c: Cst) {
    Wf(c) && Values.Canonical(c) && (c.Integer? || c.String?)
  }

  /** A clash of integers and strings: integers of one size, or a string not shorter than an integer. */
  predicate PlainClash(a: Cst, b: Cst)
    requires PlainKey(a) && PlainKey(b)
  {
    && HeadNumber(a) < HeadNumber(b) && b.Integer?
    && if a.Integer? then a.negative && !b.negative && NumBytes(HeadNum(a).ai) == NumBytes(HeadNum(b).ai)
       else NumBytes(HeadNum(a).ai) + HeadNumber(a) >= NumBytes(HeadNum(b).ai)
  }

  lemma KeyBytes(c: Cst)
    requires PlainKey(c)
    ensures |Serialize(c)| == 1 + NumBytes(HeadNum(c).ai) + if c.String? then HeadNumber(c) else 0
    ensures Serialize(c)[0] == HeadMajor(c) * 32 + HeadNum(c).ai
  {
    if c.String? {
      SerOneChunk(c.text, c.chunks[0]);
      assert c.chunks == [c.chunks[0]];
    }
  }

  /** A larger number never has a shorter head. */
  lemma HeadsGrow(a: Num, b: Num)
    requires WfNum(a) && WfNum(b) && Shortest(a) && Shortest(b) && a.arg < b.arg
    ensures a.ai <= b.ai && NumBytes(a.ai) <= NumBytes(b.ai)
  {
    PowValues();
  }

  lemma PlainClashes(a: Cst, b: Cst)
    requires PlainKey(a) && PlainKey(b)
    ensures Clash(a, b) <==> PlainClash(a, b)
  {
    hide Before, HeadNum, HeadMajor;
    if HeadNumber(a) < HeadNumber(b) {
      PlainBefore(a, b);
    } else if HeadNumber(a) == HeadNumber(b) && |Serialize(a)| > |Serialize(b)| {
      PlainSame(a, b);
    }
  }

  /** What the key looks like from outside: its size, its first byte and its number. */
  datatype Shape = Shape(text: bool, major: nat, ai: nat, number: nat)

  function ShapeOf(c: Cst): (h: Shape)
    requires PlainKey(c)
  {
    Shape(c.String?, HeadMajor(c), HeadNum(c).ai, HeadNumber(c))
  }

  function ShapeSize(h: Shape): nat {
    1 + NumBytes(h.ai) + if h.text then h.number else 0
  }

  predicate ShapeClash(a: Shape, b: Shape) {
    && a.number < b.number && !b.text
    && if !a.text then a.major > b.major && NumBytes(a.ai) == NumBytes(b.ai)
       else NumBytes(a.ai) + a.number >= NumBytes(b.ai)
  }

  lemma ClashByShape(a: Cst, b: Cst)
    requires PlainKey(a) && PlainKey(b)
    ensures PlainClash(a, b) <==> ShapeClash(ShapeOf(a), ShapeOf(b))
    ensures ShapeOf(a).text <==> ShapeOf(a).major >= 2
  {
  }

  lemma PlainBefore(a: Cst, b: Cst)
    requires PlainKey(a) && PlainKey(b) && HeadNumber(a) < HeadNumber(b)
    ensures Before(Serialize(a), Serialize(b)) <==> !PlainClash(a, b)
  {
    ClashByShape(a, b);
    ClashByShape(b, a);
    KeyBytes(a);
    KeyBytes(b);
    HeadsGrow(HeadNum(a), HeadNum(b));
    BeforeByShape(Serialize(a), Serialize(b), ShapeOf(a), ShapeOf(b));
  }

  lemma BeforeByShape(x: seq<byte>, y: seq<byte>, a: Shape, b: Shape)
    requires a.number < b.number && a.ai <= b.ai < 32 && NumBytes(a.ai) <= NumBytes(b.ai)
    requires (a.text <==> a.major >= 2) && (b.text <==> b.major >= 2)
    requires |x| == ShapeSize(a) && |y| == ShapeSize(b) && x[0] == a.major * 32 + a.ai && y[0] == b.major * 32 + b.ai
    ensures Before(x, y) <==> !ShapeClash(a, b)
  {
    hide NumBytes;
    assert x[0] <= y[0] <==> a.major <= b.major;
  }

  /** A string with an integer's number is longer than the integer, and comes after it bytewise. */
  lemma PlainSame(a: Cst, b: Cst)
    requires PlainKey(a) && PlainKey(b) && HeadNumber(a) == HeadNumber(b) && |Serialize(a)| > |Serialize(b)|
    ensures !LexLess(Serialize(a), Serialize(b))
  {
    KeyBytes(a);
    KeyBytes(b);
    ShortestIsMin(HeadNum(a));
    ShortestIsMin(HeadNum(b));
    LexFirst(Serialize(a), Serialize(b));
  }

  /** String keys never clash with one another, nor do integers of one sign. */
  lemma NoClash(a: Cst, b: Cst)
    requires PlainKey(a) && PlainKey(b)
    requires (a.String? && b.String?) || (a.Integer? && b.Integer? && a.negative == b.negative)
    ensures KeyLess(a, b) <==> RfcLess(Serialize(a), Serialize(b))
  {
    PlainClashes(a, b);
    PlainClashes(b, a);
    OrdersAgree(a, b);
  }

  // ----- Keys that do clash

  ghost predicate Differ(a: Cst, b: Cst) {
    Definite(a) && Definite(b) && KeyLess(a, b) && RfcLess(Serialize(b), Serialize(a))
  }

  /** The validator wants -1 before 10, false before 21 and [24] before [""]; the RFC the other way round. */
  lemma OrdersDiffer()
    ensures Differ(Integer(true, Num(0, 0)), Integer(false, Num(10, 10)))
    ensures Differ(Prim(Num(20, 20)), Integer(false, Num(21, 21)))
    ensures Differ(Container(false, Some(Num(1, 1)), [Integer(false, Num(24, 24))]),
                   Container(false, Some(Num(1, 1)), [String(true, false, [Chunk(Num(0, 0), [])])]))
  {
    assert Serialize(Integer(true, Num(0, 0))) == [0x20] && Serialize(Integer(false, Num(10, 10))) == [0x0a];
    assert Serialize(Prim(Num(20, 20))) == [0xf4] && Serialize(Integer(false, Num(21, 21))) == [0x15];
    ArraysDiffer();
  }

  lemma ArrayOfOne(c: Cst)
    requires Wf(c)
    ensures var a := Container(false, Some(Num(1, 1)), [c]);
            Definite(a) && HeadNumber(a) == 1 && Serialize(a) == [0x81] + Serialize(c)
  {
    var a := Container(false, Some(Num(1, 1)), [c]);
    assert WfAll([c]) && Wf(a);
    assert SerializeAll([c]) == Serialize(c) + SerializeAll([]) == Serialize(c);
    assert SerNum(4, Num(1, 1)) == [0x81];
  }

  lemma Bytes24()
    ensures Wf(Integer(false, Num(24, 24))) && Serialize(Integer(false, Num(24, 24))) == [0x18, 24]
  {
    assert ToBE(24, 1) == ToBE(0, 0) + [24];
  }

  lemma BytesEmpty()
    ensures Wf(String(true, false, [Chunk(Num(0, 0), [])]))
    ensures Serialize(String(true, false, [Chunk(Num(0, 0), [])])) == [0x60]
  {
    SerOneChunk(true, Chunk(Num(0, 0), []));
  }

  lemma ArraysDiffer()
    ensures Differ(Container(false, Some(Num(1, 1)), [Integer(false, Num(24, 24))]),
                   Container(false, Some(Num(1, 1)), [String(true, false, [Chunk(Num(0, 0), [])])]))
  {
    Bytes24();
    BytesEmpty();
    var i, t := Integer(false, Num(24, 24)), String(true, false, [Chunk(Num(0, 0), [])]);
    ArrayOfOne(i);
    ArrayOfOne(t);
    CompareIsLex([0x81] + [0x18, 24], [0x81] + [0x60]);
    LexAppend([0x81], [0x18, 24], [0x60]);
    LexFirst([0x18, 24], [0x60]);
  }
}
