/**
 The data model of RFC 7049: what an item means, and its canonical form (section 3.9 of RFC 7049:
 shortest numbers, definite lengths). Floats stay raw bits of the width they were sent with.
 */
module Values {
  import opened Bytes
  import opened Wrappers
  import opened Syntax

  /** `Con` is an array, or a map given as key, value, key, value, ... */
  datatype Value =
    | Int(n: int)
    | Str(text: bool, data: seq<byte>)
    | Con(isMap: bool, items: seq<Value>)
    | Tagged(tag: nat, content: Value)
    | Simple(simple: nat)
    | Float(ai: nat, bits: nat)

  /** The declared length of a container of `n` items: a map counts pairs. */
  function Entries(isMap: bool, n: nat): nat {
    if isMap then n / 2 else n
  }

  predicate Valid(v: Value) {
    match v
    case Int(n) => -TWO_64 <= n < TWO_64
    case Str(_, data) => |data| < TWO_64
    case Con(isMap, items) =>
      Entries(isMap, |items|) < TWO_64 && (isMap ==> |items| % 2 == 0) && forall i | 0 <= i < |items| :: Valid(items[i])
    case Tagged(tag, content) => tag < TWO_64 && Valid(content)
    case Simple(n) => n < 24 || 32 <= n < 256
    case Float(ai, bits) => 25 <= ai <= 27 && bits < Pow256(NumBytes(ai))
  }

  // ----- The meaning of a tree

  function Content(chunks: seq<Chunk>): seq<byte> {
    if chunks == [] then [] else chunks[0].data + Content(chunks[1..])
  }

  function ToValue(c: Cst): Value {
    match c
    case Integer(negative, num) => Int(if negative then -1 - num.arg else num.arg)
    case String(text, _, chunks) => Str(text, Content(chunks))
    case Container(isMap, _, items) => Con(isMap, ToValues(items))
    case Tag(num, item) => Tagged(num.arg, ToValue(item))
    case Prim(num) => if num.ai >= 25 then Float(num.ai, num.arg) else Simple(num.arg)
  }

  function ToValues(items: seq<Cst>): (vs: seq<Value>)
    ensures |vs| == |items|
  {
    seq(|items|, i requires 0 <= i < |items| => ToValue(items[i]))
  }

  // ----- The canonical tree of a value

  function MinNum(n: nat): (num: Num)
    requires n < TWO_64
    ensures num.arg == n && WfNum(num) && num.ai <= 27
  {
    PowValues();
    if n < 24 then Num(n, n)
    else if n <= 0xff then Num(24, n)
    else if n <= 0xffff then Num(25, n)
    else if n <= 0xffff_ffff then Num(26, n)
    else Num(27, n)
  }

  function Canon(v: Value): (c: Cst)
    requires Valid(v)
  {
    match v
    case Int(n) => if n >= 0 then Integer(false, MinNum(n)) else Integer(true, MinNum(-1 - n))
    case Str(text, data) => String(text, false, [Chunk(MinNum(|data|), data)])
    case Con(isMap, items) => Container(isMap, Some(MinNum(Entries(isMap, |items|))), CanonAll(items))
    case Tagged(tag, content) => Tag(MinNum(tag), Canon(content))
    case Simple(n) => Prim(MinNum(n))
    case Float(ai, bits) => Prim(Num(ai, bits))
  }

  function CanonAll(items: seq<Value>): (cs: seq<Cst>)
    requires forall i | 0 <= i < |items| :: Valid(items[i])
    ensures |cs| == |items|
  {
    seq(|items|, i requires 0 <= i < |items| => Canon(items[i]))
  }

  lemma {:induction false} CanonWf(v: Value)
    requires Valid(v)
    ensures Wf(Canon(v))
  {
    match v
    case Con(_, items) => forall i | 0 <= i < |items| { CanonWf(items[i]); }
    case Tagged(_, content) => CanonWf(content);
    case _ =>
  }

  /** Reading the canonical tree of a value gives the value back. */
  lemma {:induction false} ToValueCanon(v: Value)
    requires Valid(v)
    ensures ToValue(Canon(v)) == v
  {
    match v
    case Str(_, data) =>
      assert Content([Chunk(MinNum(|data|), data)]) == data + Content([]);
    case Con(isMap, items) =>
      forall i | 0 <= i < |items| { ToValueCanon(items[i]); }
      assert ToValues(CanonAll(items)) == items;
    case Tagged(_, content) => ToValueCanon(content);
    case _ =>
  }

  /** The bytes the encoder is expected to write for a value. */
  function Encoding(v: Value): (s: seq<byte>)
    requires Valid(v)
  {
    CanonWf(v);
    Serialize(Canon(v))
  }

  /** Reading undoes writing, wherever the encoding sits. */
  lemma ParseEncoding(s: seq<byte>, p: nat, v: Value)
    requires Valid(v) && Sits(s, p, Encoding(v))
    ensures ParseItem(s, p) == Ok(Canon(v), p + |Encoding(v)|)
    ensures ToValue(ParseItem(s, p).value) == v
  {
    CanonWf(v);
    ParseComplete(s, p, Canon(v));
    ToValueCanon(v);
  }

  // ----- Canonical trees are determined by their meaning

  /** No shorter head would do for this number. */
  predicate Shortest(num: Num) {
    match num.ai
    case 24 => num.arg >= 24
    case 25 => num.arg > 0xff
    case 26 => num.arg > 0xffff
    case 27 => num.arg > 0xffff_ffff
    case _ => true
  }

  /** Shortest integers and lengths, and no indefinite length, anywhere in the tree. */
  predicate Canonical(c: Cst) {
    match c
    case Integer(_, num) => Shortest(num)
    case String(_, indefinite, chunks) => !indefinite && |chunks| == 1 && Shortest(chunks[0].num)
    case Container(_, len, items) =>
      len.Some? && Shortest(len.value) && forall i | 0 <= i < |items| :: Canonical(items[i])
    case Tag(num, item) => Shortest(num) && Canonical(item)
    case Prim(num) => num.ai <= 24 ==> Shortest(num)
  }

  lemma ShortestIsMin(num: Num)
    requires WfNum(num) && Shortest(num)
    ensures num.arg < TWO_64 && num == MinNum(num.arg)
  {
    PowValues();
  }

  lemma {:induction false} CanonicalIsCanon(c: Cst)
    requires Wf(c) && Canonical(c)
    ensures Valid(ToValue(c)) && c == Canon(ToValue(c))
  {
    match c
    case Integer(_, num) => ShortestIsMin(num);
    case Prim(num) =>
      if num.ai <= 24 { ShortestIsMin(num); }
    case Tag(num, item) =>
      ShortestIsMin(num);
      CanonicalIsCanon(item);
    case String(_, _, chunks) =>
      ShortestIsMin(chunks[0].num);
      assert Content(chunks) == chunks[0].data + Content(chunks[1..]) == chunks[0].data;
      assert chunks == [Chunk(MinNum(|Content(chunks)|), Content(chunks))];
    case Container(isMap, len, items) =>
      ShortestIsMin(len.value);
      forall i | 0 <= i < |items|
        ensures Valid(ToValue(items[i])) && items[i] == Canon(ToValue(items[i]))
      {
        CanonicalIsCanon(items[i]);
      }
      assert forall i | 0 <= i < |items| :: ToValues(items)[i] == ToValue(items[i]);
      assert CanonAll(ToValues(items)) == items;
  }
}
