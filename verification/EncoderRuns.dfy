/**
 Whole runs of the encoder: any nesting of containers, any calls inside them, into a buffer of
 any size. A run emits a fixed byte string; the buffer either holds exactly that string or the
 encoder reports exactly how much longer it is.
 */
module EncoderRuns {
  import opened Bytes
  import opened Errors
  import opened Syntax
  import opened Values
  import opened Encoder

  /** One call of the encoder API; `ConOp` is create, the calls inside, and close. */
  datatype Op =
    | UintOp(value: nat)
    | NegativeOp(absolute: nat)
    | IntOp(signed: int)
    | SimpleOp(simple: byte)
    | FloatOp(fpType: byte, bits: nat)
    | TagOp(tag: nat)
    | StringOp(text: bool, data: seq<byte>)
    | ConOp(isMap: bool, length: nat, body: seq<Op>)

  /** The arguments are in the range of their C types. */
  predicate Typed(op: Op) {
    match op
    case UintOp(value) => value < TWO_64
    case NegativeOp(absolute) => absolute < TWO_64
    case IntOp(signed) => -0x8000_0000_0000_0000 <= signed < 0x8000_0000_0000_0000
    case SimpleOp(_) => true
    case FloatOp(fpType, bits) => 0xf9 <= fpType <= 0xfb && bits < Pow256(NumBytes(fpType - 0xe0))
    case TagOp(tag) => tag < TWO_64
    case StringOp(_, data) => |data| < TWO_64
    case ConOp(_, length, body) => length < TWO_64 && forall i | 0 <= i < |body| :: Typed(body[i])
  }

  predicate AllTyped(ops: seq<Op>) {
    forall i | 0 <= i < |ops| :: Typed(ops[i])
  }

  /** The bytes a call emits. */
  function OpBytes(op: Op): (s: seq<byte>)
    requires Typed(op)
    decreases op
  {
    match op
    case UintOp(value) => Encoding(Int(value))
    case NegativeOp(absolute) => Encoding(Int(if absolute == 0 then -TWO_64 else 0 - absolute))
    case IntOp(signed) => Encoding(Int(signed))
    case SimpleOp(simple) => SerNum(7, MinNum(simple))
    case FloatOp(fpType, bits) => Encoding(Float(fpType - 0xe0, bits))
    case TagOp(tag) => SerNum(6, MinNum(tag))
    case StringOp(text, data) => Encoding(Str(text, data))
    case ConOp(isMap, length, body) =>
      ContainerHead(isMap, length) + OpsBytes(body) + if length == SIZE_MAX then [BREAK] else []
  }

  function OpsBytes(ops: seq<Op>): seq<byte>
    requires AllTyped(ops)
    decreases ops
  {
    if ops == [] then [] else OpBytes(ops[0]) + OpsBytes(ops[1..])
  }

  /** How many calls count as items: all but tags. */
  function Items(ops: seq<Op>): nat {
    if ops == [] then 0 else (if ops[0].TagOp? then 0 else 1) + Items(ops[1..])
  }

  /** The error, other than running out of memory, that a run of legal calls ends with. */
  function CloseError(isMap: bool, length: nat, body: seq<Op>): CborError {
    if length == SIZE_MAX || Items(body) == Arity(isMap, length) then NoError
    else if Items(body) > Arity(isMap, length) then TooManyItems
    else TooFewItems
  }

  /** The first error other than running out of memory, if any. */
  function OpError(op: Op): CborError
    decreases op
  {
    match op
    case SimpleOp(simple) => if 25 <= simple <= 31 then IllegalSimpleType else NoError
    case ConOp(isMap, length, body) =>
      if isMap && SIZE_MAX / 2 < length < SIZE_MAX then DataTooLarge
      else if OpsError(body) != NoError then OpsError(body)
      else CloseError(isMap, length, body)
    case _ => NoError
  }

  function OpsError(ops: seq<Op>): CborError
    decreases ops
  {
    if ops == [] then NoError
    else if OpError(ops[0]) != NoError then OpError(ops[0])
    else OpsError(ops[1..])
  }

  lemma {:induction false} OpErrorKinds(op: Op)
    ensures OpError(op) != OutOfMemory
    decreases op
  {
    match op
    case ConOp(_, _, body) => OpsErrorKinds(body);
    case _ =>
  }

  lemma {:induction false} OpsErrorKinds(ops: seq<Op>)
    ensures OpsError(ops) != OutOfMemory
    decreases ops
  {
    if ops != [] {
      OpErrorKinds(ops[0]);
      OpsErrorKinds(ops[1..]);
    }
  }

  /**
   Makes one call, with everything inside it. A caller carries on after running out of memory,
   as the documentation asks, and gives up at any other error.
   */
  method RunOp(e: CborEncoder, op: Op) returns (err: CborError)
    requires e.Valid() && Typed(op)
    modifies e`cur, e`out, e`remaining, e.buf
    ensures OpError(op) != NoError ==> err == OpError(op)
    ensures OpError(op) == NoError ==>
              && e.Valid() && e.out == old(e.out) + OpBytes(op)
              && e.remaining == SatSub(old(e.remaining), if op.TagOp? then 0 else 1)
              && err == if |e.out| > e.buf.Length then OutOfMemory else NoError
    decreases op, 0
  {
    hide Encoding, SerNum, MinNum;
    match op
    case UintOp(value) => err := e.EncodeUint(value);
    case NegativeOp(absolute) => err := e.EncodeNegativeInt(absolute);
    case IntOp(signed) => err := e.EncodeInt(signed);
    case SimpleOp(simple) => err := e.EncodeSimpleValue(simple);
    case FloatOp(fpType, bits) => err := e.EncodeFloatingPoint(fpType, bits);
    case TagOp(tag) => err := e.EncodeTag(tag);
    case StringOp(text, data) => err := e.EncodeString(text, data);
    case ConOp(isMap, length, body) => err := RunContainer(e, op);
  }

  method RunContainer(e: CborEncoder, op: Op) returns (err: CborError)
    requires e.Valid() && op.ConOp? && Typed(op)
    modifies e`cur, e`out, e`remaining, e.buf
    ensures OpError(op) != NoError ==> err == OpError(op)
    ensures OpError(op) == NoError ==>
              && e.Valid() && e.out == old(e.out) + OpBytes(op)
              && e.remaining == SatSub(old(e.remaining), 1)
              && err == if |e.out| > e.buf.Length then OutOfMemory else NoError
    decreases op.body, 3
  {
    var container := Open(e, op.isMap, op.length);
    if container == null {
      return DataTooLarge;
    }
    OpsErrorKinds(op.body);
    err := RunOps(container, op.body);
    if err != NoError && err != OutOfMemory {
      return;
    }
    err := Finish(e, op, container, old(e.out));
  }

  method Finish(e: CborEncoder, op: Op, container: CborEncoder, ghost start: seq<byte>) returns (err: CborError)
    requires op.ConOp? && Typed(op) && e != container && e.remaining < TWO_64
    requires container.Valid() && container.buf == e.buf && container.nullBuffer == e.nullBuffer
    requires container.unknownLength == (op.length == SIZE_MAX)
    requires !container.unknownLength ==> container.remaining == SatSub(Arity(op.isMap, op.length) + 1, Items(op.body))
    requires container.out == start + ContainerHead(op.isMap, op.length) + OpsBytes(op.body)
    modifies e`cur, e`out, e.buf
    ensures CloseError(op.isMap, op.length, op.body) != NoError ==> err == CloseError(op.isMap, op.length, op.body)
    ensures CloseError(op.isMap, op.length, op.body) == NoError ==>
              && e.Valid() && e.out == start + OpBytes(op)
              && err == if |e.out| > e.buf.Length then OutOfMemory else NoError
  {
    ConBytes(op, start);
    err := e.CloseContainer(container);
  }

  lemma ConBytes(op: Op, start: seq<byte>)
    requires op.ConOp? && Typed(op)
    ensures var head, body := ContainerHead(op.isMap, op.length), OpsBytes(op.body);
            |head| > 0 && start + OpBytes(op) == start + head + body + if op.length == SIZE_MAX then [BREAK] else []
  {
    var head, body := ContainerHead(op.isMap, op.length), OpsBytes(op.body);
    var tail := if op.length == SIZE_MAX then [BREAK] else [];
    assert OpBytes(op) == head + body + tail;
    assert start + (head + body + tail) == start + head + body + tail;
  }

  method Open(e: CborEncoder, isMap: bool, length: nat) returns (container: CborEncoder?)
    requires e.Valid() && length < TWO_64
    modifies e`remaining, e.buf
    ensures container == null <==> isMap && SIZE_MAX / 2 < length < SIZE_MAX
    ensures container != null ==>
              && fresh(container) && container.Valid() && container.buf == e.buf
              && container.nullBuffer == e.nullBuffer && container.unknownLength == (length == SIZE_MAX)
              && container.out == e.out + ContainerHead(isMap, length)
              && (!container.unknownLength ==> container.remaining == Arity(isMap, length) + 1)
              && e.remaining == SatSub(old(e.remaining), 1)
  {
    var err;
    if isMap {
      container, err := e.CreateMap(length);
    } else {
      container, err := e.CreateContainer(length, 0x80);
    }
  }

  lemma OpsCons(ops: seq<Op>, start: seq<byte>)
    requires AllTyped(ops) && ops != []
    ensures start + OpsBytes(ops) == start + OpBytes(ops[0]) + OpsBytes(ops[1..])
  {
    assert start + (OpBytes(ops[0]) + OpsBytes(ops[1..])) == start + OpBytes(ops[0]) + OpsBytes(ops[1..]);
  }

  /** Makes the calls one after the other. */
  method RunOps(e: CborEncoder, ops: seq<Op>) returns (err: CborError)
    requires e.Valid() && AllTyped(ops)
    modifies e`cur, e`out, e`remaining, e.buf
    ensures OpsError(ops) != NoError ==> err == OpsError(ops)
    ensures OpsError(ops) == NoError ==>
              && e.Valid() && e.out == old(e.out) + OpsBytes(ops)
              && e.remaining == SatSub(old(e.remaining), Items(ops))
              && err == if ops != [] && |e.out| > e.buf.Length then OutOfMemory else NoError
    decreases ops, 2
  {
    if ops == [] {
      return NoError;
    }
    OpErrorKinds(ops[0]);
    OpsErrorKinds(ops);
    err := RunOp(e, ops[0]);
    if err != NoError && err != OutOfMemory {
      return;
    }
    var first := err;
    OpsCons(ops, old(e.out));
    err := RunOps(e, ops[1..]);
    if err == NoError {
      err := first;
    }
  }

  /**
   The documented way to use the encoder: run it into a buffer of some size and, if that was too
   small, once more into one that is larger by exactly the reported number of bytes.
   */
  method EncodeGrowing(ops: seq<Op>, size: nat) returns (data: seq<byte>, extra: nat)
    requires AllTyped(ops) && OpsError(ops) == NoError
    ensures data == OpsBytes(ops)
    ensures extra == if |data| > size then |data| - size else 0
  {
    var buffer := new byte[size];
    var e := new CborEncoder(buffer);
    var err := RunOps(e, ops);
    extra := e.ExtraBytesNeeded();
    if err == OutOfMemory {
      buffer := new byte[size + extra];
      e := new CborEncoder(buffer);
      err := RunOps(e, ops);
      assert err == NoError;
    }
    data := buffer[..e.cur.ptr];
  }

  // ----- Encoding a value

  /** The calls that encode a value: a tag is a call of its own. */
  function ToOps(v: Value): seq<Op> {
    match v
    case Int(n) => [if n >= 0 then UintOp(n) else NegativeOp(if n <= -TWO_64 then 0 else 0 - n)]
    case Str(text, data) => [StringOp(text, data)]
    case Con(isMap, items) => [ConOp(isMap, Entries(isMap, |items|), AllToOps(items))]
    case Tagged(tag, content) => [TagOp(tag)] + ToOps(content)
    case Simple(n) => [SimpleOp(if n < 256 then n else 0)]
    case Float(ai, bits) => [FloatOp(if ai < 32 then 0xe0 + ai else 0, bits)]
  }

  function AllToOps(items: seq<Value>): seq<Op> {
    if items == [] then [] else ToOps(items[0]) + AllToOps(items[1..])
  }

  /** No container is longer than the encoder can announce. */
  predicate Countable(v: Value) {
    match v
    case Con(isMap, items) =>
      Entries(isMap, |items|) <= SIZE_MAX / 2 && forall i | 0 <= i < |items| :: Countable(items[i])
    case Tagged(_, content) => Countable(content)
    case _ => true
  }

  predicate RunsTo(ops: seq<Op>, s: seq<byte>, items: nat) {
    AllTyped(ops) && OpsError(ops) == NoError && OpsBytes(ops) == s && Items(ops) == items
  }

  function Counts(op: Op): nat {
    if op.TagOp? then 0 else 1
  }

  lemma RunsToCons(op: Op, ops: seq<Op>, s: seq<byte>, m: nat)
    requires Typed(op) && OpError(op) == NoError && RunsTo(ops, s, m)
    ensures RunsTo([op] + ops, OpBytes(op) + s, Counts(op) + m)
  {
    assert ([op] + ops)[0] == op && ([op] + ops)[1..] == ops;
  }

  lemma RunsToNil(s: seq<byte>, m: nat)
    requires RunsTo([], s, m)
    ensures s == [] && m == 0
  {
  }

  lemma RunsToRest(ops: seq<Op>, s: seq<byte>, m: nat) returns (s': seq<byte>, m': nat)
    requires ops != [] && RunsTo(ops, s, m)
    ensures Typed(ops[0]) && OpError(ops[0]) == NoError && RunsTo(ops[1..], s', m')
    ensures s == OpBytes(ops[0]) + s' && m == Counts(ops[0]) + m'
  {
    s', m' := OpsBytes(ops[1..]), Items(ops[1..]);
  }

  lemma FirstAndRest(a: seq<Op>, b: seq<Op>)
    requires a != []
    ensures [a[0]] + (a[1..] + b) == a + b
  {
  }

  lemma {:induction false} RunsToConcat(a: seq<Op>, s: seq<byte>, m: nat, b: seq<Op>, t: seq<byte>, n: nat)
    requires RunsTo(a, s, m) && RunsTo(b, t, n)
    ensures RunsTo(a + b, s + t, m + n)
    decreases |a|
  {
    hide RunsTo, Counts;
    if a == [] {
      RunsToNil(s, m);
      assert a + b == b && s + t == t;
    } else {
      var s', m' := RunsToRest(a, s, m);
      RunsToConcat(a[1..], s', m', b, t, n);
      RunsToCons(a[0], a[1..] + b, s' + t, m' + n);
      FirstAndRest(a, b);
      Associative(OpBytes(a[0]), s', t);
    }
  }

  lemma RunsToOne(op: Op, s: seq<byte>)
    requires Typed(op) && OpError(op) == NoError && OpBytes(op) == s
    ensures RunsTo([op], s, if op.TagOp? then 0 else 1)
  {
    assert OpsBytes([op]) == OpBytes(op) + OpsBytes([]);
    assert OpsError([op][1..]) == NoError && Items([op][1..]) == 0;
  }

  /** The calls for a value are legal and emit its canonical encoding. */
  lemma {:induction false} ToOpsRuns(v: Value)
    requires Valid(v) && Countable(v)
    ensures RunsTo(ToOps(v), Encoding(v), 1)
    decreases v, 0
  {
    match v
    case Tagged(tag, content) =>
      RunsToOne(TagOp(tag), SerNum(6, MinNum(tag)));
      ToOpsRuns(content);
      CanonWf(content);
      RunsToConcat([TagOp(tag)], SerNum(6, MinNum(tag)), 0, ToOps(content), Encoding(content), 1);
    case Con(isMap, items) =>
      AllToOpsRun(items);
      ConRuns(v);
    case _ => LeafRuns(v);
  }

  lemma LeafRuns(v: Value)
    requires Valid(v) && !v.Con? && !v.Tagged?
    ensures RunsTo(ToOps(v), Encoding(v), 1)
  {
    RunsToOne(ToOps(v)[0], Encoding(v));
  }

  lemma ConRuns(v: Value)
    requires v.Con? && Valid(v) && Countable(v) && WfAll(CanonAll(v.items))
    requires RunsTo(AllToOps(v.items), SerializeAll(CanonAll(v.items)), |v.items|)
    ensures RunsTo(ToOps(v), Encoding(v), 1)
  {
    var op := ToOps(v)[0];
    assert OpBytes(op) == ContainerHead(v.isMap, op.length) + SerializeAll(CanonAll(v.items));
    RunsToOne(op, Encoding(v));
  }

  lemma {:induction false} AllToOpsRun(items: seq<Value>)
    requires forall i | 0 <= i < |items| :: Valid(items[i]) && Countable(items[i])
    ensures WfAll(CanonAll(items)) && RunsTo(AllToOps(items), SerializeAll(CanonAll(items)), |items|)
    decreases items, 1
  {
    forall i | 0 <= i < |items| { CanonWf(items[i]); }
    if items != [] {
      ToOpsRuns(items[0]);
      AllToOpsRun(items[1..]);
      RunsToConcat(ToOps(items[0]), Encoding(items[0]), 1,
                   AllToOps(items[1..]), SerializeAll(CanonAll(items[1..])), |items| - 1);
      assert CanonAll(items)[1..] == CanonAll(items[1..]);
    }
  }

  /** Encodes a value into a buffer of the caller's. */
  method EncodeValue(e: CborEncoder, v: Value) returns (err: CborError)
    requires e.Valid() && Valid(v) && Countable(v)
    modifies e`cur, e`out, e`remaining, e.buf
    ensures e.Valid() && e.out == old(e.out) + Encoding(v)
    ensures err == if |e.out| > e.buf.Length then OutOfMemory else NoError
  {
    ToOpsRuns(v);
    err := RunOps(e, ToOps(v));
  }
}
