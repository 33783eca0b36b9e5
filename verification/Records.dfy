/**
 Reading an array field by field, the way the wire formats do: check the type of the next item,
 take it, and at the end leave the array. Every step either takes the next item of the array or
 shows that it is not of the kind asked for.
 */
module Records {
  import opened Bytes
  import opened Errors
  import opened Syntax
  import opened Values
  import opened Places
  import opened Parser
  import opened Strings
  import opened StringApi
  import opened Traversal

  /** The items of the array a buffer starts with. */
  function Record(data: seq<byte>): Parse<seq<Cst>> {
    match ParseItem(data, 0)
    case Ok(Container(false, len, items), q) => if LenFits(false, len) then Ok(items, q) else Fail
    case _ => Fail
  }

  /** The items the iterator has not taken yet. */
  ghost function Left(it: CborValue): Parse<seq<Cst>>
    reads it
  {
    Ahead(it.data, it.Where(), false)
  }

  ghost predicate InArray(it: CborValue)
    reads it
  {
    it.Is(it.Where()) && (it.remaining != 0 ==> !it.isMap)
  }

  /** Whatever comes next, it is no item of this kind. */
  ghost predicate NoSuchItem(a: Parse<seq<Cst>>, kind: Cst -> bool) {
    a.Ok? && a.value != [] ==> !kind(a.value[0])
  }

  predicate IsSimple(c: Cst) {
    c.Prim? && (c.num.ai < 20 || c.num.ai == 24)
  }

  predicate IsInteger(c: Cst) {
    c.Integer?
  }

  predicate IsBytes(c: Cst) {
    c.String? && !c.text
  }

  predicate IsPlainBytes(c: Cst) {
    IsBytes(c) && !c.indefinite
  }

  lemma ConsItems(c: Cst, a: Parse<seq<Cst>>)
    ensures Cons(c, a).Ok? <==> a.Ok?
    ensures a.Ok? ==>
              var items := Cons(c, a).value;
              |items| == |a.value| + 1 && items[0] == c && forall i | 0 <= i < |a.value| :: items[i + 1] == a.value[i]
  {
  }

  lemma FirstLeft(it: CborValue)
    requires InArray(it) && it.remaining != 0
    ensures Left(it).Ok? ==>
              && Left(it).value != [] && ParseItem(it.data, it.ptr).Ok?
              && Left(it).value[0] == ParseItem(it.data, it.ptr).value
  {
    StepAhead(it.data, it.ptr, it.remaining, false, it.key);
  }

  lemma KindOf(s: seq<byte>, p: nat)
    requires HeadOk(s, p) && ParseItem(s, p).Ok?
    ensures var c := ParseItem(s, p).value;
            && (IsSimple(c) <==> TypeAt(s, p) == SIMPLE) && (IsInteger(c) <==> TypeAt(s, p) == INTEGER)
            && (IsBytes(c) <==> TypeAt(s, p) == BYTE_STRING)
            && (IsBytes(c) ==> (c.indefinite <==> s[p] % 32 == 31))
  {
  }

  /** An iterator that is not on an item of the kind has none to take. */
  lemma WrongKind(it: CborValue)
    requires InArray(it)
    ensures it.typ != SIMPLE ==> NoSuchItem(Left(it), IsSimple)
    ensures it.typ != INTEGER ==> NoSuchItem(Left(it), IsInteger)
    ensures it.typ != BYTE_STRING ==> NoSuchItem(Left(it), IsBytes)
    ensures it.typ != BYTE_STRING || it.unknownLength ==> NoSuchItem(Left(it), IsPlainBytes)
  {
    if it.remaining != 0 {
      FirstLeft(it);
      if ParseItem(it.data, it.ptr).Ok? {
        KindOf(it.data, it.ptr);
      }
    }
  }

  /** `cbor_parser_init`, `cbor_value_is_array` and `cbor_value_enter_container`. */
  method OpenArray(data: seq<byte>) returns (ok: bool, value: CborValue, it: CborValue)
    requires |data| < TWO_64
    ensures fresh(value) && fresh(it) && value != it
    ensures ok ==> it.data == value.data == data && InArray(it) && Left(it) == Record(data)
    ensures ok ==> value.typ == ARRAY && value.remaining == 1
    ensures !ok ==> Record(data).Fail?
  {
    var err;
    value, err := CborValue.Init(data);
    it := new CborValue.Copy(value);
    if err != NoError {
      BadHead(data, 0);
      return false, value, it;
    }
    if value.typ != ARRAY {
      NoArray(data);
      return false, value, it;
    }
    ContainerKind(value);
    EnterAhead(data, 0);
    hide TypeAt, ExtraAt, Enter, Ahead;
    it, err := value.EnterContainer();
    ok := err == NoError;
  }

  lemma NoArray(data: seq<byte>)
    requires HeadOk(data, 0) && TypeAt(data, 0) != ARRAY
    ensures Record(data).Fail?
  {
    if data[0] / 32 == 5 {
      assert ParseItem(data, 0) == ParseContainer(data, 0);
      assert ParseContainer(data, 0).Ok? ==> ParseContainer(data, 0).value.isMap;
    }
  }

  /** `cbor_value_get_simple_type` and `cbor_value_advance`. */
  method TakeSimple(it: CborValue) returns (ok: bool, v: byte, ghost c: Cst)
    requires InArray(it)
    modifies it`ptr, it`remaining, it`typ, it`extra, it`tooLarge, it`bit1, it`unknownLength, it`key
    ensures ok ==> InArray(it) && IsSimple(c) && c.num.arg == v < 256 && old(Left(it)) == Cons(c, Left(it))
    ensures !ok ==> NoSuchItem(old(Left(it)), IsSimple)
  {
    WrongKind(it);
    c, v := Prim(Num(0, 0)), 0;
    if it.typ != SIMPLE {
      return false, v, c;
    }
    ParseGood(it.data, it.ptr);
    OneByteArg(it.data, it.ptr);
    StepAhead(it.data, it.ptr, it.remaining, false, it.key);
    c, v := ParseItem(it.data, it.ptr).value, it.extra;
    var err := Advance(it);
    ok := err == NoError;
  }

  /** `cbor_value_get_int64` and `cbor_value_advance`; the number is read modulo 2^64, as the source does. */
  method TakeInteger(it: CborValue) returns (ok: bool, negative: bool, raw: nat, ghost c: Cst)
    requires InArray(it)
    modifies it`ptr, it`remaining, it`typ, it`extra, it`tooLarge, it`bit1, it`unknownLength, it`key
    ensures ok ==> InArray(it) && c.Integer? && c.num.arg == raw && c.negative == negative
    ensures ok ==> old(Left(it)) == Cons(c, Left(it))
    ensures !ok ==> NoSuchItem(old(Left(it)), IsInteger)
  {
    WrongKind(it);
    c, negative, raw := Prim(Num(0, 0)), false, 0;
    if it.typ != INTEGER {
      return false, negative, raw, c;
    }
    ParseGood(it.data, it.ptr);
    StepAhead(it.data, it.ptr, it.remaining, false, it.key);
    c, negative := ParseItem(it.data, it.ptr).value, it.bit1;
    raw := it.ExtractInt64();
    var err := Advance(it);
    ok := err == NoError;
  }

  /** `cbor_value_copy_byte_string` into a buffer of `buflen` bytes, which also advances. */
  method TakeBytes(it: CborValue, buflen: nat) returns (ok: bool, bytes: seq<byte>, ghost c: Cst)
    requires InArray(it)
    modifies it`ptr, it`remaining, it`typ, it`extra, it`tooLarge, it`bit1, it`unknownLength, it`key
    ensures ok ==> InArray(it) && IsBytes(c) && Content(c.chunks) == bytes && |bytes| <= buflen
    ensures ok ==> old(Left(it)) == Cons(c, Left(it))
    ensures ok ==> c.indefinite == old(it.unknownLength)
    ensures !ok ==> NoSuchItem(old(Left(it)), c => IsBytes(c) && |Content(c.chunks)| <= buflen)
  {
    WrongKind(it);
    c, bytes := Prim(Num(0, 0)), [];
    if it.typ != BYTE_STRING {
      return false, bytes, c;
    }
    BytesAhead(it);
    if ParseItem(it.data, it.ptr).Ok? {
      c := ParseItem(it.data, it.ptr).value;
    }
    hide TypeAt, ExtraAt, HeadOk, Ahead;
    var buffer := new byte[buflen];
    var err, len := CopyString(it, Memcpy(buffer, 0), buflen);
    ok := err == NoError;
    if ok {
      bytes := buffer[..len];
      assert Took(Memcpy(buffer, 0), bytes);
      assert len < buflen ==> buffer[0..len + 1][..len] == buffer[..len];
      assert buffer[0..len] == buffer[..len];
    }
  }

  /** The same after `cbor_value_get_string_length`, which knows the length of strings in one piece only. */
  method TakePlainBytes(it: CborValue) returns (ok: bool, bytes: seq<byte>, ghost c: Cst)
    requires InArray(it)
    modifies it`ptr, it`remaining, it`typ, it`extra, it`tooLarge, it`bit1, it`unknownLength, it`key
    ensures ok ==> InArray(it) && IsPlainBytes(c) && Content(c.chunks) == bytes && old(Left(it)) == Cons(c, Left(it))
    ensures !ok ==> NoSuchItem(old(Left(it)), IsPlainBytes)
  {
    WrongKind(it);
    if it.typ != BYTE_STRING || it.unknownLength {
      return false, [], Prim(Num(0, 0));
    }
    PlainLength(it);
    var len := it.ExtractInt64();
    ok, bytes, c := TakeBytes(it, len);
  }

  lemma PlainLength(it: CborValue)
    requires InArray(it) && it.typ == BYTE_STRING && !it.unknownLength
    ensures it.Cached() && it.data[it.ptr] % 32 != 31 && it.data[it.ptr] / 32 <= 6
    ensures Left(it).Ok? ==>
              && Left(it).value != [] && IsPlainBytes(Left(it).value[0])
              && |Content(Left(it).value[0].chunks)| == ArgAt(it.data, it.ptr)
  {
    BytesAhead(it);
    if Left(it).Ok? {
      OneChunk(it.data, it.ptr);
    }
  }

  lemma OneChunk(s: seq<byte>, p: nat)
    requires HeadOk(s, p) && s[p] / 32 == 2 && s[p] % 32 != 31 && ParseString(s, p).Ok?
    ensures |Content(ParseString(s, p).value.chunks)| == ArgAt(s, p)
  {
    var c := ParseChunk(s, p, 2).value;
    assert [c][1..] == [];
    assert Content([c]) == c.data + Content([]);
  }

  lemma BytesAhead(it: CborValue)
    requires InArray(it) && it.typ == BYTE_STRING
    ensures it.OnItem() && it.IsString() && it.remaining != 0
    ensures ParseItem(it.data, it.ptr) == ParseString(it.data, it.ptr)
    ensures AfterString(it) == Bad ==> Left(it).Fail?
    ensures AfterString(it) != Bad ==>
              var c := ParseItem(it.data, it.ptr).value;
              && ParseItem(it.data, it.ptr).Ok? && IsBytes(c) && c.indefinite == it.unknownLength
              && StringContent(it) == Content(c.chunks)
              && Left(it) == Cons(c, Ahead(it.data, AfterString(it), false))
  {
    ParseStringChunks(it);
    StepAhead(it.data, it.ptr, it.remaining, false, it.key);
  }

  /** `cbor_value_leave_container`, which asserts that nothing is left in the array. */
  method CloseArray(value: CborValue, it: CborValue) returns (ok: bool)
    requires InArray(it) && value != it && value.data == it.data && value.typ == ARRAY && value.remaining == 1
    modifies value`ptr, value`remaining, value`typ, value`extra, value`tooLarge, value`bit1,
             value`unknownLength, value`key
    ensures ok <==> Left(it).Ok? && Left(it).value == []
  {
    if it.typ != INVALID {
      FirstLeft(it);
      return false;
    }
    assert it.remaining == 0;
    var err := value.LeaveContainer(it);
    ok := err == NoError;
  }
}
