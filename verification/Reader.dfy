/**
 A program that uses only the iterator: it reads whatever item the iterator stands on, through
 the typed getters, entering and leaving containers. What it reads is the value of the item; so
 reading back what the encoder wrote gives the value that was encoded.
 */
module Reader {
  import opened Bytes
  import opened Errors
  import opened Syntax
  import opened Values
  import opened Encoder
  import opened EncoderRuns
  import opened Limits
  import opened Places
  import opened Parser
  import opened Strings
  import opened StringApi
  import opened Traversal

  ghost function ValueAt(it: CborValue): Value
    reads it
  {
    match ParseItem(it.data, it.ptr)
    case Ok(c, _) => ToValue(c)
    case Fail => Int(0)
  }

  ghost function AfterItem(it: CborValue, n: nat): Place
    reads it
  {
    After(it.data, it.ptr, it.remaining, it.isMap, it.key, n)
  }

  method ReadItem(it: CborValue, n: nat) returns (err: CborError, v: Value)
    requires it.OnItem()
    modifies it
    ensures err == NoError <==> old(AfterItem(it, n)) != Bad
    ensures err == NoError ==> it.Is(old(AfterItem(it, n))) && it.isMap == old(it.isMap) && v == old(ValueAt(it))
    decreases n, |it.data| - it.ptr, 1
  {
    if it.IsContainer() {
      err, v := ReadContainer(it, n);
    } else if it.IsString() {
      err, v := ReadString(it, n);
    } else if it.typ == TAG {
      ghost var p := it.ptr;
      TagAfter(it.data, it.ptr, it.remaining, it.isMap, it.key, n);
      var tag := it.ExtractInt64();
      err := it.AdvanceFixed();
      if err != NoError {
        return err, Int(0);
      }
      err, v := ReadItem(it, n);
      v := Tagged(tag, v);
    } else {
      err, v := ReadFixed(it, n);
    }
  }

  lemma TagAfter(s: seq<byte>, p: nat, r: nat, isMap: bool, k: bool, n: nat)
    requires HeadOk(s, p) && s[p] / 32 == 6 && 0 < r <= UINT32_MAX
    ensures var Ok(num, h) := ParseNum(s, p);
            && p < h
            && (Resume(s, h, r, isMap, k, true) != Bad ==> Resume(s, h, r, isMap, k, true) == At(h, r, k))
            && (Resume(s, h, r, isMap, k, true) == Bad ==> After(s, p, r, isMap, k, n) == Bad)
            && After(s, p, r, isMap, k, n) == After(s, h, r, isMap, k, n)
            && (ParseItem(s, p).Ok? ==> ParseItem(s, h).Ok? && ParseItem(s, p).value == Tag(num, ParseItem(s, h).value))
  {
    TagParse(s, p);
    hide HeadOk, Next, ParseNum;
    var h := ParseNum(s, p).next;
    if !HeadOk(s, h) {
      BadHead(s, h);
    }
  }

  lemma TagParse(s: seq<byte>, p: nat)
    requires HeadOk(s, p) && s[p] / 32 == 6
    ensures ParseNum(s, p).Ok?
    ensures var Ok(num, h) := ParseNum(s, p);
            ParseItem(s, p) == match ParseItem(s, h) { case Ok(c, q) => Ok(Tag(num, c), q) case Fail => Fail }
  {
  }

  method ReadString(it: CborValue, ghost n: nat) returns (err: CborError, v: Value)
    requires it.OnItem() && it.IsString()
    modifies it
    ensures err == NoError <==> old(AfterItem(it, n)) != Bad
    ensures err == NoError ==> it.Is(old(AfterItem(it, n))) && it.isMap == old(it.isMap) && v == old(ValueAt(it))
  {
    ParseStringChunks(it);
    var text := it.typ == TEXT_STRING;
    var buffer, len;
    err, buffer, len := DupString(it);
    if err != NoError {
      return err, Int(0);
    }
    v := Str(text, buffer[..len]);
  }

  /** Integers, simple values and floats, through the getters. */
  method ReadFixed(it: CborValue, ghost n: nat) returns (err: CborError, v: Value)
    requires it.OnItem() && IsFixed(it.typ) && it.typ != TAG
    modifies it
    ensures err == NoError <==> old(AfterItem(it, n)) != Bad
    ensures err == NoError ==> it.Is(old(AfterItem(it, n))) && it.isMap == old(it.isMap) && v == old(ValueAt(it))
  {
    ParseGood(it.data, it.ptr);
    v := GetFixed(it);
    err := it.AdvanceFixed();
  }

  method GetFixed(it: CborValue) returns (v: Value)
    requires it.OnItem() && IsFixed(it.typ) && it.typ != TAG
    ensures v == ValueAt(it)
  {
    ParseGood(it.data, it.ptr);
    OneByteArg(it.data, it.ptr);
    if it.typ == INTEGER {
      var raw: int;
      raw := it.ExtractInt64();
      v := Int(if it.bit1 then -1 - raw else raw);
    } else if it.typ == BOOLEAN {
      v := Simple(if it.extra != 0 then 21 else 20);
    } else if it.typ == NULL {
      v := Simple(22);
    } else if it.typ == UNDEFINED {
      v := Simple(23);
    } else if it.typ == SIMPLE {
      v := Simple(it.extra);
    } else {
      var bits := FloatBits(it);
      v := Float(it.typ - 0xe0, bits);
    }
  }

  method ReadContainer(it: CborValue, n: nat) returns (err: CborError, v: Value)
    requires it.OnItem() && it.IsContainer()
    modifies it
    ensures err == NoError <==> old(AfterItem(it, n)) != Bad
    ensures err == NoError ==> it.Is(old(AfterItem(it, n))) && it.isMap == old(it.isMap) && v == old(ValueAt(it))
    decreases n, |it.data| - it.ptr, 0
  {
    ContainerKind(it);
    ContainerAfter(it.data, it.ptr, it.remaining, it.isMap, it.key, n);
    hide TypeAt, ExtraAt, HeadOk, Enter, Ahead, Next, After, Inside, Step;
    var inMap := it.typ == MAP;
    v := Int(0);
    if n == 0 {
      return NestingTooDeep, v;
    }
    var recursed;
    recursed, err := it.EnterContainer();
    if err != NoError {
      return;
    }
    var vs;
    err, vs := ReadAll(recursed, n - 1, inMap);
    if err != NoError {
      return;
    }
    v := Con(inMap, vs);
    err := it.LeaveContainer(recursed);
  }

  /** Behind a container is where its items end. */
  lemma ContainerAfter(s: seq<byte>, p: nat, r: nat, isMap: bool, k: bool, n: nat)
    requires HeadOk(s, p) && 4 <= s[p] / 32 <= 5
    ensures var ahead := Ahead(s, Enter(s, p), s[p] / 32 == 5);
            && (n == 0 ==> After(s, p, r, isMap, k, n) == Bad)
            && (n > 0 ==> After(s, p, r, isMap, k, n) ==
                          if Reach(ahead, n - 1).Some? then Next(s, ahead.next, r, isMap, k) else Bad)
            && (n > 0 && Reach(ahead, n - 1).Some? ==>
                  ParseItem(s, p).Ok? && ToValue(ParseItem(s, p).value) == Con(s[p] / 32 == 5, ToValues(ahead.value)))
  {
    EnterAhead(s, p);
    ContainerStep(s, p, r, isMap, k, n);
  }

  method ReadAll(recursed: CborValue, n: nat, ghost inMap: bool) returns (err: CborError, vs: seq<Value>)
    requires recursed.Is(recursed.Where()) && (recursed.remaining != 0 ==> recursed.isMap == inMap)
    modifies recursed
    ensures var ahead := old(Ahead(recursed.data, recursed.Where(), inMap));
            && (err == NoError <==> Reach(ahead, n).Some?)
            && (err == NoError ==> recursed.Is(End(ahead.next)) && vs == ToValues(ahead.value))
    decreases n, |recursed.data| + 1, 0
  {
    ghost var s, all := recursed.data, Ahead(recursed.data, recursed.Where(), inMap);
    ghost var done: seq<Cst> := [];
    vs := [];
    PrependNil(all);
    while recursed.remaining != 0
      invariant recursed.Is(recursed.Where()) && (recursed.remaining != 0 ==> recursed.isMap == inMap)
      invariant Reach(Ahead(s, recursed.Where(), inMap), n) == Reach(all, n)
      invariant all == Prepend(done, Ahead(s, recursed.Where(), inMap)) && vs == ToValues(done)
      decreases |s| - recursed.ptr
    {
      ghost var c := ParseItem(s, recursed.ptr);
      AfterAhead(s, recursed.ptr, recursed.remaining, inMap, recursed.key, n);
      AfterMoves(s, recursed.ptr, recursed.remaining, inMap, recursed.key, n);
      var v;
      err, v := ReadItem(recursed, n);
      if err != NoError {
        return;
      }
      PrependCons(done, c.value, Ahead(s, recursed.Where(), inMap));
      vs := vs + [v];
      done := done + [c.value];
    }
    assert done + [] == done;
    err := NoError;
  }

  lemma AfterMoves(s: seq<byte>, p: nat, r: nat, isMap: bool, k: bool, n: nat)
    ensures var pl := After(s, p, r, isMap, k, n); pl != Bad ==> p < pl.p
  {
  }

  // ----- Whole buffers

  /**
   Walks the first item of any buffer, entering and leaving containers: succeeds exactly if the
   buffer starts with a well-formed item that can be counted, at any depth.
   */
  method ReadFirst(data: seq<byte>) returns (err: CborError, v: Value, used: nat)
    requires |data| < TWO_64
    ensures err == NoError <==> exists c :: StartsWithItem(data, 0, c) && CountsFit(c)
    ensures err == NoError ==> ParseItem(data, 0).Ok?
    ensures err == NoError ==> v == ToValue(ParseItem(data, 0).value) && used == ParseItem(data, 0).next
  {
    v, used := Int(0), 0;
    ParseExact(data, 0);
    if ParseItem(data, 0).Ok? {
      ParseSound(data, 0);
      DepthBounded(ParseItem(data, 0).value);
      FitsIs(ParseItem(data, 0).value, |data|);
    }
    var it;
    it, err := CborValue.Init(data);
    if err != NoError {
      BadHead(data, 0);
      return;
    }
    err, v := ReadItem(it, |data|);
    used := it.ptr;
  }

  // ----- Encoding and reading back

  /** Arrays of less than 2^32 - 1 items and maps of less than 2^31 pairs, nested as deep as may be. */
  predicate Readable(v: Value) {
    match v
    case Con(isMap, items) =>
      && (if isMap then |items| / 2 < 0x8000_0000 else |items| < 0xffff_ffff)
      && forall i | 0 <= i < |items| :: Readable(items[i])
    case Tagged(_, content) => Readable(content)
    case _ => true
  }

  lemma {:induction false} ReadableCounted(v: Value)
    requires Valid(v) && Readable(v)
    ensures Countable(v) && CountsFit(Canon(v))
  {
    match v
    case Con(_, items) => forall i | 0 <= i < |items| { ReadableCounted(items[i]); }
    case Tagged(_, content) => ReadableCounted(content);
    case _ =>
  }

  /**
   Encode a value, starting from a buffer of any size, and read the result back: the same value,
   and every byte used.
   */
  method RoundTrip(v: Value, firstSize: nat) returns (err: CborError, w: Value, size: nat, used: nat)
    requires Valid(v) && Readable(v) && |Encoding(v)| < TWO_64
    ensures err == NoError && w == v && used == size == |Encoding(v)|
  {
    ReadableCounted(v);
    ToOpsRuns(v);
    var data, extra := EncodeGrowing(ToOps(v), firstSize);
    ParseEncoding(data, 0, v);
    CanonWf(v);
    assert StartsWithItem(data, 0, Canon(v));
    size := |data|;
    err, w, used := ReadFirst(data);
  }
}
