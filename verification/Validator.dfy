/**
 The validator (src/tinycbor/cborvalidation.c): a second traversal, recursive over containers and
 tags, which accepts exactly the well-formed items that satisfy the requested flags.
 */
module Validator {
  import opened Bytes
  import opened Wrappers
  import opened Errors
  import opened Syntax
  import opened Values
  import opened Limits
  import opened Places
  import opened Parser
  import opened Strings
  import opened Traversal
  import opened Utf8
  import opened Canonical

  ghost predicate Passes(c: Cst, n: nat, f: Flags, fp: FloatCheck) {
    Wf(c) && Shallow(c, n) && Accept(c, f, fp)
  }

  /** The place after an item that passes. */
  ghost function Validated(s: seq<byte>, p: nat, r: nat, isMap: bool, k: bool, n: nat, f: Flags, fp: FloatCheck): Place
  {
    match ParseItem(s, p)
    case Fail => Bad
    case Ok(c, q) => if Passes(c, n, f, fp) then Next(s, q, r, isMap, k) else Bad
  }

  /** Where the items ahead end, if all of them pass after the key `prev`. */
  ghost function PassTo(prev: Option<Cst>, r: Parse<seq<Cst>>, inMap: bool, n: nat, f: Flags, fp: FloatCheck)
    : Option<nat>
    requires prev.Some? ==> Wf(prev.value)
  {
    match r
    case Fail => None
    case Ok(items, q) =>
      if WfAll(items) && AllShallow(items, n) && AcceptItems(prev, items, inMap, f, fp) then Some(q) else None
  }

  lemma ConsAll(c: Cst, items: seq<Cst>, n: nat)
    ensures WfAll([c] + items) <==> Wf(c) && WfAll(items)
    ensures AllShallow([c] + items, n) <==> Shallow(c, n) && AllShallow(items, n)
  {
    var xs := [c] + items;
    assert xs[0] == c && xs[1..] == items;
    assert WfAll(xs) ==> WfAll(xs[1..]);
    assert AllShallow(xs, n) ==> AllShallow(xs[1..], n);
    assert forall i | 0 < i < |xs| :: xs[i] == items[i - 1];
  }

  lemma PassArrayItem(c: Cst, r: Parse<seq<Cst>>, n: nat, f: Flags, fp: FloatCheck)
    ensures PassTo(None, Cons(c, r), false, n, f, fp) ==
            if Passes(c, n, f, fp) then PassTo(None, r, false, n, f, fp) else None
  {
    if r.Ok? {
      ConsAll(c, r.value, n);
      assert ([c] + r.value)[1..] == r.value;
    }
  }

  lemma PassPair(prev: Option<Cst>, k: Cst, v: Cst, r: Parse<seq<Cst>>, n: nat, f: Flags, fp: FloatCheck)
    requires prev.Some? ==> Wf(prev.value)
    requires Wf(k)
    ensures PassTo(prev, Cons(k, Cons(v, r)), true, n, f, fp) ==
            if Passes(k, n, f, fp) && KeyOk(prev, k, f) && Passes(v, n, f, fp) then PassTo(Some(k), r, true, n, f, fp)
            else None
  {
    if r.Ok? {
      ConsAll(v, r.value, n);
      ConsAll(k, [v] + r.value, n);
      assert ([k] + ([v] + r.value))[2..] == r.value;
    }
  }

  // ----- Heads

  /** `validate_number`: refuses a number that a shorter head could hold. */
  method ValidateNumber(data: seq<byte>, ptr: nat, t: byte, f: Flags) returns (err: CborError)
    requires ptr < |data| && ParseNum(data, ptr).Ok?
    ensures err == NoError <==> HALF_FLOAT <= t <= DOUBLE || NumOk(ParseNum(data, ptr).value, f)
  {
    if !f.shortestIntegrals || HALF_FLOAT <= t <= DOUBLE {
      return NoError;
    }
    var Ok(num, next) := ParseNum(data, ptr);
    var value, bytesUsed, bytesNeeded := num.arg, next - ptr - 1, 0;
    if value >= 24 { bytesNeeded := bytesNeeded + 1; }
    if value > 0xff { bytesNeeded := bytesNeeded + 1; }
    if value > 0xffff { bytesNeeded := bytesNeeded + 2; }
    if value > 0xffff_ffff { bytesNeeded := bytesNeeded + 4; }
    if bytesNeeded < bytesUsed {
      return OverlongEncoding;
    }
    return NoError;
  }

  method ValidateSimpleType(simpleType: nat, f: Flags) returns (err: CborError)
    ensures err == NoError <==> SimpleOk(simpleType, f)
  {
    if simpleType < 32 {
      return if f.noUnknownSimpleTypesSA then UnknownSimpleType else NoError;
    }
    return if f.noUnknownSimpleTypes && f.noUnknownSimpleTypesSA then UnknownSimpleType else NoError;
  }

  /** The checks of `validate_tag` before it goes on to the tagged item. */
  method ValidateTagUse(tag: nat, t: byte, f: Flags) returns (err: CborError)
    ensures err == NoError <==> TagOk(tag, t, f)
  {
    if f.noTags {
      return ExcludedType;
    }
    TagsAscend();
    var i := 0;
    while i < |KNOWN_TAGS| && KNOWN_TAGS[i].0 < tag
      invariant 0 <= i <= |KNOWN_TAGS| && forall j | 0 <= j < i :: KNOWN_TAGS[j].0 < tag
    {
      i := i + 1;
    }
    var known := i < |KNOWN_TAGS| && KNOWN_TAGS[i].0 == tag;
    assert known <==> KnownTag(tag);
    if !known {
      if f.noUnknownTagsSA && tag < 24 {
        return UnknownTag;
      }
      if f.noUnknownTagsSR && f.noUnknownTagsSA && tag < 256 {
        return UnknownTag;
      }
      if f.noUnknownTags && f.noUnknownTagsSR && f.noUnknownTagsSA {
        return UnknownTag;
      }
    }
    if f.tagUse && known && KNOWN_TAGS[i].1 != [] && t !in KNOWN_TAGS[i].1 {
      return InappropriateTagForType;
    }
    return NoError;
  }

  lemma TagsAscend()
    ensures forall i, j | 0 <= i < j < |KNOWN_TAGS| :: KNOWN_TAGS[i].0 < KNOWN_TAGS[j].0
  {
  }

  /** The iterator's type of the head is the tree's type of the item. */
  lemma TypeAgrees(s: seq<byte>, p: nat)
    requires HeadOk(s, p) && ParseItem(s, p).Ok?
    ensures TypeAt(s, p) == TypeOf(ParseItem(s, p).value)
  {
  }

  // ----- Strings

  /** One turn of the loop over chunks: look at a chunk's head and text, and pass it. */
  method ValidateChunk(it: CborValue, t: byte, f: Flags) returns (err: CborError, more: bool, ghost c: Chunk)
    requires StringState(it) && it.typ == t && (it.unknownLength ==> it.bit1)
    modifies it
    ensures err == NoError && more ==>
              && Iterating(it) && it.typ == t && it.unknownLength == old(it.unknownLength)
              && it.remaining == old(it.remaining) && it.key == old(it.key) && it.isMap == old(it.isMap)
              && old(it.ptr) < it.ptr && ChunkOk(t == TEXT_STRING, c, f)
              && old(ChunksAhead(it)) == Cons(c, ChunksAhead(it))
    ensures err == NoError && !more ==>
              var ahead := old(ChunksAhead(it));
              && it.isMap == old(it.isMap) && ahead.Ok? && ahead.value == []
              && it.Is(Next(it.data, ahead.next, old(it.remaining), it.isMap, old(it.key)))
    ensures err != NoError ==>
              var ahead := old(ChunksAhead(it));
              ahead.Ok? ==> Next(it.data, ahead.next, old(it.remaining), old(it.isMap), old(it.key)) == Bad
                            || (ahead.value != [] && !ChunkOk(t == TEXT_STRING, ahead.value[0], f))
  {
    hide TypeAt, ExtraAt, HeadOk;
    var next := new CborValue.Copy(it);
    c := ChunkAt(it.data, it.ptr, it.typ);
    var start, len;
    err, more, start, len := GetStringChunk(next);
    if err != NoError {
      return;
    }
    if more {
      err := ValidateNumber(it.data, it.ptr, t, f);
      if err != NoError {
        return;
      }
    }
    it.Assign(next);
    if !more {
      return;
    }
    if t == TEXT_STRING && f.utf8 {
      var ok := ValidateUtf8String(it.data[start..start + len]);
      if !ok {
        err := InvalidUtf8TextString;
      }
    }
  }

  /** Goes through a string's chunks, looking at each head and each text. */
  method ValidateString(it: CborValue, f: Flags) returns (err: CborError)
    requires it.OnItem() && it.IsString()
    modifies it
    ensures err == NoError ==> it.Is(old(AfterString(it))) && it.isMap == old(it.isMap)
    ensures err == NoError <==> old(AfterString(it)) != Bad && old(StringChunksOk(it, f))
  {
    ParseStringChunks(it);
    hide TypeAt, ExtraAt, Next, ParseChunk, ChunkOk;
    var t := it.typ;
    PrepareStringIteration(it);
    if it.ptr == |it.data| {
      return UnexpectedEOF;
    }
    err := ValidateChunks(it, t, f);
  }

  /** The loop of `ValidateString`. */
  method ValidateChunks(it: CborValue, t: byte, f: Flags) returns (err: CborError)
    requires StringState(it) && it.typ == t && (it.unknownLength ==> it.bit1)
    modifies it
    ensures var all := old(ChunksAhead(it));
            && (err == NoError <==> all.Ok? && AllChunksOk(t, all.value, f)
                                    && Next(it.data, all.next, old(it.remaining), old(it.isMap), old(it.key)) != Bad)
            && (err == NoError ==> it.Is(Next(it.data, all.next, old(it.remaining), it.isMap, old(it.key)))
                                   && it.isMap == old(it.isMap))
  {
    hide TypeAt, ExtraAt, HeadOk, Next, ParseChunk, ChunkOk, ChunksFrom, AllChunksOk, ChunkAt;
    ghost var all := ChunksAhead(it);
    ghost var done: seq<Chunk> := [];
    PrependNil(all);
    NoChunks(t, f);
    while true
      invariant StringState(it) && it.typ == t && (it.unknownLength ==> it.bit1)
      invariant it.remaining == old(it.remaining) && it.key == old(it.key) && it.isMap == old(it.isMap)
      invariant all == Prepend(done, ChunksAhead(it)) && AllChunksOk(t, done, f)
      decreases |it.data| - it.ptr
    {
      ghost var c;
      ghost var ahead := ChunksAhead(it);
      var more;
      err, more, c := ValidateChunk(it, t, f);
      if err != NoError {
        BadChunk(t, f, done, ahead);
        return;
      }
      if !more {
        assert done + [] == done;
        return;
      }
      PrependCons(done, c, ChunksAhead(it));
      OneMoreChunk(t, f, done, c);
      done := done + [c];
    }
  }

  lemma NoChunks(t: byte, f: Flags)
    ensures AllChunksOk(t, [], f)
  {
  }

  lemma OneMoreChunk(t: byte, f: Flags, done: seq<Chunk>, c: Chunk)
    requires AllChunksOk(t, done, f) && ChunkOk(t == TEXT_STRING, c, f)
    ensures AllChunksOk(t, done + [c], f)
  {
  }

  lemma BadChunk(t: byte, f: Flags, done: seq<Chunk>, ahead: Parse<seq<Chunk>>)
    ensures ahead.Ok? && ahead.value != [] && !ChunkOk(t == TEXT_STRING, ahead.value[0], f) ==>
              !AllChunksOk(t, Prepend(done, ahead).value, f)
  {
    assert ahead.Ok? && ahead.value != [] ==> Prepend(done, ahead).value[|done|] == ahead.value[0];
  }

  ghost predicate AllChunksOk(t: byte, chunks: seq<Chunk>, f: Flags) {
    forall i | 0 <= i < |chunks| :: ChunkOk(t == TEXT_STRING, chunks[i], f)
  }

  ghost predicate StringChunksOk(it: CborValue, f: Flags)
    reads it
    requires it.OnItem() && it.IsString()
  {
    var r := ParseString(it.data, it.ptr);
    r.Ok? && r.value.String? && forall i | 0 <= i < |r.value.chunks| :: ChunkOk(r.value.text, r.value.chunks[i], f)
  }

  // ----- What each kind of item comes to

  lemma FixedValidated(s: seq<byte>, p: nat, r: nat, isMap: bool, k: bool, n: nat, f: Flags, fp: FloatCheck)
    requires HeadOk(s, p) && IsFixed(TypeAt(s, p)) && TypeAt(s, p) != TAG
    ensures var num := ParseNum(s, p).value;
            Validated(s, p, r, isMap, k, n, f, fp) ==
            if (num.ai <= 24 || s[p] / 32 <= 1 ==> NumOk(num, f)) && (s[p] / 32 == 7 ==> PrimOk(num, f, fp))
            then StepFixed(s, p, r, isMap, k) else Bad
  {
    ParseGood(s, p);
    NumSound(s, p);
  }

  /** An item whose head is all there is to it is well-formed. */
  lemma StringValidated(it: CborValue, n: nat, f: Flags, fp: FloatCheck)
    requires it.OnItem() && it.IsString()
    ensures Validated(it.data, it.ptr, it.remaining, it.isMap, it.key, n, f, fp) ==
            if (it.unknownLength ==> !f.noIndeterminateLength) && StringChunksOk(it, f) then AfterString(it) else Bad
  {
    ParseStringChunks(it);
    if ParseString(it.data, it.ptr).Ok? {
      StringSound(it.data, it.ptr);
    }
  }

  lemma TagValidated(s: seq<byte>, p: nat, r: nat, isMap: bool, k: bool, n: nat, f: Flags, fp: FloatCheck)
    requires HeadOk(s, p) && s[p] / 32 == 6 && 0 < r <= UINT32_MAX
    ensures var Ok(num, h) := ParseNum(s, p);
            Validated(s, p, r, isMap, k, n, f, fp) ==
            if NumOk(num, f) && n > 1 && HeadOk(s, h) && TagOk(num.arg, TypeAt(s, h), f)
            then Validated(s, h, r, isMap, k, n - 1, f, fp) else Bad
  {
    var Ok(num, h) := ParseNum(s, p);
    NumSound(s, p);
    if !HeadOk(s, h) {
      BadHead(s, h);
    } else if ParseItem(s, h).Ok? {
      TypeAgrees(s, h);
    }
  }

  lemma ContainerValidated(s: seq<byte>, p: nat, r: nat, isMap: bool, k: bool, n: nat, f: Flags, fp: FloatCheck)
    requires HeadOk(s, p) && 4 <= s[p] / 32 <= 5 && n > 0
    ensures var inMap := s[p] / 32 == 5;
            var end := PassTo(None, Ahead(s, Enter(s, p), inMap), inMap, n - 1, f, fp);
            var headOk := if s[p] % 32 == 31 then !f.noIndeterminateLength else NumOk(ParseNum(s, p).value, f);
            Validated(s, p, r, isMap, k, n, f, fp) ==
            if headOk && n > 1 && end.Some? then Next(s, end.value, r, isMap, k) else Bad
  {
    EnterAhead(s, p);
    if ParseContainer(s, p).Ok? {
      ContainerSound(s, p);
    }
  }

  // ----- The traversal

  ghost function ValidatedFrom(it: CborValue, n: nat, f: Flags, fp: FloatCheck): Place
    reads it
  {
    Validated(it.data, it.ptr, it.remaining, it.isMap, it.key, n, f, fp)
  }

  method ValidateValue(it: CborValue, f: Flags, fp: FloatCheck, recursionLeft: nat) returns (err: CborError)
    requires it.OnItem() && recursionLeft > 0 && Named(f)
    modifies it
    ensures err == NoError <==> old(ValidatedFrom(it, recursionLeft, f, fp)) != Bad
    ensures err == NoError ==> it.Is(old(ValidatedFrom(it, recursionLeft, f, fp))) && it.isMap == old(it.isMap)
    decreases recursionLeft, 3
  {
    if it.IsContainer() {
      err := ValidateContainerValue(it, f, fp, recursionLeft);
    } else if it.IsString() {
      err := ValidateStringValue(it, f, fp, recursionLeft);
    } else if it.typ == TAG {
      err := ValidateTag(it, f, fp, recursionLeft);
    } else {
      err := ValidateFixed(it, f, fp, recursionLeft);
    }
  }

  /** The head of an item: a shortest number, or a permitted indefinite length. */
  method ValidateHead(it: CborValue, f: Flags) returns (err: CborError)
    requires it.OnItem()
    ensures it.unknownLength ==> (err == NoError <==> !f.noIndeterminateLength)
    ensures !it.unknownLength ==>
              (err == NoError <==> HALF_FLOAT <= it.typ <= DOUBLE || NumOk(ParseNum(it.data, it.ptr).value, f))
  {
    if !it.unknownLength {
      err := ValidateNumber(it.data, it.ptr, it.typ, f);
    } else {
      err := if f.noIndeterminateLength then UnknownLength else NoError;
    }
  }

  method ValidateStringValue(it: CborValue, f: Flags, ghost fp: FloatCheck, ghost n: nat) returns (err: CborError)
    requires it.OnItem() && it.IsString()
    modifies it
    ensures err == NoError <==> old(ValidatedFrom(it, n, f, fp)) != Bad
    ensures err == NoError ==> it.Is(old(ValidatedFrom(it, n, f, fp))) && it.isMap == old(it.isMap)
  {
    StringValidated(it, n, f, fp);
    FirstChunkHead(it, f);
    err := ValidateHead(it, f);
    if err != NoError {
      return;
    }
    err := ValidateString(it, f);
  }

  lemma FirstChunkHead(it: CborValue, f: Flags)
    requires it.OnItem() && it.IsString()
    ensures !it.unknownLength && StringChunksOk(it, f) ==> NumOk(ParseNum(it.data, it.ptr).value, f)
  {
    if !it.unknownLength && StringChunksOk(it, f) {
      var c := ParseString(it.data, it.ptr).value;
      assert ChunkOk(c.text, c.chunks[0], f);
    }
  }

  method ValidateFixed(it: CborValue, f: Flags, fp: FloatCheck, ghost n: nat) returns (err: CborError)
    requires it.OnItem() && IsFixed(it.typ) && it.typ != TAG
    modifies it
    ensures err == NoError <==> old(ValidatedFrom(it, n, f, fp)) != Bad
    ensures err == NoError ==> it.Is(old(ValidatedFrom(it, n, f, fp))) && it.isMap == old(it.isMap)
  {
    FixedValidated(it.data, it.ptr, it.remaining, it.isMap, it.key, n, f, fp);
    err := ValidateHead(it, f);
    if err != NoError {
      return;
    }
    err := ValidateKind(it, f, fp);
    if err != NoError {
      return;
    }
    err := it.AdvanceFixed();
  }

  /** The cases of the switch for items of fixed size, apart from tags. */
  method ValidateKind(it: CborValue, f: Flags, fp: FloatCheck) returns (err: CborError)
    requires it.OnItem() && IsFixed(it.typ) && it.typ != TAG
    ensures err == NoError <==> (it.data[it.ptr] / 32 == 7 ==> PrimOk(ParseNum(it.data, it.ptr).value, f, fp))
  {
    err := NoError;
    if it.typ == INTEGER {
      var val := it.ExtractInt64();
    } else if it.typ == SIMPLE {
      OneByteArg(it.data, it.ptr);
      err := ValidateSimpleType(it.extra, f);
    } else if it.typ == UNDEFINED {
      err := if f.noUndefined then ExcludedType else NoError;
    } else if HALF_FLOAT <= it.typ <= DOUBLE {
      var bits := FloatBits(it);
      if (f.finiteFloats || f.shortestFloats) && !fp(it.typ, bits, f.finiteFloats, f.shortestFloats) {
        err := ExcludedValue;
      }
    }
  }

  lemma TagKind(it: CborValue)
    requires it.OnItem() && it.typ == TAG
    ensures it.data[it.ptr] / 32 == 6 && it.data[it.ptr] % 32 != 31 && !it.unknownLength && IsFixed(it.typ)
    ensures ParseNum(it.data, it.ptr).Ok? && ArgAt(it.data, it.ptr) == ParseNum(it.data, it.ptr).value.arg
  {
  }

  /** Behind the head of a tag there must be another head. */
  lemma TagStep(s: seq<byte>, p: nat, r: nat, isMap: bool, k: bool)
    requires HeadOk(s, p) && s[p] / 32 == 6
    ensures var h := ParseNum(s, p).next;
            StepFixed(s, p, r, isMap, k) == if HeadOk(s, h) then At(h, r, k) else Bad
  {
  }

  method ValidateTag(it: CborValue, f: Flags, fp: FloatCheck, recursionLeft: nat) returns (err: CborError)
    requires it.OnItem() && it.typ == TAG && recursionLeft > 0 && Named(f)
    modifies it
    ensures err == NoError <==> old(ValidatedFrom(it, recursionLeft, f, fp)) != Bad
    ensures err == NoError ==> it.Is(old(ValidatedFrom(it, recursionLeft, f, fp))) && it.isMap == old(it.isMap)
    decreases recursionLeft, 2
  {
    TagKind(it);
    TagStep(it.data, it.ptr, it.remaining, it.isMap, it.key);
    TagValidated(it.data, it.ptr, it.remaining, it.isMap, it.key, recursionLeft, f, fp);
    hide HeadOk, TypeAt, ExtraAt, Validated, StepFixed, NumOk, TagOk;
    err := ValidateHead(it, f);
    if err != NoError {
      return;
    }
    var tag := it.ExtractInt64();
    err := it.AdvanceFixed();
    if err != NoError {
      return;
    }
    if recursionLeft - 1 == 0 {
      return NestingTooDeep;
    }
    err := ValidateTagUse(tag, it.typ, f);
    if err != NoError {
      return;
    }
    err := ValidateValue(it, f, fp, recursionLeft - 1);
  }

  method ValidateContainerValue(it: CborValue, f: Flags, fp: FloatCheck, recursionLeft: nat) returns (err: CborError)
    requires it.OnItem() && it.IsContainer() && recursionLeft > 0 && Named(f)
    modifies it
    ensures err == NoError <==> old(ValidatedFrom(it, recursionLeft, f, fp)) != Bad
    ensures err == NoError ==> it.Is(old(ValidatedFrom(it, recursionLeft, f, fp))) && it.isMap == old(it.isMap)
    decreases recursionLeft, 2
  {
    ContainerKind(it);
    ContainerValidated(it.data, it.ptr, it.remaining, it.isMap, it.key, recursionLeft, f, fp);
    hide TypeAt, ExtraAt, HeadOk;
    err := ValidateHead(it, f);
    if err != NoError {
      return;
    }
    var recursed;
    recursed, err := ValidateInside(it, f, fp, recursionLeft - 1);
    if err != NoError {
      it.ptr := recursed.ptr;
      return;
    }
    err := it.LeaveContainer(recursed);
  }

  /** Everything inside the container the iterator stands on. */
  method ValidateInside(it: CborValue, f: Flags, fp: FloatCheck, recursionLeft: nat)
    returns (recursed: CborValue, err: CborError)
    requires it.OnItem() && it.IsContainer() && Named(f)
    ensures fresh(recursed) && recursed.data == it.data
    ensures var inMap := it.typ == MAP;
            var end := PassTo(None, Ahead(it.data, Enter(it.data, it.ptr), inMap), inMap, recursionLeft, f, fp);
            && (err == NoError <==> recursionLeft > 0 && end.Some?)
            && (err == NoError ==> recursed.Is(End(end.value)))
    decreases recursionLeft, 10
  {
    EnterEntry(it.data, it.ptr);
    recursed, err := it.EnterContainer();
    if err == NoError {
      err := ValidateContainer(recursed, it.typ == MAP, f, fp, recursionLeft);
    }
  }

  /** In a map, the iterator stands before a key with a whole number of pairs to come. */
  ghost predicate AtEntry(it: CborValue, inMap: bool)
    reads it
  {
    && it.Is(it.Where())
    && (it.remaining != 0 ==> it.isMap == inMap)
    && (it.remaining != 0 && inMap ==> !it.key && (it.remaining == UINT32_MAX || it.remaining % 2 == 0))
  }

  ghost function EntriesAhead(it: CborValue, inMap: bool): Parse<seq<Cst>>
    reads it
  {
    Ahead(it.data, it.Where(), inMap)
  }

  method ValidateContainer(it: CborValue, inMap: bool, f: Flags, fp: FloatCheck, recursionLeft: nat)
    returns (err: CborError)
    requires AtEntry(it, inMap) && Named(f)
    modifies it
    ensures var end := old(PassTo(None, EntriesAhead(it, inMap), inMap, recursionLeft, f, fp));
            && (err == NoError <==> recursionLeft > 0 && end.Some?)
            && (err == NoError ==> it.Is(End(end.value)))
    decreases recursionLeft, 9
  {
    if recursionLeft == 0 {
      return NestingTooDeep;
    }
    if inMap {
      err := ValidateMap(it, f, fp, recursionLeft);
    } else {
      err := ValidateArray(it, f, fp, recursionLeft);
    }
  }

  method ValidateArray(it: CborValue, f: Flags, fp: FloatCheck, n: nat) returns (err: CborError)
    requires AtEntry(it, false) && Named(f) && n > 0
    modifies it
    ensures var end := old(PassTo(None, EntriesAhead(it, false), false, n, f, fp));
            && (err == NoError <==> end.Some?)
            && (err == NoError ==> it.Is(End(end.value)))
    decreases n, 8
  {
    while it.remaining != 0
      invariant AtEntry(it, false)
      invariant PassTo(None, EntriesAhead(it, false), false, n, f, fp)
             == old(PassTo(None, EntriesAhead(it, false), false, n, f, fp))
      decreases |it.data| - it.ptr
    {
      ValidatedAhead(it.data, it.ptr, it.remaining, false, it.key, n, f, fp);
      err := ValidateValue(it, f, fp, n);
      if err != NoError {
        return;
      }
    }
    err := NoError;
  }

  lemma ValidatedAhead(s: seq<byte>, p: nat, r: nat, isMap: bool, k: bool, n: nat, f: Flags, fp: FloatCheck)
    requires HeadOk(s, p) && 0 < r <= UINT32_MAX
    ensures var here, pl := Ahead(s, At(p, r, k), isMap), Validated(s, p, r, isMap, k, n, f, fp);
            && (pl == Bad ==> here.Fail? || (ParseItem(s, p).Ok? && !Passes(ParseItem(s, p).value, n, f, fp)))
            && (pl != Bad ==> p < pl.p && ParseItem(s, p).Ok? && Passes(ParseItem(s, p).value, n, f, fp))
            && (ParseItem(s, p).Ok? && pl != Bad ==> here == Cons(ParseItem(s, p).value, Ahead(s, pl, isMap)))
            && (!isMap && pl == Bad ==> PassTo(None, here, false, n, f, fp) == None)
            && (!isMap && pl != Bad ==>
                  PassTo(None, here, false, n, f, fp) == PassTo(None, Ahead(s, pl, isMap), false, n, f, fp))
  {
    StepAhead(s, p, r, isMap, k);
    if ParseItem(s, p).Ok? {
      var Ok(c, q) := ParseItem(s, p);
      PassArrayItem(c, Ahead(s, Next(s, q, r, isMap, k), isMap), n, f, fp);
    }
  }

  // ----- Maps

  predicate OrderChecked(f: Flags) {
    f.mapIsSorted || f.noIndeterminateLength
  }

  /** A key that was read from `start` to `end` of the buffer. */
  datatype KeyRange = KeyRange(start: nat, end: nat)

  ghost predicate Spans(s: seq<byte>, range: KeyRange, c: Cst) {
    && Wf(c) && range.start < range.end <= |s| && s[range.start..range.end] == Serialize(c)
    && ParseNum(s, range.start).Ok? && ParseNum(s, range.start).value.arg == HeadNumber(c)
  }

  /** The key read last, kept only when the order is checked. */
  ghost predicate Remembers(s: seq<byte>, previous: Option<KeyRange>, prev: Option<Cst>, f: Flags) {
    && (prev.Some? ==> Wf(prev.value))
    && (previous.Some? <==> prev.Some? && OrderChecked(f))
    && (previous.Some? ==> Spans(s, previous.value, prev.value))
  }

  /** A definite head carries the number of its item. */
  lemma KeySpans(s: seq<byte>, p: nat)
    requires p < |s| && ParseItem(s, p).Ok? && s[p] % 32 != 31
    ensures Spans(s, KeyRange(p, ParseItem(s, p).next), ParseItem(s, p).value)
  {
    ParseSound(s, p);
    HeadNumberAt(s, p);
  }

  lemma HeadNumberAt(s: seq<byte>, p: nat)
    requires p < |s| && ParseItem(s, p).Ok? && s[p] % 32 != 31
    ensures ParseNum(s, p).Ok? && ParseNum(s, p).value.arg == HeadNumber(ParseItem(s, p).value)
  {
  }

  lemma DefiniteHead(s: seq<byte>, p: nat, f: Flags, fp: FloatCheck)
    requires p < |s| && ParseItem(s, p).Ok? && f.noIndeterminateLength
    requires Wf(ParseItem(s, p).value) && Accept(ParseItem(s, p).value, f, fp)
    ensures s[p] % 32 != 31
  {
  }

  /** The two keys, as the validator compares them, are in order. */
  method CompareKeys(s: seq<byte>, a: KeyRange, b: KeyRange, f: Flags, ghost prev: Cst, ghost c: Cst)
    returns (err: CborError)
    requires Spans(s, a, prev) && Spans(s, b, c) && OrderChecked(f)
    ensures err == NoError <==> KeyLess(prev, c) || (!UniqueKeys(f) && HeadNumber(prev) == HeadNumber(c)
                                                     && Serialize(prev) == Serialize(c))
  {
    CompareIsLex(Serialize(prev), Serialize(c));
    var len1, len2 := ParseNum(s, a.start).value.arg, ParseNum(s, b.start).value.arg;
    if len1 > len2 {
      return MapNotSorted;
    }
    if len1 == len2 {
      var bytes1, bytes2 := s[a.start..a.end], s[b.start..b.end];
      var r := MemCmp(bytes1, bytes2);
      if r == 0 && |bytes1| != |bytes2| {
        r := if |bytes1| < |bytes2| then -1 else 1;
      }
      if r > 0 {
        return MapNotSorted;
      }
      if r == 0 && f.mapKeysAreUnique && f.mapIsSorted && f.noIndeterminateLength {
        return MapKeysNotUnique;
      }
    }
    return NoError;
  }

  /** Under its tags, the key has to be a text string. */
  method ValidateKeyType(it: CborValue, f: Flags) returns (err: CborError)
    requires it.OnItem()
    ensures ParseItem(it.data, it.ptr).Ok? ==>
              (err == NoError <==> (f.mapKeysAreString ==> IsTextKey(ParseItem(it.data, it.ptr).value)))
  {
    if !f.mapKeysAreString {
      return NoError;
    }
    UntagParse(it.data, it.ptr, it.remaining, it.key);
    var copy := new CborValue.Copy(it);
    err := SkipTag(copy);
    if err != NoError {
      return;
    }
    TypeOfString(copy);
    if copy.typ != TEXT_STRING {
      return MapKeyNotString;
    }
  }

  /** A key: its type, its own validity, and its place after the key before it. */
  method ValidateKey(it: CborValue, f: Flags, fp: FloatCheck, n: nat,
                     previous: Option<KeyRange>, ghost prev: Option<Cst>)
    returns (err: CborError, range: Option<KeyRange>)
    requires it.OnItem() && AtEntry(it, true) && Named(f) && n > 0 && Remembers(it.data, previous, prev, f)
    modifies it
    ensures var r, pl := old(ParseItem(it.data, it.ptr)), old(ValidatedFrom(it, n, f, fp));
            && (err == NoError <==> pl != Bad && Wf(r.value) && KeyOk(prev, r.value, f))
            && (err == NoError ==> it.Is(pl) && it.isMap && Remembers(it.data, range, Some(r.value), f))
    decreases n, 4
  {
    var current := it.ptr;
    ghost var s, p := it.data, it.ptr;
    range := None;
    err := ValidateKeyType(it, f);
    if err != NoError {
      return;
    }
    err := ValidateValue(it, f, fp, n);
    if err != NoError {
      return;
    }
    ghost var c := ParseItem(s, p).value;
    assert it.ptr == ParseItem(s, p).next;
    if f.mapIsSorted || f.noIndeterminateLength {
      DefiniteHead(s, p, f, fp);
      KeySpans(s, p);
      if previous.Some? {
        err := CompareKeys(it.data, previous.value, KeyRange(current, it.ptr), f, prev.value, c);
        if err != NoError {
          return;
        }
      }
      range := Some(KeyRange(current, it.ptr));
    }
  }

  lemma MapVerdict(s: seq<byte>, p: nat, r: nat, n: nat, f: Flags, fp: FloatCheck, prev: Option<Cst>)
    requires HeadOk(s, p) && 0 < r <= UINT32_MAX && r != 1 && (prev.Some? ==> Wf(prev.value))
    ensures var here, pl := Ahead(s, At(p, r, false), true), Validated(s, p, r, true, false, n, f, fp);
            && (pl == Bad || (Wf(ParseItem(s, p).value) && !KeyOk(prev, ParseItem(s, p).value, f)) ==>
                  PassTo(prev, here, true, n, f, fp) == None)
            && (pl != Bad ==> pl.At? && pl.k && Wf(ParseItem(s, p).value))
            && (pl != Bad && KeyOk(prev, ParseItem(s, p).value, f) ==>
                  var pl2 := Validated(s, pl.p, pl.r, true, true, n, f, fp);
                  PassTo(prev, here, true, n, f, fp) ==
                  if pl2 == Bad then None else PassTo(Some(ParseItem(s, p).value), Ahead(s, pl2, true), true, n, f, fp))
  {
    StepAhead(s, p, r, true, false);
    if ParseItem(s, p).Ok? {
      ParseSound(s, p);
      var Ok(k, q) := ParseItem(s, p);
      var mid := Next(s, q, r, true, false);
      if mid.At? {
        StepAhead(s, mid.p, mid.r, true, true);
        if ParseItem(s, mid.p).Ok? {
          var Ok(v, e) := ParseItem(s, mid.p);
          ParseSound(s, mid.p);
          PassPair(prev, k, v, Ahead(s, Next(s, e, mid.r, true, true), true), n, f, fp);
        }
      }
    }
  }

  method ValidateMap(it: CborValue, f: Flags, fp: FloatCheck, n: nat) returns (err: CborError)
    requires AtEntry(it, true) && Named(f) && n > 0
    modifies it
    ensures var end := old(PassTo(None, EntriesAhead(it, true), true, n, f, fp));
            && (err == NoError <==> end.Some?)
            && (err == NoError ==> it.Is(End(end.value)))
    decreases n, 8
  {
    var previous: Option<KeyRange> := None;
    ghost var prev: Option<Cst> := None;
    while it.remaining != 0
      invariant AtEntry(it, true) && Remembers(it.data, previous, prev, f)
      invariant PassTo(prev, EntriesAhead(it, true), true, n, f, fp)
             == old(PassTo(None, EntriesAhead(it, true), true, n, f, fp))
      decreases |it.data| - it.ptr
    {
      hide PassTo, EntriesAhead, Remembers;
      err, previous, prev := ValidatePair(it, f, fp, n, previous, prev);
      if err != NoError {
        return;
      }
    }
    err := NoError;
  }

  /** After a key and its value there is a whole number of pairs to come again. */
  lemma PairMoves(s: seq<byte>, p: nat, r: nat, n: nat, f: Flags, fp: FloatCheck)
    requires 0 < r <= UINT32_MAX && (r == UINT32_MAX || r % 2 == 0)
    ensures var pl := Validated(s, p, r, true, false, n, f, fp);
            pl.At? ==>
              var pl2 := Validated(s, pl.p, pl.r, true, true, n, f, fp);
              pl2 != Bad ==>
                p < pl2.p && (pl2.At? ==> !pl2.k && 0 < pl2.r <= UINT32_MAX && (pl2.r == UINT32_MAX || pl2.r % 2 == 0))
  {
    hide HeadOk;
  }

  /** One turn of the loop: a key, compared with the one before it, and its value. */
  method ValidatePair(it: CborValue, f: Flags, fp: FloatCheck, n: nat,
                      previous: Option<KeyRange>, ghost prev: Option<Cst>)
    returns (err: CborError, range: Option<KeyRange>, ghost key: Option<Cst>)
    requires AtEntry(it, true) && it.remaining != 0 && Named(f) && n > 0 && Remembers(it.data, previous, prev, f)
    modifies it
    ensures var before := old(PassTo(prev, EntriesAhead(it, true), true, n, f, fp));
            && (err != NoError ==> before == None)
            && (err == NoError ==> AtEntry(it, true) && Remembers(it.data, range, key, f) && old(it.ptr) < it.ptr
                                   && before == PassTo(key, EntriesAhead(it, true), true, n, f, fp))
    decreases n, 7
  {
    ghost var s, p := it.data, it.ptr;
    key := None;
    MapVerdict(s, p, it.remaining, n, f, fp, prev);
    PairMoves(s, p, it.remaining, n, f, fp);
    hide Ahead, PassTo, Validated, KeyOk, Remembers, TypeAt, ExtraAt, HeadOk, Next;
    err, range := ValidateKey(it, f, fp, n, previous, prev);
    if err != NoError {
      return;
    }
    key := Some(ParseItem(s, p).value);
    err := ValidateValue(it, f, fp, n);
  }

  // ----- The two entry points

  /**
   `cbor_value_validate`. The check for trailing data looks at the iterator it was given, which
   still stands on the item, so with that flag the answer is never success.
   */
  method Validate(it: CborValue, f: Flags, fp: FloatCheck) returns (err: CborError)
    requires it.OnItem() && Named(f)
    ensures err == NoError <==> ValidatedFrom(it, MAX_RECURSIONS, f, fp) != Bad && !f.completeData
  {
    var value := new CborValue.Copy(it);
    err := ValidateValue(value, f, fp, MAX_RECURSIONS);
    if err != NoError {
      return;
    }
    if f.completeData && it.ptr != |it.data| {
      return GarbageAtEnd;
    }
  }

  /** `cbor_value_validate_basic`: the other traversal. */
  method ValidateBasic(it: CborValue) returns (err: CborError)
    requires it.OnItem()
    ensures err == NoError <==>
            Step(it.data, it.ptr, it.remaining, it.isMap, it.key, MAX_RECURSIONS) != Bad
  {
    var value := new CborValue.Copy(it);
    err := Advance(value);
  }

  /** Without flags, validation reaches the same place as advancing, unless the nesting is too deep for it. */
  lemma TraversalsAgree(s: seq<byte>, p: nat, r: nat, isMap: bool, k: bool, fp: FloatCheck)
    requires HeadOk(s, p) && s[p] / 32 != 6
    ensures var basic := Step(s, p, r, isMap, k, MAX_RECURSIONS);
            var full := Validated(s, p, r, isMap, k, MAX_RECURSIONS, BASIC, fp);
            full == if ParseItem(s, p).Ok? && Shallow(ParseItem(s, p).value, MAX_RECURSIONS) then basic else Bad
  {
    if ParseItem(s, p).Ok? {
      var c := ParseItem(s, p).value;
      ParseSound(s, p);
      BasicAccepts(c, fp);
      if Shallow(c, MAX_RECURSIONS) {
        ShallowFits(c, MAX_RECURSIONS);
      }
    }
  }

  /** On one buffer: the two entry points agree on every item that is no tag and not too deeply nested. */
  method BothTraversals(data: seq<byte>, fp: FloatCheck) returns (full: bool, basic: bool)
    requires |data| < TWO_64
    ensures data == [] || data[0] / 32 != 6 ==>
              && (basic ==> ParseItem(data, 0).Ok?)
              && (full <==> basic && Levels(ParseItem(data, 0).value) <= 1023)
  {
    var it, err := CborValue.Init(data);
    if err != NoError {
      return false, false;
    }
    if data[0] / 32 != 6 {
      TraversalsAgree(data, 0, 1, false, false, fp);
      if ParseItem(data, 0).Ok? {
        ShallowIs(ParseItem(data, 0).value, MAX_RECURSIONS);
        FitsIs(ParseItem(data, 0).value, MAX_RECURSIONS);
      }
    }
    err := Validate(it, BASIC, fp);
    full := err == NoError;
    err := ValidateBasic(it);
    basic := err == NoError;
  }

  /** `n` arrays, one inside the other. */
  function Nest(n: nat): Cst {
    if n == 0 then Prim(Num(22, 22)) else Container(false, Some(Num(1, 1)), [Nest(n - 1)])
  }

  /** The limits do differ: the deepest nesting that can be advanced over cannot be validated. */
  lemma {:induction false} LimitsDiffer(n: nat, m: nat)
    ensures Wf(Nest(n)) && (Fits(Nest(n), m) <==> n <= m) && (n > 0 ==> (Shallow(Nest(n), m) <==> n < m))
  {
    if n > 0 {
      var inner := [Nest(n - 1)];
      LimitsDiffer(n - 1, if m == 0 then 0 else m - 1);
      assert inner[0] == Nest(n - 1);
      assert m > 0 ==> (FitsAll(inner, m - 1) <==> Fits(inner[0], m - 1));
      assert m > 0 ==> (AllShallow(inner, m - 1) <==> Shallow(inner[0], m - 1));
    }
  }

  /** A buffer from the start: succeeds exactly if its first item passes. */
  method ValidateFirst(data: seq<byte>, f: Flags, fp: FloatCheck) returns (ok: bool)
    requires |data| < TWO_64 && Named(f)
    ensures ok <==> ParseItem(data, 0).Ok? && Passes(ParseItem(data, 0).value, MAX_RECURSIONS, f, fp) && !f.completeData
  {
    var it, err := CborValue.Init(data);
    if err != NoError {
      BadHead(data, 0);
      return false;
    }
    err := Validate(it, f, fp);
    ok := err == NoError;
  }

  /**
   An item that passes with the flags for shortest integers and definite lengths is, byte for byte,
   what the encoder writes for the value it was read as.
   */
  method ValidateCanonical(data: seq<byte>, f: Flags, fp: FloatCheck) returns (ok: bool)
    requires |data| < TWO_64 && f.shortestIntegrals && f.noIndeterminateLength
    ensures ok <==> ParseItem(data, 0).Ok? && Passes(ParseItem(data, 0).value, MAX_RECURSIONS, f, fp) && !f.completeData
    ensures ok ==> var v := ToValue(ParseItem(data, 0).value); Valid(v) && Sits(data, 0, Encoding(v))
  {
    ok := ValidateFirst(data, f, fp);
    if ok {
      ParseSound(data, 0);
      Reencode(ParseItem(data, 0).value, f, fp);
    }
  }

  /** In an item that passes with the flag for unique keys, every map at every depth has them, in order. */
  method ValidateUnique(data: seq<byte>, f: Flags, fp: FloatCheck) returns (ok: bool)
    requires |data| < TWO_64 && f.mapKeysAreUnique && f.mapIsSorted && f.noIndeterminateLength
    ensures ok <==> ParseItem(data, 0).Ok? && Passes(ParseItem(data, 0).value, MAX_RECURSIONS, f, fp) && !f.completeData
    ensures ok ==> var c := ParseItem(data, 0).value; Wf(c) && KeysInOrder(c) && KeysDistinct(c)
  {
    ok := ValidateFirst(data, f, fp);
    if ok {
      UniqueInOrder(ParseItem(data, 0).value, f, fp);
      InOrderDistinct(ParseItem(data, 0).value);
    }
  }
}
