/**
 Arbitrary programs over the iterator (src/tinycbor/cborparser.c): any calls, in any order the
 interface allows, on any bytes. As long as the calls succeed, the iterator stands inside the
 buffer and what it has cached is what the bytes under it say.
 */
module Walk {
  import opened Bytes
  import opened Errors
  import opened Syntax
  import opened Places
  import opened Parser
  import opened Strings
  import opened StringApi
  import opened Traversal
  import opened MapLookup

  /**
   One call. `Inside` enters a container, makes calls on the new iterator, and may leave it; `Find`
   looks a key up in a map and makes calls on the element it finds. Calls that change no iterator
   are not listed.
   */
  datatype Call =
    | AdvanceCall
    | AdvanceFixedCall
    | SkipTagCall
    | ChunkCall
    | CopyStringCall(buflen: nat)
    | DupStringCall
    | Find(text: seq<byte>, calls: seq<Call>)
    | Inside(calls: seq<Call>, leave: bool)

  /** Position, count and cache are consistent; or the iterator is between the chunks of a string. */
  ghost predicate Sound(it: CborValue)
    reads it
  {
    it.Is(it.Where()) || Iterating(it)
  }

  predicate BetweenChunks(it: CborValue)
    reads it
  {
    it.IsString() && it.bit1
  }

  lemma SoundStates(it: CborValue)
    requires Sound(it)
    ensures BetweenChunks(it) <==> Iterating(it)
    ensures !BetweenChunks(it) ==> it.Is(it.Where()) && (it.remaining != 0 ==> it.OnItem())
  {
  }

  /** Makes the calls until one fails or is not allowed where the iterator stands. */
  method MakeCalls(it: CborValue, calls: seq<Call>) returns (ok: bool)
    requires Sound(it)
    modifies it
    ensures ok ==> Sound(it)
    decreases calls
  {
    for i := 0 to |calls|
      invariant Sound(it)
    {
      ok := MakeCall(it, calls[i]);
      if !ok {
        return;
      }
    }
    ok := true;
  }

  /** Between the chunks of a string only the next chunk may be asked for. */
  method MakeCall(it: CborValue, call: Call) returns (ok: bool)
    requires Sound(it)
    modifies it
    ensures ok ==> Sound(it)
    decreases call, 1
  {
    SoundStates(it);
    if call.ChunkCall? {
      if !it.IsString() {
        return false;
      }
      hide TypeAt, ExtraAt, HeadOk;
      var err, more, start, len := GetStringChunk(it);
      return err == NoError;
    }
    if BetweenChunks(it) {
      return false;
    }
    ok := MakeItemCall(it, call);
  }

  /** The calls that are allowed on an item or at the end. */
  method MakeItemCall(it: CborValue, call: Call) returns (ok: bool)
    requires it.Is(it.Where()) && !call.ChunkCall?
    modifies it
    ensures ok ==> it.Is(it.Where())
    decreases call, 0
  {
    hide TypeAt, ExtraAt, HeadOk;
    var err;
    match call
    case AdvanceCall =>
      err := Advance(it);
      ok := err == NoError;
    case AdvanceFixedCall =>
      if it.remaining != 0 && !IsFixed(it.typ) {
        return false;
      }
      err := it.AdvanceFixed();
      ok := err == NoError;
    case SkipTagCall =>
      if it.remaining == 0 {
        return true;
      }
      err := SkipTag(it);
      ok := err == NoError;
    case CopyStringCall(buflen) =>
      if it.remaining == 0 || !it.IsString() {
        return false;
      }
      var buffer := new byte[buflen];
      var len;
      err, len := CopyString(it, Memcpy(buffer, 0), buflen);
      ok := err == NoError;
    case DupStringCall =>
      if it.remaining == 0 || !it.IsString() {
        return false;
      }
      var buffer, len;
      err, buffer, len := DupString(it);
      ok := err == NoError;
    case Find(text, calls) =>
      if it.remaining == 0 || it.typ != MAP || 0 in text {
        return false;
      }
      var element;
      ghost var at;
      err, element, at := MapFindValue(it, text);
      if err != NoError || element.typ == INVALID {
        return err == NoError && calls == [];
      }
      ok := MakeCalls(element, calls);
    case Inside(calls, leave) =>
      if it.remaining == 0 || !it.IsContainer() {
        return false;
      }
      var recursed;
      recursed, err := it.EnterContainer();
      if err != NoError {
        return false;
      }
      ok := MakeCalls(recursed, calls);
      if !ok || !leave {
        return;
      }
      if recursed.remaining != 0 || BetweenChunks(recursed) {
        return false;
      }
      SoundStates(recursed);
      err := it.LeaveContainer(recursed);
      ok := err == NoError;
  }

  /** What the caches are worth at a position: everything a fresh look at the bytes would give. */
  ghost predicate Agrees(it: CborValue)
    reads it
  {
    && it.ptr < |it.data| &&
    var major, ai := it.data[it.ptr] / 32, it.data[it.ptr] % 32;
    && it.unknownLength == (ai == 31)
    && (major <= 6 ==> it.typ == if major == 1 then INTEGER else 32 * major)
    && it.bit1 == (major == 1)
    && (ai != 31 ==> ParseNum(it.data, it.ptr).Ok?)
    && (major <= 6 && ai != 31 ==>
          if it.tooLarge then 26 <= ai <= 27 else it.extra == ParseNum(it.data, it.ptr).value.arg)
  }

  lemma SoundAgrees(it: CborValue)
    requires Sound(it)
    ensures it.ptr <= |it.data| && (it.remaining == 0 ==> it.typ == INVALID)
    ensures it.remaining != 0 && !BetweenChunks(it) ==> Agrees(it)
  {
  }

  /** Looking at the number again, from the bytes, gives the number the iterator reports. */
  method LookAgain(it: CborValue) returns (err: CborError, fresh': nat, reported: nat)
    requires it.OnItem() && it.data[it.ptr] / 32 <= 6 && !it.unknownLength
    ensures err == NoError && fresh' == reported
  {
    var copy := new CborValue.Copy(it);
    err, fresh' := copy.ExtractNumber();
    reported := it.ExtractInt64();
  }

  /** From a fresh parser on any bytes, after any calls that succeed. */
  method WalkAnywhere(data: seq<byte>, calls: seq<Call>) returns (ok: bool, it: CborValue)
    requires |data| < TWO_64
    ensures it.data == data
    ensures ok ==> it.ptr <= |data| && (it.remaining == 0 ==> it.typ == INVALID)
    ensures ok && it.remaining != 0 && !BetweenChunks(it) ==> Agrees(it)
  {
    var err;
    it, err := CborValue.Init(data);
    if err != NoError {
      return false, it;
    }
    ok := MakeCalls(it, calls);
    if ok {
      SoundAgrees(it);
    }
  }
}
