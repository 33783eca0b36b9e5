/**
 Strings in the pull parser: the chunk iterator and the loop that copies, compares or just
 measures a string chunk by chunk (src/tinycbor/cborparser.c, src/tinycbor/cborparser_dup_string.c).
 */
module Strings {
  import opened Bytes
  import opened Errors
  import opened Syntax
  import opened Values
  import opened Places
  import opened Parser

  /** In the middle of a string: after a chunk, or before the first chunk of a chunked string. */
  ghost predicate Iterating(it: CborValue)
    reads it
  {
    it.IsString() && it.bit1 && it.ptr <= |it.data| < TWO_64 && 0 < it.remaining <= UINT32_MAX
  }

  ghost predicate StringState(it: CborValue)
    reads it
  {
    Iterating(it) || (it.OnItem() && it.IsString())
  }

  /** Where the next chunk is looked for: past the opening byte of a chunked string. */
  ghost function ChunkStart(it: CborValue): nat
    reads it
  {
    if it.unknownLength && !it.bit1 then it.ptr + 1 else it.ptr
  }

  /** The chunks from `p` on; a string in one piece is a single chunk. */
  function ChunksFrom(s: seq<byte>, p: nat, major: nat, chunked: bool): Parse<seq<Chunk>> {
    if chunked then ParseChunks(s, p, major)
    else if p >= |s| then Fail
    else
      match ParseChunk(s, p, major)
      case Fail => Fail
      case Ok(c, q) => Cons(c, Ok([], q))
  }

  /** The chunks still to come. */
  ghost function ChunksAhead(it: CborValue): Parse<seq<Chunk>>
    reads it
  {
    if !it.unknownLength && it.bit1 then Ok([], it.ptr)
    else ChunksFrom(it.data, ChunkStart(it), it.typ / 32, it.unknownLength)
  }

  /** What the byte at `p` says about the chunks from there on. */
  lemma ChunkCases(s: seq<byte>, p: nat, major: nat, chunked: bool)
    requires p < |s| && major <= 6
    ensures s[p] == BREAK && chunked ==> ChunksFrom(s, p, major, chunked) == Ok([], p + 1)
    ensures s[p] != BREAK && ParseChunk(s, p, major).Fail? ==> ChunksFrom(s, p, major, chunked).Fail?
    ensures s[p] != BREAK && ParseChunk(s, p, major).Ok? ==>
              var Ok(c, q) := ParseChunk(s, p, major);
              ChunksFrom(s, p, major, chunked) == Cons(c, if chunked then ParseChunks(s, q, major) else Ok([], q))
  {
  }

  method PrepareStringIteration(it: CborValue)
    modifies it`ptr, it`bit1
    ensures it.ptr == if it.unknownLength then old(it.ptr) + 1 else old(it.ptr)
    ensures it.bit1 == (it.unknownLength || old(it.bit1))
  {
    if it.unknownLength {
      it.ptr := it.ptr + 1;
      it.bit1 := true;
    }
  }

  /**
   The next chunk, as the range of the buffer it occupies; or, when there is none left, the end
   of the string, after which the iterator stands on the next item.
   */
  method GetStringChunk(it: CborValue) returns (err: CborError, more: bool, start: nat, len: nat)
    requires StringState(it)
    modifies it`ptr, it`remaining, it`typ, it`extra, it`tooLarge, it`bit1, it`unknownLength, it`key
    ensures err == NoError && more ==>
              && Iterating(it) && it.typ == old(it.typ) && it.unknownLength == old(it.unknownLength)
              && it.remaining == old(it.remaining) && it.key == old(it.key)
              && old(it.ptr) <= start && old(it.ptr) < it.ptr == start + len
    ensures err == NoError && more ==>
              old(ChunkStart(it)) < |it.data| && ParseChunk(it.data, old(ChunkStart(it)), old(it.typ) / 32).Ok?
    ensures err == NoError && more ==>
              var c := ChunkAt(it.data, old(ChunkStart(it)), old(it.typ));
              it.data[start..start + len] == c.data && old(ChunksAhead(it)) == Cons(c, ChunksAhead(it))
    ensures err == NoError && !more ==>
              var ahead := old(ChunksAhead(it));
              && ahead.Ok? && ahead.value == []
              && it.Is(Next(it.data, ahead.next, old(it.remaining), it.isMap, old(it.key)))
    ensures err != NoError ==>
              var ahead := old(ChunksAhead(it));
              ahead.Ok? ==> Next(it.data, ahead.next, old(it.remaining), it.isMap, old(it.key)) == Bad
  {
    if !it.bit1 {
      NotBreak(it);
    }
    hide TypeAt, ExtraAt, HeadOk, Next, ChunksFrom, ParseChunk;
    if it.bit1 {
      if !it.unknownLength {
        err := it.PreparseNextValue();
        return err, false, 0, 0;
      }
    } else {
      PrepareStringIteration(it);
    }
    err, more, start, len := GetChunkHere(it);
  }

  /** The part of `GetStringChunk` that looks at the byte where a chunk or the break must be. */
  method GetChunkHere(it: CborValue) returns (err: CborError, more: bool, start: nat, len: nat)
    requires it.IsString() && it.ptr <= |it.data| < TWO_64 && 0 < it.remaining <= UINT32_MAX
    requires it.bit1 == it.unknownLength
    requires !it.unknownLength ==> it.ptr < |it.data| && it.data[it.ptr] != BREAK
    modifies it`ptr, it`remaining, it`typ, it`extra, it`tooLarge, it`bit1, it`unknownLength, it`key
    ensures err == NoError && more ==>
              && Iterating(it) && it.typ == old(it.typ) && it.unknownLength == old(it.unknownLength)
              && it.remaining == old(it.remaining) && it.key == old(it.key)
              && old(it.ptr) <= start && old(it.ptr) < it.ptr == start + len
    ensures err == NoError && more ==> old(it.ptr) < |it.data| && ParseChunk(it.data, old(it.ptr), old(it.typ) / 32).Ok?
    ensures err == NoError && more ==>
              var c := ChunkAt(it.data, old(it.ptr), old(it.typ));
              it.data[start..start + len] == c.data && old(ChunksFromHere(it)) == Cons(c, ChunksAhead(it))
    ensures err == NoError && !more ==>
              var ahead := old(ChunksFromHere(it));
              && ahead.Ok? && ahead.value == []
              && it.Is(Next(it.data, ahead.next, old(it.remaining), it.isMap, old(it.key)))
    ensures err != NoError ==>
              var ahead := old(ChunksFromHere(it));
              ahead.Ok? ==> Next(it.data, ahead.next, old(it.remaining), it.isMap, old(it.key)) == Bad
  {
    hide Next;
    more, start, len := false, 0, 0;
    if it.ptr == |it.data| {
      return UnexpectedEOF, false, 0, 0;
    }
    ChunkCases(it.data, it.ptr, it.typ / 32, it.unknownLength);
    hide ChunksFrom;
    if it.data[it.ptr] == BREAK {
      it.ptr := it.ptr + 1;
      err := it.PreparseNextValue();
    } else if it.data[it.ptr] / 32 == it.typ / 32 {
      err, len := it.ExtractNumber();
      if err != NoError {
        return;
      }
      if len > |it.data| - it.ptr {
        return UnexpectedEOF, false, 0, 0;
      }
      more, start := true, it.ptr;
      it.ptr := it.ptr + len;
      it.bit1 := true;
      assert it.unknownLength ==> ChunksAhead(it) == ParseChunks(it.data, it.ptr, it.typ / 32) by {
        OnlyChunked(it.data, it.ptr, it.typ / 32);
      }
    } else {
      return IllegalType, false, 0, 0;
    }
  }

  ghost function ChunksFromHere(it: CborValue): Parse<seq<Chunk>>
    reads it
  {
    ChunksFrom(it.data, it.ptr, it.typ / 32, it.unknownLength)
  }

  lemma OnlyChunked(s: seq<byte>, p: nat, major: nat)
    ensures ChunksFrom(s, p, major, true) == ParseChunks(s, p, major)
  {
  }

  lemma NotBreak(it: CborValue)
    requires StringState(it) && !it.bit1
    ensures it.ptr < |it.data| && it.data[it.ptr] != BREAK
  {
  }

  ghost function ChunkAt(s: seq<byte>, p: nat, typ: byte): Chunk {
    if p < |s| && ParseChunk(s, p, typ / 32).Ok? then ParseChunk(s, p, typ / 32).value else Chunk(Num(0, 0), [])
  }

  // ----- Going through all chunks

  function Prepend<T>(xs: seq<T>, r: Parse<seq<T>>): Parse<seq<T>> {
    match r
    case Fail => Fail
    case Ok(ys, q) => Ok(xs + ys, q)
  }

  lemma PrependCons<T>(xs: seq<T>, x: T, r: Parse<seq<T>>)
    ensures Prepend(xs, Cons(x, r)) == Prepend(xs + [x], r)
  {
    if r.Ok? {
      assert xs + ([x] + r.value) == (xs + [x]) + r.value;
    }
  }

  lemma {:induction false} ContentAppend(cs: seq<Chunk>, c: Chunk)
    ensures Content(cs + [c]) == Content(cs) + c.data
  {
    if cs == [] {
      assert Content([c]) == c.data + Content([]);
    } else {
      ContentAppend(cs[1..], c);
      assert (cs + [c])[1..] == cs[1..] + [c];
    }
  }

  /** What the loop does with each chunk: nothing, copy it, or compare it with a C string. */
  datatype Sink = Noop | Memcpy(dest: array<byte>, off: nat) | Memcmp(text: seq<byte>)

  ghost predicate Roomy(sink: Sink, n: nat) {
    match sink
    case Noop => true
    case Memcpy(dest, off) => off + n <= dest.Length
    case Memcmp(text) => n <= |text|
  }

  /** The sink has taken `content` and agreed with it. */
  ghost predicate Took(sink: Sink, content: seq<byte>)
    reads if sink.Memcpy? then {sink.dest} else {}
  {
    Roomy(sink, |content|) &&
    match sink
    case Noop => true
    case Memcpy(dest, off) => dest[off..off + |content|] == content
    case Memcmp(text) => text[..|content|] == content
  }

  method Feed(sink: Sink, total: nat, src: seq<byte>, ghost content: seq<byte>) returns (ok: bool)
    requires Took(sink, content) && |content| == total && Roomy(sink, total + |src|)
    modifies if sink.Memcpy? then {sink.dest} else {}
    ensures ok <==> Took(sink, content + src)
    ensures !sink.Memcmp? ==> ok
    ensures sink.Memcpy? ==> sink.dest[..sink.off] == old(sink.dest[..sink.off])
  {
    match sink
    case Noop => ok := true;
    case Memcpy(dest, off) =>
      ghost var before := dest[..];
      CopyInto(dest, off + total, src);
      Spliced(before, dest[..], off, content, src);
      ok := true;
    case Memcmp(text) =>
      ok := text[total..total + |src|] == src;
      assert text[..total + |src|] == text[..total] + text[total..total + |src|];
      if text[..total + |src|] == content + src {
        assert (content + src)[total..] == src;
      }
  }

  lemma Spliced(s: seq<byte>, t: seq<byte>, off: nat, content: seq<byte>, src: seq<byte>)
    requires |s| == |t| && off + |content| + |src| <= |s| && s[off..off + |content|] == content
    requires t[..off + |content| + |src|] == s[..off + |content|] + src
    ensures t[off..off + |content| + |src|] == content + src && t[..off] == s[..off]
  {
    var k := off + |content|;
    assert t[off..k + |src|] == t[..k + |src|][off..];
    assert (s[..k] + src)[off..] == s[off..k] + src;
    assert t[..off] == t[..k + |src|][..off];
  }

  lemma ParseStringChunks(it: CborValue)
    requires it.OnItem() && it.IsString()
    ensures it.data[it.ptr] / 32 == it.typ / 32
    ensures var r := ParseString(it.data, it.ptr);
            && (r.Ok? <==> ChunksAhead(it).Ok?)
            && (r.Ok? ==> r.value == String(it.typ == TEXT_STRING, it.unknownLength, ChunksAhead(it).value)
                          && r.next == ChunksAhead(it).next)
  {
    if !it.unknownLength && ChunksAhead(it).Ok? {
      var c := ParseChunk(it.data, it.ptr, it.typ / 32).value;
      assert [c] + [] == [c];
    }
  }

  /** `result` says that all of `content` fitted and agreed. */
  ghost predicate Progress(sink: Sink, buflen: nat, result: bool, content: seq<byte>)
    reads if sink.Memcpy? then {sink.dest} else {}
  {
    && Roomy(sink, buflen)
    && (result <==> |content| <= buflen && Took(sink, content))
    && (!sink.Memcmp? && |content| <= buflen ==> result)
  }

  lemma ProgressNil(sink: Sink, buflen: nat)
    requires Roomy(sink, buflen)
    ensures Progress(sink, buflen, true, [])
  {
  }

  method TakeChunk(sink: Sink, buflen: nat, result: bool, total: nat, src: seq<byte>, ghost content: seq<byte>)
    returns (result': bool)
    requires |content| == total && Progress(sink, buflen, result, content)
    modifies if sink.Memcpy? then {sink.dest} else {}
    ensures Progress(sink, buflen, result', content + src)
    ensures sink.Memcpy? ==> sink.dest[..sink.off] == old(sink.dest[..sink.off])
  {
    if result && buflen >= total + |src| {
      result' := Feed(sink, total, src, content);
    } else {
      result' := false;
    }
  }

  lemma NoNul(text: seq<byte>, content: seq<byte>)
    requires 0 !in text
    ensures |content| < |text| ==> text[..|content| + 1] != content + [0]
  {
    assert |content| < |text| ==> text[..|content| + 1][|content|] in text;
    assert (content + [0])[|content|] == 0;
  }

  /** The terminating NUL, if there is room for it. */
  method TakeNul(sink: Sink, buflen: nat, result: bool, total: nat, ghost content: seq<byte>) returns (result': bool)
    requires |content| == total && Progress(sink, buflen, result, content)
    requires sink.Memcmp? ==> buflen == |sink.text| && 0 !in sink.text
    modifies if sink.Memcpy? then {sink.dest} else {}
    ensures !sink.Memcmp? ==> result' == (total <= buflen)
    ensures sink.Memcmp? ==> result' == (content == sink.text)
    ensures sink.Memcpy? && result' ==> Took(sink, if total < buflen then content + [0] else content)
    ensures sink.Memcpy? ==> sink.dest[..sink.off] == old(sink.dest[..sink.off])
  {
    result' := result;
    if result && buflen > total {
      result' := Feed(sink, total, [0], content);
      if sink.Memcmp? {
        NoNul(sink.text, content);
      }
    }
  }

  /** Goes through a string's chunks; leaves the iterator on what follows the string. */
  method IterateStringChunks(it: CborValue, sink: Sink, buflen: nat)
    returns (err: CborError, result: bool, total: nat)
    requires it.OnItem() && it.IsString() && Roomy(sink, buflen)
    requires sink.Memcmp? ==> buflen == |sink.text| && 0 !in sink.text
    modifies it`ptr, it`remaining, it`typ, it`extra, it`tooLarge, it`bit1, it`unknownLength, it`key
    modifies if sink.Memcpy? then {sink.dest} else {}
    ensures err == NoError <==> old(AfterString(it)) != Bad
    ensures err == NoError ==> it.Is(old(AfterString(it)))
    ensures sink.Memcpy? ==> sink.dest[..sink.off] == old(sink.dest[..sink.off])
    ensures err == NoError ==>
              var content := Content(old(ParseString(it.data, it.ptr)).value.chunks);
              && total == |content|
              && (!sink.Memcmp? ==> result == (total <= buflen))
              && (sink.Memcmp? ==> result == (content == sink.text))
              && (sink.Memcpy? && result ==> Took(sink, if total < buflen then content + [0] else content))
  {
    ParseStringChunks(it);
    hide TypeAt, ExtraAt, HeadOk, Next, ChunksFrom, ParseChunk, Progress, ChunkStart;
    ghost var all := ChunksAhead(it);
    ghost var done: seq<Chunk> := [];
    PrependNil(all);
    result, total := true, 0;
    ProgressNil(sink, buflen);
    var more := true;
    while more
      invariant it.isMap == old(it.isMap)
      invariant more ==> StringState(it) && it.remaining == old(it.remaining) && it.key == old(it.key)
      invariant more ==> Gone(it, all, done, total)
      invariant !more ==> all.Ok? && all.value == done && total == |Content(done)| && it.Is(old(AfterString(it)))
      invariant Progress(sink, buflen, result, Content(done))
      invariant sink.Memcpy? ==> sink.dest[..sink.off] == old(sink.dest[..sink.off])
      decreases if more then |it.data| - it.ptr else -1
    {
      err, more, result, total, done := NextChunk(it, sink, buflen, result, total, all, done);
      if err != NoError {
        return;
      }
    }
    result := TakeNul(sink, buflen, result, total, Content(done));
    err := NoError;
  }

  /** The chunks `done` are behind the iterator, and the rest of `all` ahead of it. */
  ghost predicate Gone(it: CborValue, all: Parse<seq<Chunk>>, done: seq<Chunk>, total: nat)
    reads it
  {
    all == Prepend(done, ChunksAhead(it)) && total == |Content(done)| <= it.ptr
  }

  /** One turn of the loop. */
  method NextChunk(it: CborValue, sink: Sink, buflen: nat, result: bool, total: nat,
                   ghost all: Parse<seq<Chunk>>, ghost done: seq<Chunk>)
    returns (err: CborError, more: bool, result': bool, total': nat, ghost done': seq<Chunk>)
    requires StringState(it) && Gone(it, all, done, total) && Progress(sink, buflen, result, Content(done))
    modifies it`ptr, it`remaining, it`typ, it`extra, it`tooLarge, it`bit1, it`unknownLength, it`key
    modifies if sink.Memcpy? then {sink.dest} else {}
    ensures sink.Memcpy? ==> sink.dest[..sink.off] == old(sink.dest[..sink.off])
    ensures err != NoError && all.Ok? ==> Next(it.data, all.next, old(it.remaining), it.isMap, old(it.key)) == Bad
    ensures err == NoError ==> Progress(sink, buflen, result', Content(done'))
    ensures err == NoError && more ==>
              && StringState(it) && it.remaining == old(it.remaining) && it.key == old(it.key) && old(it.ptr) < it.ptr
              && Gone(it, all, done', total')
    ensures err == NoError && !more ==>
              && all.Ok? && all.value == done' && total' == |Content(done')|
              && it.Is(Next(it.data, all.next, old(it.remaining), it.isMap, old(it.key)))
  {
    hide TypeAt, ExtraAt, HeadOk, Next, ChunksFrom, ParseChunk, Progress;
    result', total', done' := result, total, done;
    ghost var c, ahead := ChunkAt(it.data, ChunkStart(it), it.typ), ChunksAhead(it);
    var start, len;
    err, more, start, len := GetStringChunk(it);
    if err != NoError {
      return;
    }
    if !more {
      assert done + [] == done;
      return;
    }
    PrependCons(done, c, ChunksAhead(it));
    ContentAppend(done, c);
    assert total + len < TWO_64;
    result' := TakeChunk(sink, buflen, result, total, it.data[start..start + len], Content(done));
    total' := total + len;
    done' := done + [c];
  }

  lemma PrependNil<T>(r: Parse<seq<T>>)
    ensures Prepend([], r) == r
  {
    if r.Ok? {
      assert [] + r.value == r.value;
    }
  }

  /** The place after the string the iterator stands on. */
  ghost function AfterString(it: CborValue): Place
    reads it
    requires it.OnItem()
  {
    match ParseString(it.data, it.ptr)
    case Fail => Bad
    case Ok(_, q) => Next(it.data, q, it.remaining, it.isMap, it.key)
  }
}
