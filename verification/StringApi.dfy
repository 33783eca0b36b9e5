/**
 Copying, measuring and duplicating strings (src/tinycbor/cborparser.c,
 src/tinycbor/cborparser_dup_string.c). All of them see a string as the concatenation of its
 chunks and nothing else.
 */
module StringApi {
  import opened Bytes
  import opened Errors
  import opened Syntax
  import opened Values
  import opened Places
  import opened Parser
  import opened Strings

  /** The bytes of the string the iterator stands on, whatever its chunks. */
  ghost function StringContent(it: CborValue): seq<byte>
    reads it
    requires it.OnItem() && it.IsString()
  {
    match ParseString(it.data, it.ptr)
    case Ok(String(_, _, chunks), _) => Content(chunks)
    case _ => []
  }

  /** `_cbor_value_copy_string`: the string, and a NUL if there is room for one. */
  method CopyString(it: CborValue, sink: Sink, buflen: nat) returns (err: CborError, len: nat)
    requires it.OnItem() && it.IsString() && Roomy(sink, buflen) && !sink.Memcmp?
    modifies it`ptr, it`remaining, it`typ, it`extra, it`tooLarge, it`bit1, it`unknownLength, it`key
    modifies if sink.Memcpy? then {sink.dest} else {}
    ensures old(AfterString(it)) == Bad ==> err != NoError
    ensures old(AfterString(it)) != Bad ==>
              var content := old(StringContent(it));
              && it.Is(old(AfterString(it))) && len == |content|
              && err == (if |content| <= buflen then NoError else OutOfMemory)
              && (sink.Memcpy? && err == NoError ==> Took(sink, if len < buflen then content + [0] else content))
    ensures sink.Memcpy? ==> sink.dest[..sink.off] == old(sink.dest[..sink.off])
  {
    var copiedAll;
    err, copiedAll, len := IterateStringChunks(it, sink, buflen);
    if err == NoError && !copiedAll {
      err := OutOfMemory;
    }
  }

  method CalculateStringLength(it: CborValue) returns (err: CborError, len: nat)
    requires it.OnItem() && it.IsString()
    ensures err == NoError <==> AfterString(it) != Bad
    ensures err == NoError ==> len == |StringContent(it)|
  {
    var tmp := new CborValue.Copy(it);
    ContentBound(it);
    err, len := CopyString(tmp, Noop, TWO_64 - 1);
  }

  method DupString(it: CborValue) returns (err: CborError, buffer: array<byte>, len: nat)
    requires it.OnItem() && it.IsString()
    modifies it`ptr, it`remaining, it`typ, it`extra, it`tooLarge, it`bit1, it`unknownLength, it`key
    ensures fresh(buffer)
    ensures err == NoError <==> old(AfterString(it)) != Bad
    ensures err == NoError ==>
              && it.Is(old(AfterString(it)))
              && len == |old(StringContent(it))| && buffer[..] == old(StringContent(it)) + [0]
  {
    err, len := CalculateStringLength(it);
    if err != NoError {
      buffer := new byte[0];
      return;
    }
    buffer := new byte[len + 1];
    err, len := CopyString(it, Memcpy(buffer, 0), len + 1);
    assert buffer[0..len + 1] == buffer[..];
  }

  lemma {:induction false} ChunksBound(s: seq<byte>, p: nat, major: nat)
    requires p <= |s|
    ensures var r := ParseChunks(s, p, major); r.Ok? ==> p + |Content(r.value)| <= r.next
    decreases |s| - p
  {
    if p < |s| && s[p] != BREAK && ParseChunk(s, p, major).Ok? {
      var Ok(c, q) := ParseChunk(s, p, major);
      ChunksBound(s, q, major);
      var rest := ParseChunks(s, q, major);
      if rest.Ok? {
        assert ([c] + rest.value)[1..] == rest.value;
      }
    }
  }

  /** A string is never longer than the buffer it came from. */
  lemma ContentBound(it: CborValue)
    requires it.OnItem() && it.IsString()
    ensures |StringContent(it)| <= |it.data|
  {
    if it.unknownLength {
      ChunksBound(it.data, it.ptr + 1, it.data[it.ptr] / 32);
    } else if ParseChunk(it.data, it.ptr, it.data[it.ptr] / 32).Ok? {
      var c := ParseChunk(it.data, it.ptr, it.data[it.ptr] / 32).value;
      assert Content([c]) == c.data + Content([]);
    }
  }
}
