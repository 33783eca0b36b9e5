/**
 The grammar of RFC 7049 section 2, as concrete syntax trees: a tree records everything the
 bytes say, so that trees and well-formed encodings are in one-to-one correspondence.
 `Serialize` writes a tree out; `ParseItem` is the reference reader. The iterator, the encoder
 and the validator are all specified against these two.
 */
module Syntax {
  import opened Bytes
  import opened Wrappers

  /** The result of reading at a position: a value and where the next byte is. */
  datatype Parse<+T> = Fail | Ok(value: T, next: nat)

  const BREAK: byte := 0xff

  /** The number in an item's head: the additional information and the value it stands for. */
  datatype Num = Num(ai: nat, arg: nat)

  datatype Chunk = Chunk(num: Num, data: seq<byte>)

  datatype Cst =
    | Integer(negative: bool, num: Num)
    | String(text: bool, indefinite: bool, chunks: seq<Chunk>)
    | Container(isMap: bool, len: Option<Num>, items: seq<Cst>)
    | Tag(num: Num, item: Cst)
    | Prim(num: Num)

  function NumBytes(ai: nat): nat {
    if ai < 24 then 0 else if ai == 24 then 1 else if ai == 25 then 2 else if ai == 26 then 4 else 8
  }

  predicate WfNum(n: Num) {
    n.ai <= 27 && if n.ai < 24 then n.arg == n.ai else n.arg < Pow256(NumBytes(n.ai))
  }

  /** A container of `n` declared entries holds `n` items, or `2n` when it is a map. */
  function Arity(isMap: bool, n: nat): nat {
    if isMap then 2 * n else n
  }

  predicate WfChunk(c: Chunk) {
    WfNum(c.num) && |c.data| == c.num.arg
  }

  predicate WfChunks(cs: seq<Chunk>) {
    forall i | 0 <= i < |cs| :: WfChunk(cs[i])
  }

  predicate WfAll(items: seq<Cst>) {
    forall i | 0 <= i < |items| :: Wf(items[i])
  }

  predicate Wf(c: Cst) {
    match c
    case Integer(_, num) => WfNum(num)
    case String(_, indefinite, chunks) => WfChunks(chunks) && (!indefinite ==> |chunks| == 1)
    case Container(isMap, len, items) =>
      && WfAll(items)
      && (match len
          case Some(num) => WfNum(num) && |items| == Arity(isMap, num.arg)
          case None => isMap ==> |items| % 2 == 0)
    case Tag(num, item) => WfNum(num) && Wf(item)
    case Prim(num) => WfNum(num) && (num.ai == 24 ==> num.arg >= 32)
  }

  function StringMajor(text: bool): nat { if text then 3 else 2 }

  function ContainerMajor(isMap: bool): nat { if isMap then 5 else 4 }

  function SerNum(major: nat, n: Num): (s: seq<byte>)
    requires major <= 7 && WfNum(n)
    ensures |s| == 1 + NumBytes(n.ai) && s[0] == major * 32 + n.ai
  {
    [major * 32 + n.ai] + if n.ai < 24 then [] else ToBE(n.arg, NumBytes(n.ai))
  }

  function SerChunks(major: nat, chunks: seq<Chunk>): seq<byte>
    requires major <= 7 && WfChunks(chunks)
  {
    if chunks == [] then []
    else SerNum(major, chunks[0].num) + chunks[0].data + SerChunks(major, chunks[1..])
  }

  function Serialize(c: Cst): (s: seq<byte>)
    requires Wf(c)
    ensures |s| > 0 && s[0] != BREAK
    decreases c
  {
    match c
    case Integer(negative, num) => SerNum(if negative then 1 else 0, num)
    case String(text, indefinite, chunks) =>
      if indefinite then [StringMajor(text) * 32 + 31] + SerChunks(StringMajor(text), chunks) + [BREAK]
      else
        SerChunks(StringMajor(text), chunks)
    case Container(isMap, Some(num), items) => SerNum(ContainerMajor(isMap), num) + SerializeAll(items)
    case Container(isMap, None, items) => [ContainerMajor(isMap) * 32 + 31] + SerializeAll(items) + [BREAK]
    case Tag(num, item) => SerNum(6, num) + Serialize(item)
    case Prim(num) => SerNum(7, num)
  }

  function SerializeAll(items: seq<Cst>): seq<byte>
    requires WfAll(items)
    decreases items
  {
    if items == [] then [] else Serialize(items[0]) + SerializeAll(items[1..])
  }

  // ----- The reference reader

  function ParseNum(s: seq<byte>, p: nat): (r: Parse<Num>)
    requires p < |s|
    ensures r.Ok? ==> p < r.next <= |s|
  {
    var ai := s[p] % 32;
    var end := p + 1 + NumBytes(ai);
    if ai < 24 then Ok(Num(ai, ai), end)
    else if ai > 27 || end > |s| then Fail
    else Ok(Num(ai, FromBE(s[p + 1..end])), end)
  }

  /** One definite-length string of the given major type: a whole string, or one chunk. */
  function ParseChunk(s: seq<byte>, p: nat, major: nat): (r: Parse<Chunk>)
    requires p < |s|
    ensures r.Ok? ==> p < r.next <= |s|
  {
    if s[p] / 32 != major then Fail else
    match ParseNum(s, p)
    case Fail => Fail
    case Ok(num, h) => if h + num.arg <= |s| then Ok(Chunk(num, s[h..h + num.arg]), h + num.arg) else Fail
  }

  /** The chunks of an indefinite-length string, up to and including the break. */
  function ParseChunks(s: seq<byte>, p: nat, major: nat): (r: Parse<seq<Chunk>>)
    ensures r.Ok? ==> p < r.next <= |s|
    decreases |s| - p
  {
    if p >= |s| then Fail
    else if s[p] == BREAK then Ok([], p + 1)
    else
      match ParseChunk(s, p, major)
      case Fail => Fail
      case Ok(c, q) =>
        Cons(c, ParseChunks(s, q, major))
  }

  /** How many items are still to come: a count, or all those up to a break. */
  datatype Count = Exactly(n: nat) | UntilBreak

  function ParseItem(s: seq<byte>, p: nat): (r: Parse<Cst>)
    ensures r.Ok? ==> p < r.next <= |s|
    decreases |s| - p, 2
  {
    if p >= |s| then Fail else
    var major := s[p] / 32;
    if major == 2 || major == 3 then ParseString(s, p)
    else if major == 4 || major == 5 then ParseContainer(s, p)
    else
      match ParseNum(s, p)
      case Fail => Fail
      case Ok(num, h) =>
        if major <= 1 then Ok(Integer(major == 1, num), h)
        else if major == 6 then
          match ParseItem(s, h)
          case Fail => Fail
          case Ok(item, q) => Ok(Tag(num, item), q)
        else if num.ai == 24 && num.arg < 32 then Fail
        else Ok(Prim(num), h)
  }

  function ParseString(s: seq<byte>, p: nat): (r: Parse<Cst>)
    requires p < |s|
    ensures r.Ok? ==> p < r.next <= |s|
  {
    var major := s[p] / 32;
    if s[p] % 32 == 31 then
      match ParseChunks(s, p + 1, major)
      case Fail => Fail
      case Ok(cs, q) => Ok(String(major == 3, true, cs), q)
    else
      match ParseChunk(s, p, major)
      case Fail => Fail
      case Ok(c, q) => Ok(String(major == 3, false, [c]), q)
  }

  function ParseContainer(s: seq<byte>, p: nat): (r: Parse<Cst>)
    requires p < |s|
    ensures r.Ok? ==> p < r.next <= |s|
    decreases |s| - p, 0
  {
    var isMap := s[p] / 32 == 5;
    if s[p] % 32 == 31 then
      match ParseBody(s, p + 1, UntilBreak, isMap, false)
      case Fail => Fail
      case Ok(items, q) => Ok(Container(isMap, None, items), q)
    else
      match ParseNum(s, p)
      case Fail => Fail
      case Ok(num, h) =>
        match ParseBody(s, h, Exactly(Arity(isMap, num.arg)), isMap, false)
        case Fail => Fail
        case Ok(items, q) => Ok(Container(isMap, Some(num), items), q)
  }

  /**
   The remaining items of a container, with its break if it is of indefinite length.
   `odd` says that an odd number of items came before, so that a map cannot end here.
   */
  function ParseBody(s: seq<byte>, p: nat, n: Count, isMap: bool, odd: bool): (r: Parse<seq<Cst>>)
    requires p <= |s|
    ensures r.Ok? ==> p <= r.next <= |s|
    decreases |s| - p, 3
  {
    if n == Exactly(0) then Ok([], p)
    else if n == UntilBreak && p < |s| && s[p] == BREAK then
      if isMap && odd then Fail else Ok([], p + 1)
    else
      match ParseItem(s, p)
      case Fail => Fail
      case Ok(c, q) =>
        Cons(c, ParseBody(s, q, Less(n), isMap, !odd))
  }

  function Cons<T>(x: T, r: Parse<seq<T>>): (r': Parse<seq<T>>)
    ensures r'.Ok? <==> r.Ok?
    ensures r.Ok? ==> r'.next == r.next
  {
    match r
    case Fail => Fail
    case Ok(xs, q) => Ok([x] + xs, q)
  }

  function Less(n: Count): Count {
    match n
    case Exactly(k) => if k == 0 then n else Exactly(k - 1)
    case UntilBreak => UntilBreak
  }

  // ----- Reading is exactly the inverse of writing

  lemma NumSound(s: seq<byte>, p: nat)
    requires p < |s| && ParseNum(s, p).Ok?
    ensures WfNum(ParseNum(s, p).value)
    ensures Sits(s, p, SerNum(s[p] / 32, ParseNum(s, p).value))
    ensures ParseNum(s, p).next == p + 1 + NumBytes(ParseNum(s, p).value.ai)
  {
    var Ok(n, e) := ParseNum(s, p);
    assert s[p..e] == [s[p]] + s[p + 1..e];
    if n.ai >= 24 {
      ToFromBE(s[p + 1..e]);
    }
  }

  lemma ParseNumAt(s: seq<byte>, p: nat, major: nat, n: Num)
    requires p < |s| && major <= 7 && n.ai <= 27 && s[p] == major * 32 + n.ai && p + 1 + NumBytes(n.ai) <= |s|
    requires n.arg == if n.ai < 24 then n.ai else FromBE(s[p + 1..p + 1 + NumBytes(n.ai)])
    ensures ParseNum(s, p) == Ok(n, p + 1 + NumBytes(n.ai))
  {
    assert s[p] % 32 == n.ai;
  }

  lemma NumComplete(s: seq<byte>, p: nat, major: nat, n: Num)
    requires major <= 7 && WfNum(n) && Sits(s, p, SerNum(major, n))
    ensures p < |s| && s[p] == major * 32 + n.ai
    ensures ParseNum(s, p) == Ok(n, p + 1 + NumBytes(n.ai))
  {
    hide ParseNum, NumBytes;
    var t, k := SerNum(major, n), NumBytes(n.ai);
    SitsAt(s, p, t);
    if n.ai >= 24 {
      FromToBE(n.arg, k);
      assert s[p + 1..p + 1 + k] == s[p..p + |t|][1..] == t[1..];
      assert t[1..] == ToBE(n.arg, k);
    }
    ParseNumAt(s, p, major, n);
  }

  lemma ChunkSound(s: seq<byte>, p: nat, major: nat)
    requires p < |s| && ParseChunk(s, p, major).Ok?
    ensures major <= 7
    ensures var Ok(c, q) := ParseChunk(s, p, major);
            WfChunk(c) && Sits(s, p, SerNum(major, c.num) + c.data) && q == p + |SerNum(major, c.num) + c.data|
  {
    NumSound(s, p);
    var c := ParseChunk(s, p, major).value;
    SitsConcat(s, p, SerNum(major, c.num), c.data);
  }

  lemma HeadByte(b: byte, major: nat, ai: nat)
    requires ai < 32 && b == major * 32 + ai
    ensures b / 32 == major && b % 32 == ai
  {
  }

  lemma ChunkComplete(s: seq<byte>, p: nat, major: nat, c: Chunk)
    requires major <= 7 && WfChunk(c) && Sits(s, p, SerNum(major, c.num) + c.data)
    ensures p < |s| && s[p] / 32 == major && s[p] % 32 == c.num.ai
    ensures ParseChunk(s, p, major) == Ok(c, p + |SerNum(major, c.num) + c.data|)
  {
    hide SerNum, ParseNum;
    SitsConcat(s, p, SerNum(major, c.num), c.data);
    NumComplete(s, p, major, c.num);
    HeadByte(s[p], major, c.num.ai);
    var h := p + |SerNum(major, c.num)|;
    assert s[h..h + |c.data|] == c.data;
  }

  lemma SerChunksCons(major: nat, c: Chunk, cs: seq<Chunk>)
    requires major <= 7 && WfChunk(c) && WfChunks(cs)
    ensures WfChunks([c] + cs)
    ensures SerChunks(major, [c] + cs) == SerNum(major, c.num) + c.data + SerChunks(major, cs)
  {
    assert ([c] + cs)[1..] == cs;
  }

  /** The first chunk and the others behind it, in place, make the string of chunks. */
  lemma ChunksJoin(s: seq<byte>, p: nat, major: nat, c: Chunk, cs: seq<Chunk>)
    requires major <= 6 && WfChunk(c) && WfChunks(cs)
    requires Sits(s, p, SerNum(major, c.num) + c.data)
    requires Sits(s, p + |SerNum(major, c.num) + c.data|, SerChunks(major, cs) + [BREAK])
    ensures WfChunks([c] + cs) && Sits(s, p, SerChunks(major, [c] + cs) + [BREAK])
    ensures |SerChunks(major, [c] + cs)| == |SerNum(major, c.num) + c.data| + |SerChunks(major, cs)|
  {
    hide Sits, SerNum;
    var head := SerNum(major, c.num) + c.data;
    SerChunksCons(major, c, cs);
    SitsConcat(s, p, head, SerChunks(major, cs) + [BREAK]);
    assert head + (SerChunks(major, cs) + [BREAK]) == SerChunks(major, [c] + cs) + [BREAK];
  }

  lemma JustBreak(s: seq<byte>, p: nat, major: nat)
    requires p < |s| && s[p] == BREAK && major <= 6
    ensures SerChunks(major, []) == [] && Sits(s, p, SerChunks(major, []) + [BREAK])
  {
    assert SerChunks(major, []) + [BREAK] == [BREAK] == s[p..p + 1];
  }

  lemma {:induction false} ChunksSound(s: seq<byte>, p: nat, major: nat)
    requires ParseChunks(s, p, major).Ok? && major <= 6
    ensures var Ok(cs, q) := ParseChunks(s, p, major);
            && WfChunks(cs)
            && Sits(s, p, SerChunks(major, cs) + [BREAK]) && q == p + |SerChunks(major, cs)| + 1
    decreases |s| - p
  {
    hide Sits, SerNum, ParseChunk;
    if s[p] == BREAK {
      JustBreak(s, p, major);
    } else {
      var Ok(c, q) := ParseChunk(s, p, major);
      ChunkSound(s, p, major);
      ChunksSound(s, q, major);
      ParseChunksCons(s, p, major);
      ChunksJoin(s, p, major, c, ParseChunks(s, q, major).value);
    }
  }

  lemma SplitFirst(major: nat, cs: seq<Chunk>)
    requires major <= 7 && WfChunks(cs) && cs != []
    ensures SerChunks(major, cs) + [BREAK] ==
            (SerNum(major, cs[0].num) + cs[0].data) + (SerChunks(major, cs[1..]) + [BREAK])
    ensures |SerChunks(major, cs)| == |SerNum(major, cs[0].num) + cs[0].data| + |SerChunks(major, cs[1..])|
  {
    hide SerNum;
    var head, tail := SerNum(major, cs[0].num) + cs[0].data, SerChunks(major, cs[1..]);
    assert SerChunks(major, cs) == head + tail;
    assert (head + tail) + [BREAK] == head + (tail + [BREAK]);
  }

  lemma ParseChunksCons(s: seq<byte>, p: nat, major: nat)
    requires p < |s| && s[p] != BREAK && ParseChunk(s, p, major).Ok?
    ensures ParseChunks(s, p, major) ==
            Cons(ParseChunk(s, p, major).value, ParseChunks(s, ParseChunk(s, p, major).next, major))
  {
    hide ParseChunk;
  }

  lemma ChunksNone(s: seq<byte>, p: nat, major: nat)
    requires major <= 6 && Sits(s, p, SerChunks(major, []) + [BREAK])
    ensures ParseChunks(s, p, major) == Ok([], p + 1)
  {
    assert s[p..p + 1][0] == BREAK;
  }

  /** A string of chunks in place: its first chunk, and the others behind it. */
  lemma ChunksFirst(s: seq<byte>, p: nat, major: nat, cs: seq<Chunk>)
    requires major <= 6 && WfChunks(cs) && cs != []
    requires Sits(s, p, SerChunks(major, cs) + [BREAK])
    ensures var n := |SerNum(major, cs[0].num) + cs[0].data|;
            && Sits(s, p + n, SerChunks(major, cs[1..]) + [BREAK])
            && |SerChunks(major, cs)| == n + |SerChunks(major, cs[1..])|
            && p < |s| && s[p] != BREAK && ParseChunk(s, p, major) == Ok(cs[0], p + n)
  {
    hide Sits, SerNum, ParseChunk;
    var head := SerNum(major, cs[0].num) + cs[0].data;
    SplitFirst(major, cs);
    SitsConcat(s, p, head, SerChunks(major, cs[1..]) + [BREAK]);
    ChunkComplete(s, p, major, cs[0]);
  }

  lemma {:induction false} ChunksComplete(s: seq<byte>, p: nat, major: nat, cs: seq<Chunk>)
    requires major <= 6 && WfChunks(cs)
    requires Sits(s, p, SerChunks(major, cs) + [BREAK])
    ensures ParseChunks(s, p, major) == Ok(cs, p + |SerChunks(major, cs)| + 1)
    decreases |cs|
  {
    hide Sits, SerNum, ParseChunk;
    if cs == [] {
      ChunksNone(s, p, major);
    } else {
      ChunksFirst(s, p, major, cs);
      ChunksComplete(s, p + |SerNum(major, cs[0].num) + cs[0].data|, major, cs[1..]);
      ParseChunksCons(s, p, major);
      assert [cs[0]] + cs[1..] == cs;
    }
  }

  /** Whatever the reader accepts is the serialization of the well-formed tree it returns. */
  lemma {:induction false} ParseSound(s: seq<byte>, p: nat)
    requires ParseItem(s, p).Ok?
    ensures var Ok(c, q) := ParseItem(s, p); Wf(c) && Sits(s, p, Serialize(c)) && q == p + |Serialize(c)|
    decreases |s| - p, 2
  {
    var major := s[p] / 32;
    if major == 2 || major == 3 {
      StringSound(s, p);
    } else if major == 4 || major == 5 {
      ContainerSound(s, p);
    } else {
      NumSound(s, p);
      var Ok(num, h) := ParseNum(s, p);
      if major == 6 {
        ParseSound(s, h);
        SitsConcat(s, p, SerNum(6, num), Serialize(ParseItem(s, h).value));
      }
    }
  }

  lemma StringSound(s: seq<byte>, p: nat)
    requires p < |s| && 2 <= s[p] / 32 <= 3 && ParseString(s, p).Ok?
    ensures var Ok(c, q) := ParseString(s, p); Wf(c) && Sits(s, p, Serialize(c)) && q == p + |Serialize(c)|
  {
    var major := s[p] / 32;
    var c := ParseString(s, p).value;
    if s[p] % 32 == 31 {
      ChunksSound(s, p + 1, major);
      SerChunked(s, p, c.text, c.chunks);
    } else {
      hide Sits;
      ChunkSound(s, p, major);
      SerOneChunk(c.text, c.chunks[0]);
    }
  }

  lemma SerChunked(s: seq<byte>, p: nat, text: bool, chunks: seq<Chunk>)
    requires WfChunks(chunks)
    ensures var major, c := StringMajor(text), String(text, true, chunks);
            && |Serialize(c)| == 1 + |SerChunks(major, chunks)| + 1
            && (Sits(s, p, Serialize(c)) <==>
                p < |s| && s[p] == major * 32 + 31 && Sits(s, p + 1, SerChunks(major, chunks) + [BREAK]))
  {
    var major := StringMajor(text);
    assert Serialize(String(text, true, chunks)) == [major * 32 + 31] + (SerChunks(major, chunks) + [BREAK]);
    SitsConcat(s, p, [major * 32 + 31], SerChunks(major, chunks) + [BREAK]);
  }

  lemma {:induction false} ContainerSound(s: seq<byte>, p: nat)
    requires p < |s| && 4 <= s[p] / 32 <= 5 && ParseContainer(s, p).Ok?
    ensures var Ok(c, q) := ParseContainer(s, p); Wf(c) && Sits(s, p, Serialize(c)) && q == p + |Serialize(c)|
    decreases |s| - p, 0
  {
    hide Sits, SerNum, BodyAt;
    var Ok(c, q) := ParseContainer(s, p);
    if s[p] % 32 == 31 {
      SitsOne(s, p);
      BodySound(s, p + 1, UntilBreak, c.isMap, false);
      ContainerJoin(s, p, c, [s[p]], UntilBreak, q);
    } else {
      NumSound(s, p);
      var Ok(num, h) := ParseNum(s, p);
      BodySound(s, h, Exactly(Arity(c.isMap, num.arg)), c.isMap, false);
      ContainerJoin(s, p, c, SerNum(s[p] / 32, num), Exactly(Arity(c.isMap, num.arg)), q);
    }
  }

  /** A head and a body, in place, make the container. */
  lemma ContainerJoin(s: seq<byte>, p: nat, c: Cst, head: seq<byte>, n: Count, q: nat)
    requires c.Container? && (n == UntilBreak <==> c.len.None?)
    requires match c.len { case Some(num) => WfNum(num) && n == Exactly(Arity(c.isMap, num.arg))
                                             && head == SerNum(ContainerMajor(c.isMap), num)
                           case None => head == [ContainerMajor(c.isMap) * 32 + 31] }
    requires Sits(s, p, head) && BodyAt(s, p + |head|, n, c.isMap, false, c.items, q)
    ensures Wf(c) && Sits(s, p, Serialize(c)) && q == p + |Serialize(c)|
  {
    hide Sits, SerNum;
    SerContainer(s, p, c, head, n);
  }

  lemma SitsOne(s: seq<byte>, p: nat)
    requires p < |s|
    ensures Sits(s, p, [s[p]])
  {
  }

  lemma SerContainer(s: seq<byte>, p: nat, c: Cst, head: seq<byte>, n: Count)
    requires c.Container? && Wf(c) && (n == UntilBreak <==> c.len.None?)
    requires head == match c.len { case Some(num) => SerNum(ContainerMajor(c.isMap), num)
                                   case None => [ContainerMajor(c.isMap) * 32 + 31] }
    ensures Serialize(c) == head + SerBody(c.items, n)
    ensures Sits(s, p, Serialize(c)) <==> Sits(s, p, head) && Sits(s, p + |head|, SerBody(c.items, n))
  {
    hide Sits;
    assert Serialize(c) == head + SerBody(c.items, n);
    SitsConcat(s, p, head, SerBody(c.items, n));
  }

  lemma SerOneChunk(text: bool, c: Chunk)
    requires WfChunk(c)
    ensures Wf(String(text, false, [c]))
    ensures Serialize(String(text, false, [c])) == SerNum(StringMajor(text), c.num) + c.data
  {
    SerChunksCons(StringMajor(text), c, []);
    assert [c] + [] == [c];
    assert SerChunks(StringMajor(text), []) == [];
  }

  /** The bytes of a container's body: its items, and the break if there is one. */
  function SerBody(items: seq<Cst>, n: Count): seq<byte>
    requires WfAll(items)
  {
    SerializeAll(items) + if n.UntilBreak? then [BREAK] else []
  }

  lemma SerBodyCons(c: Cst, cs: seq<Cst>, n: Count)
    requires Wf(c) && WfAll(cs)
    ensures WfAll([c] + cs)
    ensures SerBody([c] + cs, n) == Serialize(c) + SerBody(cs, n)
    ensures SerBody(cs, n) == SerBody(cs, Less(n))
  {
    assert ([c] + cs)[1..] == cs;
    assert SerializeAll([c] + cs) == Serialize(c) + SerializeAll(cs);
  }

  predicate CountFits(items: seq<Cst>, n: Count, isMap: bool, odd: bool) {
    match n
    case Exactly(k) => |items| == k
    case UntilBreak => isMap ==> (|items| % 2 == 1 <==> odd)
  }

  lemma CountStep(c: Cst, cs: seq<Cst>, n: Count, isMap: bool, odd: bool)
    requires n != Exactly(0) && CountFits(cs, Less(n), isMap, !odd)
    ensures CountFits([c] + cs, n, isMap, odd)
  {
  }

  lemma CountRest(items: seq<Cst>, n: Count, isMap: bool, odd: bool)
    requires items != [] && CountFits(items, n, isMap, odd)
    ensures n != Exactly(0) && CountFits(items[1..], Less(n), isMap, !odd)
  {
  }

  /** The items `cs` and, if need be, a break, fill `s` from `p` to `q`. */
  predicate BodyAt(s: seq<byte>, p: nat, n: Count, isMap: bool, odd: bool, cs: seq<Cst>, q: nat) {
    WfAll(cs) && CountFits(cs, n, isMap, odd) && Sits(s, p, SerBody(cs, n)) && q == p + |SerBody(cs, n)|
  }

  lemma BodyAtCons(s: seq<byte>, p: nat, n: Count, isMap: bool, odd: bool, c: Cst, cs: seq<Cst>, q: nat)
    requires Wf(c) && Sits(s, p, Serialize(c)) && n != Exactly(0)
    requires BodyAt(s, p + |Serialize(c)|, Less(n), isMap, !odd, cs, q)
    ensures BodyAt(s, p, n, isMap, odd, [c] + cs, q)
  {
    CountStep(c, cs, n, isMap, odd);
    hide Sits, CountFits;
    SerBodyCons(c, cs, n);
    SitsConcat(s, p, Serialize(c), SerBody(cs, n));
  }

  lemma BodyAtNil(s: seq<byte>, p: nat, n: Count, isMap: bool, odd: bool)
    requires p <= |s|
    requires n == Exactly(0) || (n == UntilBreak && p < |s| && s[p] == BREAK && !(isMap && odd))
    ensures BodyAt(s, p, n, isMap, odd, [], if n == UntilBreak then p + 1 else p)
  {
    assert SerBody([], n) == if n == UntilBreak then [BREAK] else [];
  }

  lemma {:induction false} BodySound(s: seq<byte>, p: nat, n: Count, isMap: bool, odd: bool)
    requires p <= |s| && ParseBody(s, p, n, isMap, odd).Ok?
    ensures var Ok(cs, q) := ParseBody(s, p, n, isMap, odd); BodyAt(s, p, n, isMap, odd, cs, q)
    decreases |s| - p, 3
  {
    hide BodyAt, Sits;
    if n == Exactly(0) || (n == UntilBreak && p < |s| && s[p] == BREAK) {
      BodyAtNil(s, p, n, isMap, odd);
    } else {
      var Ok(c, q) := ParseItem(s, p);
      ParseSound(s, p);
      BodySound(s, q, Less(n), isMap, !odd);
      var Ok(cs, e) := ParseBody(s, q, Less(n), isMap, !odd);
      BodyAtCons(s, p, n, isMap, odd, c, cs, e);
    }
  }

  lemma BodyStep(s: seq<byte>, p: nat, n: Count, isMap: bool, odd: bool)
    requires p < |s| && s[p] != BREAK && n != Exactly(0) && ParseItem(s, p).Ok?
    ensures ParseBody(s, p, n, isMap, odd)
         == Cons(ParseItem(s, p).value, ParseBody(s, ParseItem(s, p).next, Less(n), isMap, !odd))
  {
  }

  /** The reader accepts every serialization, wherever it sits, and returns the tree it came from. */
  lemma {:induction false} ParseComplete(s: seq<byte>, p: nat, c: Cst)
    requires Wf(c) && Sits(s, p, Serialize(c))
    ensures ParseItem(s, p) == Ok(c, p + |Serialize(c)|)
    decreases c, 0
  {
    hide Sits, SerNum, ParseNum;
    match c
    case Integer(negative, num) => HeadComplete(s, p, if negative then 1 else 0, num);
    case Prim(num) => HeadComplete(s, p, 7, num);
    case Tag(num, item) =>
      SitsConcat(s, p, SerNum(6, num), Serialize(item));
      HeadComplete(s, p, 6, num);
      ParseComplete(s, p + |SerNum(6, num)|, item);
    case String(_, _, _) => StringComplete(s, p, c);
    case Container(_, _, _) => ContainerComplete(s, p, c);
  }

  lemma HeadComplete(s: seq<byte>, p: nat, major: nat, num: Num)
    requires major <= 7 && WfNum(num) && Sits(s, p, SerNum(major, num))
    ensures p < |s| && s[p] / 32 == major && ParseNum(s, p) == Ok(num, p + |SerNum(major, num)|)
  {
    hide Sits, ParseNum;
    NumComplete(s, p, major, num);
    HeadByte(s[p], major, num.ai);
  }

  lemma StringComplete(s: seq<byte>, p: nat, c: Cst)
    requires c.String? && Wf(c) && Sits(s, p, Serialize(c))
    ensures p < |s| && s[p] / 32 == StringMajor(c.text)
    ensures ParseString(s, p) == Ok(c, p + |Serialize(c)|)
  {
    var major := StringMajor(c.text);
    if c.indefinite {
      hide Sits;
      SerChunked(s, p, c.text, c.chunks);
      ChunksComplete(s, p + 1, major, c.chunks);
    } else {
      hide Sits;
      assert [c.chunks[0]] == c.chunks;
      SerOneChunk(c.text, c.chunks[0]);
      ChunkComplete(s, p, major, c.chunks[0]);
    }
  }

  lemma {:induction false} ContainerComplete(s: seq<byte>, p: nat, c: Cst)
    requires c.Container? && Wf(c) && Sits(s, p, Serialize(c))
    ensures p < |s| && s[p] / 32 == ContainerMajor(c.isMap)
    ensures ParseContainer(s, p) == Ok(c, p + |Serialize(c)|)
    decreases c.items, 2
  {
    hide Sits, SerNum;
    var major := ContainerMajor(c.isMap);
    match c.len
    case None =>
      SerContainer(s, p, c, [major * 32 + 31], UntilBreak);
      SitsAt(s, p, [major * 32 + 31]);
      HeadByte(s[p], major, 31);
      BodyComplete(s, p + 1, c.items, UntilBreak, c.isMap, false);
    case Some(num) =>
      var n := Exactly(|c.items|);
      SerContainer(s, p, c, SerNum(major, num), n);
      NumComplete(s, p, major, num);
      BodyComplete(s, p + |SerNum(major, num)|, c.items, n, c.isMap, false);
  }

  lemma BodyNone(s: seq<byte>, p: nat, n: Count, isMap: bool, odd: bool)
    requires CountFits([], n, isMap, odd) && Sits(s, p, SerBody([], n))
    ensures ParseBody(s, p, n, isMap, odd) == Ok([], p + |SerBody([], n)|)
  {
    if n == UntilBreak {
      SitsAt(s, p, [BREAK]);
    }
  }

  lemma {:induction false} BodyComplete(s: seq<byte>, p: nat, items: seq<Cst>, n: Count, isMap: bool, odd: bool)
    requires WfAll(items)
    requires CountFits(items, n, isMap, odd) && Sits(s, p, SerBody(items, n))
    ensures ParseBody(s, p, n, isMap, odd) == Ok(items, p + |SerBody(items, n)|)
    decreases items, 1
  {
    hide Sits, SerBody, CountFits;
    if items == [] {
      BodyNone(s, p, n, isMap, odd);
    } else {
      var c, rest := items[0], items[1..];
      CountRest(items, n, isMap, odd);
      SitsCons(s, p, items, n);
      ParseComplete(s, p, c);
      BodyComplete(s, p + |Serialize(c)|, rest, Less(n), isMap, !odd);
      BodyStep(s, p, n, isMap, odd);
      assert [c] + rest == items;
    }
  }

  lemma SitsCons(s: seq<byte>, p: nat, items: seq<Cst>, n: Count)
    requires WfAll(items) && items != [] && Sits(s, p, SerBody(items, n))
    ensures var c, rest := items[0], items[1..];
            && Sits(s, p, Serialize(c)) && s[p] != BREAK
            && WfAll(rest) && Sits(s, p + |Serialize(c)|, SerBody(rest, Less(n)))
            && |SerBody(items, n)| == |Serialize(c)| + |SerBody(rest, Less(n))|
  {
    hide Sits, SerBody;
    var c, rest := items[0], items[1..];
    assert items == [c] + rest;
    SerBodyCons(c, rest, n);
    SitsConcat(s, p, Serialize(c), SerBody(rest, n));
    SitsAt(s, p, Serialize(c));
  }

  /** The reader decides the grammar: it succeeds exactly on the buffers that start with an item. */
  ghost predicate StartsWithItem(s: seq<byte>, p: nat, c: Cst) {
    Wf(c) && Sits(s, p, Serialize(c))
  }

  lemma ParseExact(s: seq<byte>, p: nat)
    ensures ParseItem(s, p).Ok? <==> exists c :: StartsWithItem(s, p, c)
    ensures forall c :: StartsWithItem(s, p, c) <==> ParseItem(s, p) == Ok(c, p + if Wf(c) then |Serialize(c)| else 0)
  {
    if ParseItem(s, p).Ok? {
      ParseSound(s, p);
      assert StartsWithItem(s, p, ParseItem(s, p).value);
    }
    forall c | StartsWithItem(s, p, c)
      ensures ParseItem(s, p) == Ok(c, p + |Serialize(c)|)
    {
      ParseComplete(s, p, c);
    }
  }
}
