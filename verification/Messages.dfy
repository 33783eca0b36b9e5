/**
 The wire formats built on CBOR: messages and hello messages (src/network/messages.c) and public
 keys (src/crypto/key.c). Each is an array of a few fields, encoded into a buffer that is a fixed
 number of bytes longer than the data.
 */
module Messages {
  import opened Bytes
  import opened Wrappers
  import opened Errors
  import opened Syntax
  import opened Values
  import opened Layouts
  import opened Encoder
  import opened Places
  import opened Parser
  import opened Records

  /** `type` and `data` with its length. */
  datatype Message = Message(typ: byte, data: seq<byte>)

  datatype Hello = Hello(peerId: seq<byte>, publicKey: seq<byte>)

  datatype PublicKey = PublicKey(typ: byte, data: seq<byte>)

  const INT64_MAX: int := 0x7fff_ffff_ffff_ffff
  // The sizes of the structures on an LP64 platform, and the slack of a public key's buffer.
  const MESSAGE_SLACK: nat := 24
  const HELLO_SLACK: nat := 32
  const KEY_SLACK: nat := 11

  // ----- Bytes of the formats

  function HeadSize(n: nat): nat {
    if n < 24 then 1 else if n <= 0xff then 2 else if n <= 0xffff then 3 else if n <= 0xffff_ffff then 5 else 9
  }

  function IntBytes(n: nat): (s: seq<byte>)
    requires n < TWO_64
    ensures |s| == HeadSize(n)
  {
    Encoding(Int(n))
  }

  function DataBytes(d: seq<byte>): (s: seq<byte>)
    requires |d| < TWO_64
    ensures |s| == HeadSize(|d|) + |d|
  {
    SerOneChunk(false, Chunk(MinNum(|d|), d));
    Encoding(Str(false, d))
  }

  function SimpleBytes(t: byte): (s: seq<byte>)
    ensures |s| == if t < 24 then 1 else 2
  {
    SerNum(7, MinNum(t))
  }

  function ArrayBytes(n: nat): (s: seq<byte>)
    requires n < 24
    ensures |s| == 1
  {
    ContainerHead(false, n)
  }

  function MessageBytes(m: Message): seq<byte>
    requires |m.data| < TWO_64
  {
    ArrayBytes(3) + SimpleBytes(m.typ) + IntBytes(|m.data|) + DataBytes(m.data)
  }

  function HelloBytes(h: Hello): seq<byte>
    requires |h.peerId| < TWO_64 && |h.publicKey| < TWO_64
  {
    ArrayBytes(4) + IntBytes(|h.peerId|) + IntBytes(|h.publicKey|) + DataBytes(h.peerId) + DataBytes(h.publicKey)
  }

  function KeyBytes(k: PublicKey): seq<byte>
    requires |k.data| < TWO_64
  {
    ArrayBytes(3) + SimpleBytes(k.typ) + DataBytes(k.data) + IntBytes(|k.data|)
  }

  // ----- Encoding

  /** An array's encoder with `left` items still to come, and what it has emitted. */
  ghost predicate Open(e: CborEncoder, left: nat, out: seq<byte>)
    reads e, e.buf
  {
    e.Valid() && !e.nullBuffer && !e.unknownLength && e.remaining == left + 1 && e.out == out
  }

  /** `cbor_encoder_init` and `cbor_encoder_create_array`. */
  method StartArray(size: nat, n: nat) returns (encoder: CborEncoder, inner: CborEncoder, ok: bool)
    requires n < 24
    ensures fresh(encoder) && fresh(inner) && fresh(encoder.buf) && encoder != inner
    ensures encoder.buf == inner.buf && encoder.buf.Length == size && !encoder.nullBuffer && encoder.remaining < TWO_64
    ensures Open(inner, n, ArrayBytes(n)) && ok == (1 <= size)
  {
    var buf := new byte[size];
    encoder := new CborEncoder(buf);
    var err;
    inner, err := encoder.CreateContainer(n, 0x80);
    ok := err == NoError;
    assert [] + ArrayBytes(n) == ArrayBytes(n);
  }

  method PutSimple(e: CborEncoder, t: byte, ghost left: nat, ghost out: seq<byte>) returns (ok: bool)
    requires left > 0 && Open(e, left, out)
    modifies e`cur, e`out, e`remaining, e.buf
    ensures !(25 <= t <= 31) ==> Open(e, left - 1, out + SimpleBytes(t))
    ensures ok <==> !(25 <= t <= 31) && |out + SimpleBytes(t)| <= e.buf.Length
  {
    var err := e.EncodeSimpleValue(t);
    ok := err == NoError;
  }

  method PutLength(e: CborEncoder, n: nat, ghost left: nat, ghost out: seq<byte>) returns (ok: bool)
    requires n <= INT64_MAX && left > 0 && Open(e, left, out)
    modifies e`cur, e`out, e`remaining, e.buf
    ensures Open(e, left - 1, out + IntBytes(n))
    ensures ok <==> |out + IntBytes(n)| <= e.buf.Length
  {
    var err := e.EncodeInt(n);
    ok := err == NoError;
  }

  method PutData(e: CborEncoder, d: seq<byte>, ghost left: nat, ghost out: seq<byte>) returns (ok: bool)
    requires |d| < TWO_64 && left > 0 && Open(e, left, out)
    modifies e`cur, e`out, e`remaining, e.buf
    ensures Open(e, left - 1, out + DataBytes(d))
    ensures ok <==> |out + DataBytes(d)| <= e.buf.Length
  {
    var err := e.EncodeString(false, d);
    ok := err == NoError;
  }

  /** `cbor_encoder_close_container` and `cbor_encoder_get_buffer_size`. */
  method FinishArray(encoder: CborEncoder, inner: CborEncoder, ghost out: seq<byte>) returns (r: Option<seq<byte>>)
    requires inner.buf == encoder.buf && encoder != inner && !encoder.nullBuffer && encoder.remaining < TWO_64
    requires Open(inner, 0, out) && |out| <= encoder.buf.Length
    modifies encoder`cur, encoder`out, encoder.buf
    ensures r == Some(out)
  {
    var err := encoder.CloseContainer(inner);
    assert out + [] == out;
    if err != NoError {
      return None;
    }
    var size := encoder.cur.ptr;
    return Some(encoder.buf[..size]);
  }

  /** Fails exactly on a type the encoder has no simple value for: the buffer is always large enough. */
  method EncodeMessage(m: Message) returns (r: Option<seq<byte>>)
    requires |m.data| <= INT64_MAX
    ensures r == if 25 <= m.typ <= 31 then None else Some(MessageBytes(m))
  {
    hide SimpleBytes, IntBytes, DataBytes, ArrayBytes, Open;
    ghost var a, t, n, d := ArrayBytes(3), SimpleBytes(m.typ), IntBytes(|m.data|), DataBytes(m.data);
    var encoder, inner, ok := StartArray(MESSAGE_SLACK + |m.data|, 3);
    if ok { ok := PutSimple(inner, m.typ, 3, a); }
    if ok { ok := PutLength(inner, |m.data|, 2, a + t); }
    if ok { ok := PutData(inner, m.data, 1, a + t + n); }
    r := None;
    if ok { r := FinishArray(encoder, inner, a + t + n + d); }
  }

  /** Fails exactly if both lengths need eight bytes. */
  method EncodeHello(h: Hello) returns (r: Option<seq<byte>>)
    requires |h.peerId| <= INT64_MAX && |h.publicKey| <= INT64_MAX
    ensures r == if |h.peerId| >= TWO_32 && |h.publicKey| >= TWO_32 then None else Some(HelloBytes(h))
  {
    hide SimpleBytes, IntBytes, DataBytes, ArrayBytes, Open;
    ghost var a, n, k := ArrayBytes(4), IntBytes(|h.peerId|), IntBytes(|h.publicKey|);
    ghost var d, e := DataBytes(h.peerId), DataBytes(h.publicKey);
    var encoder, inner, ok := StartArray(HELLO_SLACK + |h.peerId| + |h.publicKey|, 4);
    if ok { ok := PutLength(inner, |h.peerId|, 4, a); }
    if ok { ok := PutLength(inner, |h.publicKey|, 3, a + n); }
    if ok { ok := PutData(inner, h.peerId, 2, a + n + k); }
    if ok { ok := PutData(inner, h.publicKey, 1, a + n + k + d); }
    r := None;
    if ok { r := FinishArray(encoder, inner, a + n + k + d + e); }
  }

  /** Fails exactly on data longer than 65535 bytes and on types without a simple value. */
  method EncodeKey(k: PublicKey) returns (r: Option<seq<byte>>)
    requires |k.data| <= INT64_MAX
    ensures r == if |k.data| > 0xffff || 25 <= k.typ <= 31 then None else Some(KeyBytes(k))
  {
    hide SimpleBytes, IntBytes, DataBytes, ArrayBytes, Open;
    ghost var a, t, d, n := ArrayBytes(3), SimpleBytes(k.typ), DataBytes(k.data), IntBytes(|k.data|);
    var encoder, inner, ok := StartArray(|k.data| + KEY_SLACK, 3);
    if ok { ok := PutSimple(inner, k.typ, 3, a); }
    if ok { ok := PutData(inner, k.data, 2, a + t); }
    if ok { ok := PutLength(inner, |k.data|, 1, a + t + d); }
    r := None;
    if ok { r := FinishArray(encoder, inner, a + t + d + n); }
  }

  // ----- Decoding

  /** The message in an array of a simple value, an integer and a byte string in one piece. */
  function MessageIn(a: Parse<seq<Cst>>): Option<Message> {
    if a.Ok? && |a.value| == 3 && IsSimple(a.value[0]) && IsInteger(a.value[1]) && IsPlainBytes(a.value[2])
       && a.value[0].num.arg < 256
    then Some(Message(a.value[0].num.arg, Content(a.value[2].chunks)))
    else None
  }

  method DecodeMessage(data: seq<byte>) returns (r: Option<Message>)
    requires |data| < TWO_64
    ensures r == MessageIn(Record(data))
  {
    hide Record, InArray, Left, IsSimple, IsPlainBytes;
    ghost var c0, c1, c2;
    var ok, value, it := OpenArray(data);
    if !ok {
      return None;
    }
    var typ;
    ok, typ, c0 := TakeSimple(it);
    if !ok {
      return None;
    }
    ConsItems(c0, Left(it));
    var negative, raw;
    ok, negative, raw, c1 := TakeInteger(it);
    if !ok {
      return None;
    }
    ConsItems(c1, Left(it));
    var bytes;
    ok, bytes, c2 := TakePlainBytes(it);
    if !ok {
      return None;
    }
    ConsItems(c2, Left(it));
    ok := CloseArray(value, it);
    r := if ok then Some(Message(typ, bytes)) else None;
  }

  /** A length the decoder can make a buffer of. */
  predicate IsLength(c: Cst) {
    c.Integer? && !c.negative && c.num.arg <= INT64_MAX
  }

  /** The hello message in an array of two lengths and two byte strings that are not longer. */
  function HelloIn(a: Parse<seq<Cst>>): Option<Hello> {
    if a.Ok? && |a.value| == 4 && IsLength(a.value[0]) && IsLength(a.value[1])
       && IsBytes(a.value[2]) && |Content(a.value[2].chunks)| <= a.value[0].num.arg
       && IsBytes(a.value[3]) && |Content(a.value[3].chunks)| <= a.value[1].num.arg
    then Some(Hello(Content(a.value[2].chunks), Content(a.value[3].chunks)))
    else None
  }

  method TakeLength(it: CborValue) returns (ok: bool, n: nat, ghost c: Cst)
    requires InArray(it)
    modifies it`ptr, it`remaining, it`typ, it`extra, it`tooLarge, it`bit1, it`unknownLength, it`key
    ensures ok ==> InArray(it) && IsLength(c) && c.num.arg == n && old(Left(it)) == Cons(c, Left(it))
    ensures !ok ==> NoSuchItem(old(Left(it)), IsLength)
  {
    var negative;
    ok, negative, n, c := TakeInteger(it);
    if ok {
      ConsItems(c, Left(it));
    }
    ok := ok && !negative && n <= INT64_MAX;
  }

  method DecodeHello(data: seq<byte>) returns (r: Option<Hello>)
    requires |data| < TWO_64
    ensures r == HelloIn(Record(data))
  {
    hide Record, InArray, Left, IsLength, IsBytes;
    ghost var c0, c1, c2, c3;
    var ok, value, it := OpenArray(data);
    if !ok {
      return None;
    }
    var peerIdLen, publicKeyLen, peerId, publicKey;
    ok, peerIdLen, c0 := TakeLength(it);
    if !ok {
      return None;
    }
    ConsItems(c0, Left(it));
    ok, publicKeyLen, c1 := TakeLength(it);
    if !ok {
      return None;
    }
    ConsItems(c1, Left(it));
    ok, peerId, c2 := TakeBytes(it, peerIdLen);
    if !ok {
      return None;
    }
    ConsItems(c2, Left(it));
    ok, publicKey, c3 := TakeBytes(it, publicKeyLen);
    if !ok {
      return None;
    }
    ConsItems(c3, Left(it));
    ok := CloseArray(value, it);
    r := if ok then Some(Hello(peerId, publicKey)) else None;
  }

  /** The key in an array of a simple value, a byte string in one piece and an integer. */
  function KeyIn(a: Parse<seq<Cst>>): Option<PublicKey> {
    if a.Ok? && |a.value| == 3 && IsSimple(a.value[0]) && IsPlainBytes(a.value[1]) && IsInteger(a.value[2])
       && a.value[0].num.arg < 256
    then Some(PublicKey(a.value[0].num.arg, Content(a.value[1].chunks)))
    else None
  }

  method DecodeKey(data: seq<byte>) returns (r: Option<PublicKey>)
    requires |data| < TWO_64
    ensures r == KeyIn(Record(data))
  {
    hide Record, InArray, Left, IsSimple, IsPlainBytes;
    ghost var c0, c1, c2;
    var ok, value, it := OpenArray(data);
    if !ok {
      return None;
    }
    var typ;
    ok, typ, c0 := TakeSimple(it);
    if !ok {
      return None;
    }
    ConsItems(c0, Left(it));
    var bytes;
    ok, bytes, c1 := TakePlainBytes(it);
    if !ok {
      return None;
    }
    ConsItems(c1, Left(it));
    var negative, raw;
    ok, negative, raw, c2 := TakeInteger(it);
    if !ok {
      return None;
    }
    ConsItems(c2, Left(it));
    ok := CloseArray(value, it);
    r := if ok then Some(PublicKey(typ, bytes)) else None;
  }

  // ----- Round trips

  /** The array of these values, encoded, is read back as their canonical trees. */
  lemma RecordOf(vs: seq<Value>)
    requires |vs| < 24 && forall i | 0 <= i < |vs| :: Valid(vs[i])
    ensures Valid(Con(false, vs)) && Record(Encoding(Con(false, vs))) == Ok(CanonAll(vs), |Encoding(Con(false, vs))|)
  {
    var s := Encoding(Con(false, vs));
    assert Sits(s, 0, s);
    ParseEncoding(s, 0, Con(false, vs));
  }

  /** The encoding of an array is its head and the encodings of its items. */
  lemma EncodingOf(vs: seq<Value>)
    requires |vs| < 24 && forall i | 0 <= i < |vs| :: Valid(vs[i])
    ensures Valid(Con(false, vs)) && Encoding(Con(false, vs)) == ArrayBytes(|vs|) + EncodingAll(vs)
  {
    EncodingAllRight(vs);
    CanonWf(Con(false, vs));
  }

  function EncodingAll(vs: seq<Value>): seq<byte>
    requires forall i | 0 <= i < |vs| :: Valid(vs[i])
  {
    if vs == [] then [] else Encoding(vs[0]) + EncodingAll(vs[1..])
  }

  lemma {:induction false} EncodingAllRight(vs: seq<Value>)
    requires forall i | 0 <= i < |vs| :: Valid(vs[i])
    ensures WfAll(CanonAll(vs)) && SerializeAll(CanonAll(vs)) == EncodingAll(vs)
  {
    forall i | 0 <= i < |vs| { CanonWf(vs[i]); }
    if vs != [] {
      EncodingAllRight(vs[1..]);
      assert CanonAll(vs)[1..] == CanonAll(vs[1..]);
    }
  }

  lemma Three(vs: seq<Value>)
    requires |vs| == 3 && forall i | 0 <= i < |vs| :: Valid(vs[i])
    ensures Record(ArrayBytes(3) + Encoding(vs[0]) + Encoding(vs[1]) + Encoding(vs[2])).Ok?
    ensures Record(ArrayBytes(3) + Encoding(vs[0]) + Encoding(vs[1]) + Encoding(vs[2])).value ==
            [Canon(vs[0]), Canon(vs[1]), Canon(vs[2])]
  {
    RecordOf(vs);
    EncodingOf(vs);
    hide Encoding, ArrayBytes, Record;
    var a, x, y, z := ArrayBytes(3), Encoding(vs[0]), Encoding(vs[1]), Encoding(vs[2]);
    assert EncodingAll(vs[2..]) == z + [] == z;
    assert EncodingAll(vs[1..]) == y + z;
    assert EncodingAll(vs) == x + (y + z);
    assert a + (x + (y + z)) == a + x + y + z;
    assert CanonAll(vs) == [Canon(vs[0]), Canon(vs[1]), Canon(vs[2])];
  }

  lemma EncodingFour(vs: seq<Value>)
    requires |vs| == 4 && forall i | 0 <= i < |vs| :: Valid(vs[i])
    ensures EncodingAll(vs) == Encoding(vs[0]) + (Encoding(vs[1]) + (Encoding(vs[2]) + Encoding(vs[3])))
  {
    hide Encoding;
    assert EncodingAll(vs[3..]) == Encoding(vs[3]) + [] == Encoding(vs[3]);
    assert EncodingAll(vs[2..]) == Encoding(vs[2]) + Encoding(vs[3]) by {
      assert vs[2..][1..] == vs[3..];
    }
    assert EncodingAll(vs[1..]) == Encoding(vs[1]) + (Encoding(vs[2]) + Encoding(vs[3])) by {
      assert vs[1..][1..] == vs[2..];
    }
  }

  lemma FromLeft(a: seq<byte>, x: seq<byte>, y: seq<byte>, z: seq<byte>, u: seq<byte>)
    ensures a + (x + (y + (z + u))) == a + x + y + z + u
  {
  }

  lemma Four(vs: seq<Value>)
    requires |vs| == 4 && forall i | 0 <= i < |vs| :: Valid(vs[i])
    ensures Record(ArrayBytes(4) + Encoding(vs[0]) + Encoding(vs[1]) + Encoding(vs[2]) + Encoding(vs[3])).Ok?
    ensures Record(ArrayBytes(4) + Encoding(vs[0]) + Encoding(vs[1]) + Encoding(vs[2]) + Encoding(vs[3])).value ==
            [Canon(vs[0]), Canon(vs[1]), Canon(vs[2]), Canon(vs[3])]
  {
    RecordOf(vs);
    EncodingOf(vs);
    hide Encoding, ArrayBytes, Record;
    var a, x, y, z, u := ArrayBytes(4), Encoding(vs[0]), Encoding(vs[1]), Encoding(vs[2]), Encoding(vs[3]);
    EncodingFour(vs);
    FromLeft(a, x, y, z, u);
    assert CanonAll(vs) == [Canon(vs[0]), Canon(vs[1]), Canon(vs[2]), Canon(vs[3])];
  }

  lemma CanonContent(d: seq<byte>)
    requires |d| < TWO_64
    ensures Canon(Str(false, d)) == String(false, false, [Chunk(MinNum(|d|), d)])
    ensures Content([Chunk(MinNum(|d|), d)]) == d
  {
    assert Content([Chunk(MinNum(|d|), d)]) == d + Content([]);
  }

  /** The parser refuses a simple value 24 that the encoder writes. */
  lemma Simple24(s: seq<byte>)
    requires Sits(s, 0, ArrayBytes(3) + SimpleBytes(24))
    ensures Record(s).Fail?
  {
    var t := ArrayBytes(3) + SimpleBytes(24);
    assert s[0..|t|] == t && t[0] == 0x83 && t[1] == 0xf8;
    assert SimpleBytes(24) == [0xf8] + ToBE(24, 1);
    assert ToBE(24, 1) == ToBE(0, 0) + [24];
    assert s[1] == s[0..|t|][1] && s[2] == s[0..|t|][2] == 24;
    BadHead(s, 1);
    assert ParseNum(s, 0) == Ok(Num(3, 3), 1);
    assert ParseBody(s, 1, Exactly(3), false, false).Fail?;
    assert ParseItem(s, 0) == ParseContainer(s, 0) == Fail;
  }

  lemma Prefix24(s: seq<byte>, rest: seq<byte>)
    requires s == ArrayBytes(3) + SimpleBytes(24) + rest
    ensures Record(s).Fail?
  {
    hide Record, ArrayBytes, SimpleBytes;
    var t := ArrayBytes(3) + SimpleBytes(24);
    assert s[0..|t|] == t;
    Simple24(s);
  }

  function PlainString(d: seq<byte>): Cst
    requires |d| < TWO_64
  {
    String(false, false, [Chunk(MinNum(|d|), d)])
  }

  lemma MessageRecord(m: Message)
    requires |m.data| <= INT64_MAX && (m.typ < 24 || m.typ >= 32)
    ensures Record(MessageBytes(m)).Ok?
    ensures Record(MessageBytes(m)).value ==
            [Prim(MinNum(m.typ)), Integer(false, MinNum(|m.data|)), PlainString(m.data)]
  {
    hide Record, ArrayBytes, MinNum;
    Three([Simple(m.typ), Int(|m.data|), Str(false, m.data)]);
  }

  lemma MessageBack(m: Message)
    requires |m.data| <= INT64_MAX && !(25 <= m.typ <= 31)
    ensures MessageIn(Record(MessageBytes(m))) == if 20 <= m.typ <= 24 then None else Some(m)
  {
    if m.typ == 24 {
      Associative(ArrayBytes(3) + SimpleBytes(24), IntBytes(|m.data|), DataBytes(m.data));
      Prefix24(MessageBytes(m), IntBytes(|m.data|) + DataBytes(m.data));
    } else {
      MessageRecord(m);
      hide Record, MessageBytes;
      CanonContent(m.data);
    }
  }

  lemma HelloRecord(h: Hello)
    requires |h.peerId| <= INT64_MAX && |h.publicKey| <= INT64_MAX
    ensures Record(HelloBytes(h)).Ok?
    ensures Record(HelloBytes(h)).value ==
            [Integer(false, MinNum(|h.peerId|)), Integer(false, MinNum(|h.publicKey|)),
             PlainString(h.peerId), PlainString(h.publicKey)]
  {
    hide Record, ArrayBytes, MinNum;
    Four([Int(|h.peerId|), Int(|h.publicKey|), Str(false, h.peerId), Str(false, h.publicKey)]);
  }

  lemma HelloBack(h: Hello)
    requires |h.peerId| <= INT64_MAX && |h.publicKey| <= INT64_MAX
    ensures HelloIn(Record(HelloBytes(h))) == Some(h)
  {
    HelloRecord(h);
    hide Record, HelloBytes;
    CanonContent(h.peerId);
    CanonContent(h.publicKey);
  }

  lemma KeyRecord(k: PublicKey)
    requires |k.data| <= INT64_MAX && (k.typ < 24 || k.typ >= 32)
    ensures Record(KeyBytes(k)).Ok?
    ensures Record(KeyBytes(k)).value == [Prim(MinNum(k.typ)), PlainString(k.data), Integer(false, MinNum(|k.data|))]
  {
    hide Record, ArrayBytes, MinNum;
    Three([Simple(k.typ), Str(false, k.data), Int(|k.data|)]);
  }

  lemma KeyBack(k: PublicKey)
    requires |k.data| <= INT64_MAX && !(25 <= k.typ <= 31)
    ensures KeyIn(Record(KeyBytes(k))) == if 20 <= k.typ <= 24 then None else Some(k)
  {
    if k.typ == 24 {
      Associative(ArrayBytes(3) + SimpleBytes(24), DataBytes(k.data), IntBytes(|k.data|));
      Prefix24(KeyBytes(k), DataBytes(k.data) + IntBytes(|k.data|));
    } else {
      KeyRecord(k);
      hide Record, KeyBytes;
      CanonContent(k.data);
    }
  }

  /** A message survives exactly if its type is none of 20 to 31. */
  method MessageRoundTrip(m: Message) returns (back: Option<Message>)
    requires |m.data| <= INT64_MAX
    ensures back == if 20 <= m.typ <= 31 then None else Some(m)
  {
    var encoded := EncodeMessage(m);
    if encoded.None? {
      return None;
    }
    MessageBack(m);
    back := DecodeMessage(encoded.value);
  }

  /** A hello message survives exactly if one of its two parts is shorter than 2^32 bytes. */
  method HelloRoundTrip(h: Hello) returns (back: Option<Hello>)
    requires |h.peerId| <= INT64_MAX && |h.publicKey| <= INT64_MAX
    ensures back == if |h.peerId| >= TWO_32 && |h.publicKey| >= TWO_32 then None else Some(h)
  {
    HelloBack(h);
    var encoded := EncodeHello(h);
    if encoded.None? {
      return None;
    }
    back := DecodeHello(encoded.value);
  }

  /**
   A public key survives exactly if it has at most 65535 bytes and its type is none of 20 to 31; the
   declared types are 0 and 1.
   */
  method KeyRoundTrip(k: PublicKey) returns (back: Option<PublicKey>)
    requires |k.data| <= INT64_MAX
    ensures back == if |k.data| > 0xffff || 20 <= k.typ <= 31 then None else Some(k)
  {
    var encoded := EncodeKey(k);
    if encoded.None? {
      return None;
    }
    KeyBack(k);
    back := DecodeKey(encoded.value);
  }

  // ----- The bytes of the formats

  lemma PartsAre(t: byte, d: seq<byte>, n: nat)
    requires |d| < TWO_64 && n < TWO_64
    ensures SimpleBytes(t) == Head(7, t) && IntBytes(n) == Head(0, n) && DataBytes(d) == Head(2, |d|) + d
    ensures ArrayBytes(3) == [0x83] && ArrayBytes(4) == [0x84]
  {
    HeadIs(7, t);
    EncodingIs(Int(n));
    EncodingIs(Str(false, d));
    HeadIs(4, 3);
    HeadIs(4, 4);
  }

  /** A message is an array of three: simple value, length, bytes. */
  lemma MessageLayout(m: Message)
    requires |m.data| < TWO_64
    ensures MessageBytes(m) == [0x83] + Head(7, m.typ) + Head(0, |m.data|) + (Head(2, |m.data|) + m.data)
  {
    PartsAre(m.typ, m.data, |m.data|);
  }

  /** A hello message is an array of four: two lengths, two byte strings. */
  lemma HelloLayout(h: Hello)
    requires |h.peerId| < TWO_64 && |h.publicKey| < TWO_64
    ensures HelloBytes(h) ==
            [0x84] + Head(0, |h.peerId|) + Head(0, |h.publicKey|) + (Head(2, |h.peerId|) + h.peerId)
            + (Head(2, |h.publicKey|) + h.publicKey)
  {
    PartsAre(0, h.peerId, |h.peerId|);
    PartsAre(0, h.publicKey, |h.publicKey|);
  }

  /** A public key is an array of three: simple value, bytes, length. */
  lemma KeyLayout(k: PublicKey)
    requires |k.data| < TWO_64
    ensures KeyBytes(k) == [0x83] + Head(7, k.typ) + (Head(2, |k.data|) + k.data) + Head(0, |k.data|)
  {
    PartsAre(k.typ, k.data, |k.data|);
  }

  // ----- What the decoders accept, as values

  lemma ValuesOf(a: seq<Cst>)
    ensures forall i | 0 <= i < |a| :: ToValues(a)[i] == ToValue(a[i])
  {
  }

  /** A message: a simple value that is no truth value, null or undefined; an integer; bytes in one piece. */
  lemma MessageInIs(a: seq<Cst>, end: nat, m: Message)
    requires WfAll(a)
    ensures MessageIn(Ok(a, end)) == Some(m) <==>
            && (exists n :: ToValues(a) == [Simple(m.typ), Int(n), Str(false, m.data)])
            && (m.typ < 20 || m.typ >= 32) && a[2].String? && !a[2].indefinite
  {
    ValuesOf(a);
    if MessageIn(Ok(a, end)) == Some(m) {
      SimpleIs(a[0]);
      assert ToValues(a) == [Simple(m.typ), ToValue(a[1]), Str(false, m.data)];
    } else if n :| ToValues(a) == [Simple(m.typ), Int(n), Str(false, m.data)] {
      assert ToValue(a[0]) == Simple(m.typ) && ToValue(a[1]) == Int(n) && ToValue(a[2]) == Str(false, m.data);
      SimpleIs(a[0]);
    }
  }

  lemma SimpleIs(c: Cst)
    requires Wf(c)
    ensures IsSimple(c) <==> ToValue(c).Simple? && (ToValue(c).simple < 20 || ToValue(c).simple >= 32)
    ensures IsSimple(c) ==> ToValue(c) == Simple(c.num.arg) && c.num.arg < 256
  {
    PowValues();
  }

  /** A public key: a simple value, bytes in one piece, an integer. */
  lemma KeyInIs(a: seq<Cst>, end: nat, k: PublicKey)
    requires WfAll(a)
    ensures KeyIn(Ok(a, end)) == Some(k) <==>
            && (exists n :: ToValues(a) == [Simple(k.typ), Str(false, k.data), Int(n)])
            && (k.typ < 20 || k.typ >= 32) && a[1].String? && !a[1].indefinite
  {
    ValuesOf(a);
    if KeyIn(Ok(a, end)) == Some(k) {
      SimpleIs(a[0]);
      assert ToValues(a) == [Simple(k.typ), Str(false, k.data), ToValue(a[2])];
    } else if n :| ToValues(a) == [Simple(k.typ), Str(false, k.data), Int(n)] {
      assert ToValue(a[0]) == Simple(k.typ) && ToValue(a[1]) == Str(false, k.data) && ToValue(a[2]) == Int(n);
      SimpleIs(a[0]);
    }
  }

  /** A hello message: two lengths, and two byte strings, however chunked, that are not longer. */
  lemma HelloInIs(a: seq<Cst>, end: nat, h: Hello)
    requires WfAll(a)
    ensures HelloIn(Ok(a, end)) == Some(h) <==>
            exists m, n :: HelloValues(a, h, m, n)
  {
    ValuesOf(a);
    if HelloIn(Ok(a, end)) == Some(h) {
      assert ToValues(a) == [ToValue(a[0]), ToValue(a[1]), Str(false, h.peerId), Str(false, h.publicKey)];
      assert HelloValues(a, h, a[0].num.arg, a[1].num.arg);
    }
    if m, n :| HelloValues(a, h, m, n) {
      assert ToValue(a[0]) == Int(m) && ToValue(a[1]) == Int(n);
      assert ToValue(a[2]) == Str(false, h.peerId) && ToValue(a[3]) == Str(false, h.publicKey);
    }
  }

  predicate HelloValues(a: seq<Cst>, h: Hello, m: int, n: int) {
    && ToValues(a) == [Int(m), Int(n), Str(false, h.peerId), Str(false, h.publicKey)]
    && |h.peerId| <= m < 0x8000_0000_0000_0000 && |h.publicKey| <= n < 0x8000_0000_0000_0000
  }
}
