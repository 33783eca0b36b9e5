/**
 Content identifiers and their protobuf form (src/cid/cid.c): a version, a codec and a hash as
 fields 1, 2 and 3. The decoder takes fields in any order and keeps the last of each.
 */
module Cids {
  import opened Bytes
  import opened Wrappers
  import opened Syntax
  import opened Varints

  /** `version` and `codec` are C ints, though `ipfs_cid_new` and the decoder hold a codec in a char. */
  datatype Cid = Cid(version: int, codec: int, hash: seq<byte>)

  predicate IsInt(v: int) {
    -0x8000_0000 <= v < 0x8000_0000
  }

  /** What a signed C char can hold. */
  predicate IsChar(v: int) {
    -128 <= v < 128
  }

  predicate TypedCid(c: Cid) {
    IsInt(c.version) && IsInt(c.codec) && |c.hash| < TWO_64
  }

  /** A signed number as an unsigned 64-bit one. */
  function Widen(v: int): (n: nat)
    requires IsInt(v)
    ensures n < TWO_64
  {
    if v < 0 then v + TWO_64 else v
  }

  /** An unsigned number as a signed one of `span` values. */
  function Narrow(n: nat, span: nat): int
    requires span > 0
  {
    var m := n % span;
    if m >= span / 2 then m - span else m
  }

  /** An int comes back through an int, and through a char exactly if it is one. */
  lemma NarrowWiden(v: int)
    requires IsInt(v)
    ensures Narrow(Widen(v), TWO_32) == v
    ensures IsChar(Narrow(Widen(v), 256))
    ensures Narrow(Widen(v), 256) == v <==> IsChar(v)
  {
    if v < 0 {
      assert Widen(v) == (v + TWO_32) + (TWO_32 - 1) * TWO_32;
      assert Widen(v) % TWO_32 == v + TWO_32;
      assert -128 <= v ==> Widen(v) % 256 == v + 256;
    }
  }

  function CidFields(c: Cid): (fs: seq<Field>)
    requires TypedCid(c)
    ensures |fs| == 3 && forall i | 0 <= i < 3 :: TypedField(fs[i])
  {
    [VarintField(1, Widen(c.version)), VarintField(2, Widen(c.codec)), BytesField(3, c.hash)]
  }

  /** `ipfs_cid_protobuf_encode_size`. */
  function EncodeSize(c: Cid): nat {
    11 + 12 + |c.hash| + 11
  }

  lemma CidBytes(c: Cid)
    requires TypedCid(c)
    ensures var fs := CidFields(c);
            && FieldsBytes(fs) == FieldBytes(fs[0]) + FieldBytes(fs[1]) + FieldBytes(fs[2])
            && |FieldsBytes(fs)| <= EncodeSize(c)
  {
    var fs := CidFields(c);
    assert FieldsBytes(fs[2..]) == FieldBytes(fs[2]) + [] by {
      assert fs[2..][1..] == [];
    }
    assert FieldsBytes(fs[1..]) == FieldBytes(fs[1]) + FieldsBytes(fs[2..]) by {
      assert fs[1..][1..] == fs[2..];
    }
    FieldLength(fs[0]);
    FieldLength(fs[1]);
    FieldLength(fs[2]);
    hide FieldBytes;
    Joined3(FieldBytes(fs[0]), FieldBytes(fs[1]), FieldBytes(fs[2]));
  }

  lemma Joined3(x: seq<byte>, y: seq<byte>, z: seq<byte>)
    ensures x + (y + (z + [])) == x + y + z
  {
  }

  lemma FieldLength(f: Field)
    requires TypedField(f) && f.no < 16
    ensures |FieldBytes(f)| <= 11 + if f.BytesField? then |f.data| else 0
  {
    EncodingLengthRight(if f.VarintField? then f.value else |f.data|);
  }

  /** Writes the three fields into a buffer with room for them. */
  method CidEncode(c: Cid, buf: array<byte>) returns (bytesWritten: nat)
    requires TypedCid(c) && |FieldsBytes(CidFields(c))| <= buf.Length
    modifies buf
    ensures bytesWritten <= buf.Length && buf[..bytesWritten] == FieldsBytes(CidFields(c))
  {
    CidBytes(c);
    ghost var fs := CidFields(c);
    ghost var x, y, z := FieldBytes(fs[0]), FieldBytes(fs[1]), FieldBytes(fs[2]);
    hide FieldBytes;
    bytesWritten := EncodeVarintField(1, Widen(c.version), buf, 0, buf.Length);
    assert buf[..|x|] == buf[0..0 + |x|];
    var used := EncodeVarintField(2, Widen(c.codec), buf, bytesWritten, buf.Length - bytesWritten);
    FrontJoined(buf[..], x, y);
    bytesWritten := bytesWritten + used;
    used := EncodeBytesField(3, c.hash, buf, bytesWritten, buf.Length - bytesWritten);
    FrontJoined(buf[..], x + y, z);
    bytesWritten := bytesWritten + used;
  }

  lemma FrontJoined(s: seq<byte>, front: seq<byte>, more: seq<byte>)
    requires |front| + |more| <= |s| && s[..|front|] == front && s[|front|..|front| + |more|] == more
    ensures s[..|front| + |more|] == front + more
  {
  }

  // ----- Decoding

  /** What has been read so far; the hash has no initial value. */
  datatype Partial = Partial(version: int, codec: int, hash: Option<seq<byte>>)

  function Update(acc: Partial, f: Field): Partial {
    match f
    case VarintField(1, v) => acc.(version := Narrow(v, TWO_32))
    case VarintField(2, v) => acc.(codec := Narrow(v, 256))
    case BytesField(3, data) => acc.(hash := Some(data))
    case _ => acc
  }

  function UpdateAll(acc: Partial, fs: seq<Field>): Partial
    decreases |fs|
  {
    if fs == [] then acc else UpdateAll(Update(acc, fs[0]), fs[1..])
  }

  /** The field a buffer starts with. The decoder skips the number of an unknown field, but not its value. */
  function TakeField(s: seq<byte>): (r: Parse<Option<Field>>)
    ensures r.Ok? ==> 0 < r.next <= |s|
  {
    if ReadVarint(s).None? then Fail else
    var k, no := ReadVarint(s).value, VarintValue(s) / 8 % TWO_32;
    var rest := s[k..];
    if no != 1 && no != 2 && no != 3 then Ok(None, k)
    else if ReadVarint(rest).None? then Fail
    else
      var j, v := ReadVarint(rest).value, VarintValue(rest);
      if no != 3 then Ok(Some(VarintField(no, v)), k + j)
      else if v > |rest| - j then Fail
      else Ok(Some(BytesField(3, rest[j..j + v])), k + j + v)
  }

  function DecodeFrom(s: seq<byte>, acc: Partial): Option<Partial>
    decreases |s|
  {
    if s == [] then Some(acc)
    else
      match TakeField(s)
      case Fail => None
      case Ok(f, k) => DecodeFrom(s[k..], if f.Some? then Update(acc, f.value) else acc)
  }

  method CidDecodeField(s: seq<byte>, acc: Partial) returns (ok: bool, acc': Partial, bytesRead: nat)
    ensures ok <==> TakeField(s).Ok?
    ensures ok ==> var Ok(f, k) := TakeField(s); bytesRead == k && acc' == if f.Some? then Update(acc, f.value) else acc
  {
    acc' := acc;
    var head, value, more;
    ok, head, bytesRead := VarintDecode(s);
    if !ok {
      return;
    }
    var no := head / 8 % TWO_32;
    if no == 1 || no == 2 {
      ok, value, more := VarintDecode(s[bytesRead..]);
      if ok {
        acc' := if no == 1 then acc.(version := Narrow(value, TWO_32)) else acc.(codec := Narrow(value, 256));
        bytesRead := bytesRead + more;
      }
    } else if no == 3 {
      ok, value, more := VarintDecode(s[bytesRead..]);
      if ok {
        var rest := s[bytesRead..];
        ok := value <= |rest| - more;
        if ok {
          acc' := acc.(hash := Some(rest[more..more + value]));
          bytesRead := bytesRead + more + value;
        }
      }
    }
  }

  datatype Decoded = NoCid | Failed | Decoded(cid: Cid)

  function Finished(acc: Option<Partial>): Decoded {
    match acc
    case Some(Partial(version, codec, Some(hash))) => Decoded(Cid(version, codec, hash))
    case _ => Failed
  }

  method CidDecode(s: seq<byte>) returns (r: Decoded)
    ensures r == if s == [] then NoCid else Finished(DecodeFrom(s, Partial(0, 0, None)))
  {
    if s == [] {
      return NoCid;
    }
    hide TakeField, Update, Goes, Finished;
    var pos, acc := 0, Partial(0, 0, None);
    GoesAtStart(s);
    while pos < |s|
      invariant pos <= |s| && Goes(s, pos, acc)
    {
      var ok, bytesRead;
      GoesOn(s, pos, acc);
      ok, acc, bytesRead := CidDecodeField(s[pos..], acc);
      if !ok {
        return Failed;
      }
      pos := pos + bytesRead;
    }
    GoesToEnd(s, acc);
    r := Finished(Some(acc));
  }

  /** Decoding from `pos` with what has been read so far comes to the same as decoding it all. */
  ghost predicate Goes(s: seq<byte>, pos: nat, acc: Partial) {
    pos <= |s| && DecodeFrom(s[pos..], acc) == DecodeFrom(s, Partial(0, 0, None))
  }

  lemma GoesAtStart(s: seq<byte>)
    ensures Goes(s, 0, Partial(0, 0, None))
  {
    assert s[0..] == s;
  }

  lemma GoesOn(s: seq<byte>, pos: nat, acc: Partial)
    requires pos < |s| && Goes(s, pos, acc)
    ensures TakeField(s[pos..]).Fail? ==> DecodeFrom(s, Partial(0, 0, None)) == None
    ensures TakeField(s[pos..]).Ok? ==>
              var Ok(f, k) := TakeField(s[pos..]);
              Goes(s, pos + k, if f.Some? then Update(acc, f.value) else acc)
  {
    hide TakeField, Update;
    if TakeField(s[pos..]).Ok? {
      assert s[pos..][TakeField(s[pos..]).next..] == s[pos + TakeField(s[pos..]).next..];
    }
  }

  lemma GoesToEnd(s: seq<byte>, acc: Partial)
    requires Goes(s, |s|, acc)
    ensures DecodeFrom(s, Partial(0, 0, None)) == Some(acc)
  {
    assert s[|s|..] == [];
  }

  // ----- Round trips

  /** A field the decoder knows. */
  predicate KnownField(f: Field) {
    TypedField(f) && if f.VarintField? then f.no == 1 || f.no == 2 else f.no == 3
  }

  lemma TakeFieldBytes(f: Field, rest: seq<byte>)
    requires KnownField(f)
    ensures TakeField(FieldBytes(f) + rest) == Ok(Some(f), |FieldBytes(f)|)
  {
    match f
    case VarintField(no, v) =>
      Associative(Varint(FieldHead(f)), Varint(v), rest);
      WireTypeIgnored(no, 0, v, rest);
    case BytesField(_, data) => TakeBytes(data, rest);
  }

  lemma TakeBytes(data: seq<byte>, rest: seq<byte>)
    requires |data| < TWO_64
    ensures var f := BytesField(3, data);
            TakeField(FieldBytes(f) + rest) == Ok(Some(f), |FieldBytes(f)|)
  {
    var n, tail := |data|, data + rest;
    var s := FieldBytes(BytesField(3, data)) + rest;
    assert s == Varint(26) + (Varint(n) + tail);
    VarintRoundTrip(26, Varint(n) + tail);
    EncodingLengthRight(26);
    assert s[|Varint(26)|..] == Varint(n) + tail;
    VarintRoundTrip(n, tail);
    EncodingLengthRight(n);
    hide FieldBytes;
    assert (Varint(n) + tail)[|Varint(n)|..|Varint(n)| + n] == data;
  }

  /** Any fields, in any order and repeated: the decoder keeps the last of each. */
  lemma {:induction false} DecodeFields(fs: seq<Field>, acc: Partial)
    requires forall i | 0 <= i < |fs| :: KnownField(fs[i])
    ensures DecodeFrom(FieldsBytes(fs), acc) == Some(UpdateAll(acc, fs))
    decreases |fs|
  {
    if fs != [] {
      var rest := FieldsBytes(fs[1..]);
      var s := FieldBytes(fs[0]) + rest;
      TakeFieldBytes(fs[0], rest);
      assert s[|FieldBytes(fs[0])|..] == rest;
      DecodeFields(fs[1..], Update(acc, fs[0]));
    }
  }

  /**
   An identifier comes back with its codec cut to a char: so it survives exactly if its codec is one,
   negative versions and codecs included.
   */
  method CidRoundTrip(c: Cid) returns (r: Decoded)
    requires TypedCid(c) && c.hash != []
    ensures r == Decoded(c.(codec := Narrow(Widen(c.codec), 256)))
    ensures r == Decoded(c) <==> IsChar(c.codec)
  {
    CidBytes(c);
    var buf := new byte[EncodeSize(c)];
    var n := CidEncode(c, buf);
    DecodeFields(CidFields(c), Partial(0, 0, None));
    CidSummary(c);
    NarrowWiden(c.codec);
    r := CidDecode(buf[..n]);
  }

  /** Whatever `ipfs_cid_new` makes has a char for a codec, and so survives. */
  method NewCidRoundTrip(version: int, hash: seq<byte>, codec: int) returns (r: Decoded)
    requires IsInt(version) && IsChar(codec) && hash != [] && |hash| < TWO_64
    ensures r == Decoded(Cid(version, codec, hash))
  {
    r := CidRoundTrip(Cid(version, codec, hash));
  }

  /** The codec 0x90 of an Ethereum block does not survive: it comes back as -112. */
  lemma EthereumBlock()
    ensures Narrow(Widen(0x90), 256) == -112
  {
  }

  lemma CidSummary(c: Cid)
    requires TypedCid(c)
    ensures UpdateAll(Partial(0, 0, None), CidFields(c)) ==
            Partial(c.version, Narrow(Widen(c.codec), 256), Some(c.hash))
  {
    var fs, acc := CidFields(c), Partial(0, 0, None);
    NarrowWiden(c.version);
    assert fs[1..][1..] == fs[2..] && fs[2..][1..] == [];
    var one := Update(acc, fs[0]);
    var two := Update(one, fs[1]);
    assert UpdateAll(acc, fs) == UpdateAll(one, fs[1..]);
    assert UpdateAll(one, fs[1..]) == UpdateAll(two, fs[2..]);
    assert UpdateAll(two, fs[2..]) == UpdateAll(Update(two, fs[2]), []);
  }

  /** Of fields that come more than once, the last one counts. */
  lemma {:induction false} LastWins(acc: Partial, fs: seq<Field>, v: nat, data: seq<byte>)
    ensures UpdateAll(acc, fs + [VarintField(1, v)]) == UpdateAll(acc, fs).(version := Narrow(v, 0x1_0000_0000))
    ensures UpdateAll(acc, fs + [VarintField(2, v)]) == UpdateAll(acc, fs).(codec := Narrow(v, 0x100))
    ensures UpdateAll(acc, fs + [BytesField(3, data)]) == UpdateAll(acc, fs).(hash := Some(data))
  {
    UpdateLast(acc, fs, VarintField(1, v));
    UpdateLast(acc, fs, VarintField(2, v));
    UpdateLast(acc, fs, BytesField(3, data));
  }

  lemma {:induction false} UpdateLast(acc: Partial, fs: seq<Field>, f: Field)
    ensures UpdateAll(acc, fs + [f]) == Update(UpdateAll(acc, fs), f)
    decreases |fs|
  {
    if fs == [] {
      assert fs + [f] == [f] && [f][1..] == [];
    } else {
      UpdateLast(Update(acc, fs[0]), fs[1..], f);
      assert (fs + [f])[1..] == fs[1..] + [f];
    }
  }

  // ----- The bytes of an identifier

  /** Field 1 is a number, field 2 is a number, field 3 is bytes. */
  lemma CidLayout(c: Cid)
    requires TypedCid(c)
    ensures FieldsBytes(CidFields(c)) ==
            [0x08] + Varint(Widen(c.version)) + ([0x10] + Varint(Widen(c.codec)))
            + ([0x1a] + (Varint(|c.hash|) + c.hash))
  {
    CidBytes(c);
    assert Varint(0x08) == [0x08] && Varint(0x10) == [0x10] && Varint(0x1a) == [0x1a];
  }

  lemma CidSmall(c: Cid)
    requires 0 <= c.version < 128 && 0 <= c.codec < 128 && |c.hash| < 128
    ensures TypedCid(c) && FieldsBytes(CidFields(c)) == [0x08, c.version, 0x10, c.codec, 0x1a, |c.hash|] + c.hash
  {
    CidLayout(c);
  }

  /** The decoder goes by the field number alone: the wire type is ignored, */
  lemma WireTypeIgnored(no: nat, wire: nat, value: nat, rest: seq<byte>)
    requires (no == 1 || no == 2) && wire < 8 && value < TWO_64
    ensures TakeField(Varint(no * 8 + wire) + (Varint(value) + rest)) ==
            Ok(Some(VarintField(no, value)), |Varint(no * 8 + wire)| + |Varint(value)|)
  {
    var head := no * 8 + wire;
    var s := Varint(head) + (Varint(value) + rest);
    VarintRoundTrip(head, Varint(value) + rest);
    EncodingLengthRight(head);
    assert s[|Varint(head)|..] == Varint(value) + rest;
    VarintRoundTrip(value, rest);
    EncodingLengthRight(value);
  }

  /** and of an unknown field only the head is passed, so its value is taken for the next head. */
  lemma UnknownField(head: nat, rest: seq<byte>)
    requires head < TWO_64 && head / 8 % TWO_32 != 1 && head / 8 % TWO_32 != 2 && head / 8 % TWO_32 != 3
    ensures TakeField(Varint(head) + rest) == Ok(None, |Varint(head)|)
  {
    VarintRoundTrip(head, rest);
    EncodingLengthRight(head);
  }
}
