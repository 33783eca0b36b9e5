/**
 The encoder (src/tinycbor/cborencoder.c): one buffer, written through a cursor that turns into
 a count of missing bytes once the buffer is full, and one encoder object per open container.
 */
module Encoder {
  import opened Bytes
  import opened Errors
  import opened Syntax
  import opened Values

  const SIZE_MAX: int := TWO_64 - 1

  /** The union in the encoder: a write position, or how many bytes did not fit. */
  datatype Cursor = Writing(ptr: nat) | Short(needed: nat)

  class CborEncoder {
    const buf: array<byte>
    const nullBuffer: bool
    var cur: Cursor
    var remaining: nat
    var isMap: bool
    var unknownLength: bool
    /** Every byte emitted so far, whether or not it fitted. */
    ghost var out: seq<byte>

    ghost predicate Valid()
      reads this, buf
    {
      && remaining < TWO_64 && (nullBuffer ==> buf.Length == 0)
      && match cur
         case Writing(p) => p == |out| <= buf.Length && buf[..p] == out && !nullBuffer
         case Short(n) => |out| == buf.Length + n && (n == 0 ==> nullBuffer)
    }

    /** A null buffer is allowed: the run then only measures. */
    constructor (buffer: array?<byte>)
      ensures Valid() && out == [] && remaining == 2
      ensures nullBuffer == (buffer == null)
      ensures if buffer == null then buf.Length == 0 && fresh(buf) else buf == buffer
    {
      out, remaining, isMap, unknownLength := [], 2, false, false;
      nullBuffer := buffer == null;
      if buffer == null {
        buf := new byte[0];
        cur := Short(0);
      } else {
        buf := buffer;
        cur := Writing(0);
      }
    }

    /** A container's encoder starts where its parent stands. */
    constructor Inside(parent: CborEncoder, remaining: nat, isMap: bool, unknownLength: bool)
      requires parent.Valid() && remaining < TWO_64
      ensures Valid() && buf == parent.buf && out == parent.out && nullBuffer == parent.nullBuffer
      ensures this.remaining == remaining && this.isMap == isMap && this.unknownLength == unknownLength
    {
      buf, nullBuffer, cur, out := parent.buf, parent.nullBuffer, parent.cur, parent.out;
      this.remaining, this.isMap, this.unknownLength := remaining, isMap, unknownLength;
    }

    predicate WouldOverflow(len: nat)
      reads this
    {
      match cur
      case Writing(p) => buf.Length - p - len < 0
      case Short(n) => 0 - n - len < 0
    }

    method Append(data: seq<byte>) returns (err: CborError)
      requires Valid()
      modifies `cur, `out, buf
      ensures Valid() && out == old(out) + data
      ensures err == if |out| > buf.Length then OutOfMemory else NoError
    {
      out := out + data;
      if WouldOverflow(|data|) {
        cur := match cur
          case Writing(p) => Short(|data| - (buf.Length - p))
          case Short(n) => Short(n + |data|);
        return OutOfMemory;
      }
      if cur.Writing? {
        CopyInto(buf, cur.ptr, data);
        cur := Writing(cur.ptr + |data|);
      }
      return NoError;
    }

    method EncodeNumberNoUpdate(ui: nat, shiftedMajorType: byte) returns (err: CborError)
      requires Valid() && ui < TWO_64 && shiftedMajorType % 32 == 0
      modifies `cur, `out, buf
      ensures Valid() && out == old(out) + SerNum(shiftedMajorType / 32, MinNum(ui))
      ensures err == if |out| > buf.Length then OutOfMemory else NoError
    {
      var bytes := NumberBytes(ui, shiftedMajorType);
      err := Append(bytes);
    }

    method SaturatedDecrement()
      modifies `remaining
      ensures remaining == SatSub(old(remaining), 1)
    {
      if remaining != 0 {
        remaining := remaining - 1;
      }
    }

    method EncodeNumber(ui: nat, shiftedMajorType: byte) returns (err: CborError)
      requires Valid() && ui < TWO_64 && shiftedMajorType % 32 == 0
      modifies `cur, `out, `remaining, buf
      ensures Valid() && out == old(out) + SerNum(shiftedMajorType / 32, MinNum(ui))
      ensures err == if |out| > buf.Length then OutOfMemory else NoError
      ensures remaining == SatSub(old(remaining), 1)
    {
      SaturatedDecrement();
      err := EncodeNumberNoUpdate(ui, shiftedMajorType);
    }

    method EncodeUint(value: nat) returns (err: CborError)
      requires Valid() && value < TWO_64
      modifies `cur, `out, `remaining, buf
      ensures Valid() && out == old(out) + Encoding(Int(value))
      ensures err == if |out| > buf.Length then OutOfMemory else NoError
      ensures remaining == SatSub(old(remaining), 1)
    {
      err := EncodeNumber(value, 0x00);
    }

    /** An absolute value of zero wraps round and stands for -2^64. */
    method EncodeNegativeInt(absolute: nat) returns (err: CborError)
      requires Valid() && absolute < TWO_64
      modifies `cur, `out, `remaining, buf
      ensures Valid() && out == old(out) + Encoding(Int(if absolute == 0 then -TWO_64 else 0 - absolute))
      ensures err == if |out| > buf.Length then OutOfMemory else NoError
      ensures remaining == SatSub(old(remaining), 1)
    {
      NegativeHead(absolute);
      err := EncodeNumber((absolute - 1) % TWO_64, 0x20);
    }

    method EncodeInt(value: int) returns (err: CborError)
      requires Valid() && -0x8000_0000_0000_0000 <= value < 0x8000_0000_0000_0000
      modifies `cur, `out, `remaining, buf
      ensures Valid() && out == old(out) + Encoding(Int(value))
      ensures err == if |out| > buf.Length then OutOfMemory else NoError
      ensures remaining == SatSub(old(remaining), 1)
    {
      // The sign is spread over 64 bits; exclusive-or with it complements a negative value.
      var sign := if value < 0 then SIZE_MAX else 0;
      var majorType := if sign == 0 then 0x00 else 0x20;
      var ui := if sign == 0 then value else SIZE_MAX - (value + TWO_64);
      assert ui == if value < 0 then -1 - value else value;
      assert Encoding(Int(value)) == SerNum(if value < 0 then 1 else 0, MinNum(ui));
      err := EncodeNumber(ui, majorType);
    }

    method EncodeSimpleValue(value: byte) returns (err: CborError)
      requires Valid()
      modifies `cur, `out, `remaining, buf
      ensures Valid()
      ensures 25 <= value <= 31 ==> err == IllegalSimpleType && out == old(out) && remaining == old(remaining)
      ensures !(25 <= value <= 31) ==>
                && out == old(out) + SerNum(7, MinNum(value)) && remaining == SatSub(old(remaining), 1)
                && err == if |out| > buf.Length then OutOfMemory else NoError
    {
      if 25 <= value <= 31 {
        return IllegalSimpleType;
      }
      err := EncodeNumber(value, 0xe0);
    }

    method EncodeFloatingPoint(fpType: byte, bits: nat) returns (err: CborError)
      requires Valid() && 0xf9 <= fpType <= 0xfb && bits < Pow256(NumBytes(fpType - 0xe0))
      modifies `cur, `out, `remaining, buf
      ensures Valid() && out == old(out) + Encoding(Float(fpType - 0xe0, bits))
      ensures err == if |out| > buf.Length then OutOfMemory else NoError
      ensures remaining == SatSub(old(remaining), 1)
    {
      var size := if fpType == 0xf9 then 2 else if fpType == 0xfa then 4 else 8;
      SaturatedDecrement();
      err := Append([fpType] + ToBE(bits, size));
    }

    /** Tags do not count as items. */
    method EncodeTag(tag: nat) returns (err: CborError)
      requires Valid() && tag < TWO_64
      modifies `cur, `out, buf
      ensures Valid() && out == old(out) + SerNum(6, MinNum(tag))
      ensures err == if |out| > buf.Length then OutOfMemory else NoError
    {
      err := EncodeNumberNoUpdate(tag, 0xc0);
    }

    method EncodeString(text: bool, data: seq<byte>) returns (err: CborError)
      requires Valid() && |data| < TWO_64
      modifies `cur, `out, `remaining, buf
      ensures Valid() && out == old(out) + Encoding(Str(text, data))
      ensures err == if |out| > buf.Length then OutOfMemory else NoError
      ensures remaining == SatSub(old(remaining), 1)
    {
      SerOneChunk(text, Chunk(MinNum(|data|), data));
      err := EncodeNumber(|data|, StringMajor(text) * 32);
      err := Append(data);
    }

    /** `length` is the number of entries, or `SIZE_MAX` for an indefinite length. */
    method CreateContainer(length: nat, shiftedMajorType: byte) returns (container: CborEncoder, err: CborError)
      requires Valid() && length < TWO_64
      requires shiftedMajorType == 0x80 || (shiftedMajorType == 0xa0 && (length == SIZE_MAX || length <= SIZE_MAX / 2))
      modifies `remaining, buf
      ensures fresh(container) && container.Valid() && container.buf == buf && container.nullBuffer == nullBuffer
      ensures container.isMap == (shiftedMajorType == 0xa0) && container.unknownLength == (length == SIZE_MAX)
      ensures container.out == out + ContainerHead(container.isMap, length)
      ensures !container.unknownLength ==> container.remaining == Arity(container.isMap, length) + 1
      ensures err == if |container.out| > buf.Length then OutOfMemory else NoError
      ensures remaining == SatSub(old(remaining), 1)
    {
      var asMap := shiftedMajorType == 0xa0;
      container := new CborEncoder.Inside(this, (length + 1) % TWO_64, asMap, length == SIZE_MAX);
      SaturatedDecrement();
      if length == SIZE_MAX {
        err := container.Append([shiftedMajorType + 31]);
      } else {
        if asMap {
          container.remaining := container.remaining + length;
        }
        err := container.EncodeNumberNoUpdate(length, shiftedMajorType);
      }
    }

    method CreateMap(length: nat) returns (container: CborEncoder?, err: CborError)
      requires Valid() && length < TWO_64
      modifies `remaining, buf
      ensures container == null <==> length != SIZE_MAX && length > SIZE_MAX / 2
      ensures container == null ==> err == DataTooLarge && Valid() && out == old(out) && remaining == old(remaining)
      ensures container != null ==>
                && fresh(container) && container.Valid() && container.buf == buf
                && container.nullBuffer == nullBuffer && container.isMap
                && container.unknownLength == (length == SIZE_MAX)
                && container.out == out + ContainerHead(true, length)
                && (!container.unknownLength ==> container.remaining == 2 * length + 1)
                && err == (if |container.out| > buf.Length then OutOfMemory else NoError)
                && remaining == SatSub(old(remaining), 1)
    {
      if length != SIZE_MAX && length > SIZE_MAX / 2 {
        return null, DataTooLarge;
      }
      container, err := CreateContainer(length, 0xa0);
    }

    /** The parent takes over where the container's encoder stopped, whatever is returned. */
    method CloseContainer(container: CborEncoder) returns (err: CborError)
      requires container.Valid() && container.buf == buf && container.nullBuffer == nullBuffer
      requires container != this && remaining < TWO_64
      modifies `cur, `out, buf
      ensures Valid()
      ensures out == container.out + if container.unknownLength then [BREAK] else []
      ensures err == if !container.unknownLength && container.remaining == 0 then TooManyItems
                     else if !container.unknownLength && container.remaining != 1 then TooFewItems
                     else if cur.Short? then OutOfMemory else NoError
    {
      cur := container.cur;
      out := container.out;
      if container.unknownLength {
        err := Append([BREAK]);
        return;
      }
      if container.remaining != 1 {
        return if container.remaining == 0 then TooManyItems else TooFewItems;
      }
      if cur.Short? {
        return OutOfMemory;
      }
      return NoError;
    }

    /** What `cbor_encoder_get_extra_bytes_needed` reports. */
    function ExtraBytesNeeded(): (n: nat)
      reads this, buf
      requires Valid()
      ensures n == if |out| > buf.Length then |out| - buf.Length else 0
    {
      match cur
      case Writing(_) => 0
      case Short(n) => n
    }
  }

  lemma NegativeHead(absolute: nat)
    requires absolute < TWO_64
    ensures var n, ui := if absolute == 0 then -TWO_64 else 0 - absolute, (absolute - 1) % TWO_64;
            Encoding(Int(n)) == SerNum(1, MinNum(ui))
  {
    WrapRound(absolute);
    hide MinNum, SerNum;
  }

  lemma WrapRound(absolute: nat)
    requires absolute < TWO_64
    ensures (absolute - 1) % TWO_64 == if absolute == 0 then TWO_64 - 1 else absolute - 1
  {
  }

  function SatSub(a: nat, b: nat): nat {
    if a < b then 0 else a - b
  }

  function ContainerHead(isMap: bool, length: nat): seq<byte>
    requires length < TWO_64
  {
    var major := ContainerMajor(isMap);
    if length == SIZE_MAX then [major * 32 + 31] else SerNum(major, MinNum(length))
  }

  method NumberBytes(ui: nat, shiftedMajorType: byte) returns (bytes: seq<byte>)
    requires ui < TWO_64 && shiftedMajorType % 32 == 0
    ensures bytes == SerNum(shiftedMajorType / 32, MinNum(ui))
  {
    NumTail(ui);
    if ui < 24 {
      bytes := PutNumber(ToBE(ui, 8), 0, AddSmall(ui, shiftedMajorType));
    } else {
      var more := ExtraWidth(ui);
      bytes := PutNumber(ToBE(ui, 8), NumBytes(24 + more), AddSmall(24 + more, shiftedMajorType));
    }
  }

  lemma NumTail(ui: nat)
    requires ui < TWO_64
    ensures ui < Pow256(8)
    ensures ui >= 24 ==> ToBE(ui, 8)[8 - NumBytes(MinNum(ui).ai)..] == ToBE(ui, NumBytes(MinNum(ui).ai))
  {
    PowValues();
    if ui >= 24 {
      ToBETail(ui, NumBytes(MinNum(ui).ai), 8);
    }
  }

  /** Big-endian at the end of a 16-byte scratch buffer, then the head byte over what is in front. */
  method PutNumber(number: seq<byte>, width: nat, head: byte) returns (bytes: seq<byte>)
    requires |number| == 8 && width <= 8
    ensures bytes == [head] + number[8 - width..]
  {
    var scratch := new byte[16];
    CopyInto(scratch, 8, number);
    assert scratch[8..] == number;
    assert scratch[16 - width..] == number[8 - width..];
    scratch[15 - width] := head;
    bytes := scratch[15 - width..];
  }

  function AddSmall(small: byte, shiftedMajorType: byte): (b: byte)
    requires small < 32 && shiftedMajorType % 32 == 0
    ensures b == shiftedMajorType / 32 * 32 + small
  {
    small + shiftedMajorType
  }

  method ExtraWidth(ui: nat) returns (more: nat)
    requires 24 <= ui < TWO_64
    ensures MinNum(ui) == Num(24 + more, ui) && more <= 3
  {
    more := 0;
    if ui > 0xff { more := more + 1; }
    if ui > 0xffff { more := more + 1; }
    if ui > 0xffff_ffff { more := more + 1; }
  }

}
