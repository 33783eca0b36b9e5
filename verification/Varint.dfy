/**
 Varints (src/protobuf/varint.c) and the protobuf fields made of them (src/protobuf/protobuf.c):
 seven bits a byte, the least significant first, the high bit set on all bytes but the last.
 */
module Varints {
  import opened Bytes
  import opened Wrappers

  /** More bytes than this would shift a 64-bit word by more than its width. */
  const MAX_BYTES: nat := 10

  // ----- The format

  function Varint(n: nat): (s: seq<byte>)
    ensures |s| > 0
  {
    if n < 128 then [n] else [n % 128 + 128] + Varint(n / 128)
  }

  /** The number that groups of seven bits stand for. */
  function Groups(s: seq<byte>): nat {
    if s == [] then 0 else s[0] % 128 + 128 * Groups(s[1..])
  }

  function Pow128(k: nat): (r: nat)
    ensures r > 0
  {
    if k == 0 then 1 else 128 * Pow128(k - 1)
  }

  /** How many bytes the varint at the start of `s` has: up to the first byte below 128, if there is one in time. */
  function Length(s: seq<byte>, limit: nat): (r: Option<nat>)
    ensures r.Some? ==> 0 < r.value <= |s| && r.value <= limit
  {
    if s == [] || limit == 0 then None
    else if s[0] < 128 then Some(1)
    else
      match Length(s[1..], limit - 1)
      case None => None
      case Some(k) => Some(k + 1)
  }

  function ReadVarint(s: seq<byte>): Option<nat> {
    Length(s, MAX_BYTES)
  }

  function VarintValue(s: seq<byte>): (v: nat)
    requires ReadVarint(s).Some?
    ensures v < TWO_64
  {
    Groups(s[..ReadVarint(s).value]) % TWO_64
  }

  // ----- Reading undoes writing

  lemma {:induction false} GroupsVarint(n: nat)
    ensures Groups(Varint(n)) == n
  {
    if n >= 128 {
      GroupsVarint(n / 128);
      assert Varint(n)[1..] == Varint(n / 128);
    } else {
      assert Varint(n)[1..] == [];
    }
  }

  lemma {:induction false} LengthVarint(n: nat, rest: seq<byte>, limit: nat)
    requires |Varint(n)| <= limit
    ensures Length(Varint(n) + rest, limit) == Some(|Varint(n)|)
  {
    var s := Varint(n) + rest;
    if n >= 128 {
      assert Varint(n)[1..] == Varint(n / 128) && s[1..] == Varint(n / 128) + rest;
      LengthVarint(n / 128, rest, limit - 1);
    }
  }

  /** `varint_encoding_length`. */
  function EncodingLength(n: nat): nat {
    if n < 0x80 then 1
    else if n < 0x4000 then 2
    else if n < 0x20_0000 then 3
    else if n < 0x1000_0000 then 4
    else if n < 0x8_0000_0000 then 5
    else if n < 0x400_0000_0000 then 6
    else if n < 0x2_0000_0000_0000 then 7
    else if n < 0x100_0000_0000_0000 then 8
    else if n < 0x8000_0000_0000_0000 then 9
    else 10
  }

  lemma {:induction false} VarintLength(n: nat, k: nat)
    requires k > 0 && n < Pow128(k)
    ensures |Varint(n)| <= k && (k > 1 && n >= Pow128(k - 1) ==> |Varint(n)| == k)
  {
    if n >= 128 {
      VarintLength(n / 128, k - 1);
    } else if k > 1 {
      assert Pow128(k - 1) >= 128 by {
        assert Pow128(k - 1) == 128 * Pow128(k - 2);
      }
    }
  }

  lemma Pow128Values()
    ensures Pow128(1) == 0x80 && Pow128(2) == 0x4000 && Pow128(3) == 0x20_0000 && Pow128(4) == 0x1000_0000
    ensures Pow128(5) == 0x8_0000_0000 && Pow128(6) == 0x400_0000_0000 && Pow128(7) == 0x2_0000_0000_0000
    ensures Pow128(8) == 0x100_0000_0000_0000 && Pow128(9) == 0x8000_0000_0000_0000
    ensures Pow128(10) == 0x40_0000_0000_0000_0000
  {
    assert Pow128(0) == 1;
    assert Pow128(1) == 0x80;
    assert Pow128(2) == 0x4000;
    assert Pow128(3) == 0x20_0000;
    assert Pow128(4) == 0x1000_0000;
    assert Pow128(5) == 0x8_0000_0000;
    assert Pow128(6) == 0x400_0000_0000;
    assert Pow128(7) == 0x2_0000_0000_0000;
    assert Pow128(8) == 0x100_0000_0000_0000;
    assert Pow128(9) == 0x8000_0000_0000_0000;
  }

  lemma EncodingLengthRight(n: nat)
    requires n < TWO_64
    ensures |Varint(n)| == EncodingLength(n) <= MAX_BYTES
  {
    Pow128Values();
    VarintLength(n, EncodingLength(n));
  }

  /** Every 64-bit number, followed by anything, is read back from exactly its own bytes. */
  lemma VarintRoundTrip(n: nat, rest: seq<byte>)
    requires n < TWO_64
    ensures ReadVarint(Varint(n) + rest) == Some(EncodingLength(n)) && VarintValue(Varint(n) + rest) == n
  {
    EncodingLengthRight(n);
    LengthVarint(n, rest, MAX_BYTES);
    GroupsVarint(n);
    assert (Varint(n) + rest)[..|Varint(n)|] == Varint(n);
  }

  /** Every byte of every varint: seven bits, and the high bit on all bytes but the last. */
  lemma {:induction false} VarintByte(n: nat, j: nat)
    requires j < |Varint(n)|
    ensures Varint(n)[j] == n / Pow128(j) % 128 + if j + 1 < |Varint(n)| then 128 else 0
  {
    if n >= 128 {
      assert Varint(n)[1..] == Varint(n / 128);
      if j > 0 {
        VarintByte(n / 128, j - 1);
        Divide128(n, Pow128(j - 1));
      }
    }
  }

  lemma Divide128(n: nat, b: nat)
    requires b > 0
    ensures n / 128 / b == n / (128 * b)
  {
    var q, r, t := n / 128 / b, n / 128 % b, n % 128;
    assert n / 128 == b * q + r;
    assert n == (128 * b) * q + (128 * r + t);
    Quotient(n, 128 * b, q, 128 * r + t);
  }

  lemma Quotient(n: nat, d: nat, q: nat, r: nat)
    requires d > 0 && n == d * q + r && r < d
    ensures n / d == q
  {
    var p := n / d;
    assert n == d * p + n % d;
    Multiples(d, p, q);
    Multiples(d, q, p);
  }

  lemma Multiples(d: nat, a: nat, b: nat)
    ensures a < b ==> d * a + d <= d * b
  {
    if a < b {
      assert d * b == d * a + d * (b - a);
      assert d * (b - a) == d + d * (b - a - 1);
    }
  }

  // ----- The loops

  method VarintEncode(n: nat, buf: array<byte>, at: nat, len: nat) returns (bytes: nat)
    requires n < TWO_64 && at + len <= buf.Length && |Varint(n)| <= len
    modifies buf
    ensures bytes == |Varint(n)| && buf[at..at + bytes] == Varint(n) && buf[..at] == old(buf[..at])
  {
    var copy, i := n, 0;
    while copy >= 128
      invariant i + |Varint(copy)| == |Varint(n)|
      invariant buf[at..at + i] + Varint(copy) == Varint(n) && buf[..at] == old(buf[..at])
      decreases copy
    {
      ghost var done := buf[at..at + i];
      buf[at + i] := copy % 128 + 128;
      assert buf[at..at + i + 1] == done + [copy % 128 + 128];
      assert done + [copy % 128 + 128] + Varint(copy / 128) == done + Varint(copy);
      copy, i := copy / 128, i + 1;
    }
    ghost var done := buf[at..at + i];
    buf[at + i] := copy;
    assert buf[at..at + i + 1] == done + [copy];
    return i + 1;
  }

  /** Fails if the buffer ends first or the number has too many bytes. */
  method VarintDecode(buf: seq<byte>) returns (ok: bool, result: nat, bytes: nat)
    ensures ok <==> ReadVarint(buf).Some?
    ensures ok ==> bytes == ReadVarint(buf).value && result == VarintValue(buf)
  {
    result, bytes := 0, 0;
    var bits: nat := 1;
    assert buf[..0] == [] && buf[0..] == buf;
    while bytes < |buf| && bytes < MAX_BYTES && buf[bytes] >= 128
      invariant bytes <= |buf| && bytes <= MAX_BYTES
      invariant bits == Pow128(bytes) && result == Groups(buf[..bytes]) % TWO_64
      invariant ReadVarint(buf) == Plus(bytes, Length(buf[bytes..], MAX_BYTES - bytes))
    {
      AddGroup(buf, bytes);
      LengthStep(buf, bytes);
      result := (result + buf[bytes] as int % 128 * bits) % TWO_64;
      bits, bytes := bits * 128, bytes + 1;
    }
    if bytes == |buf| || bytes == MAX_BYTES {
      return false, 0, bytes;
    }
    AddGroup(buf, bytes);
    result := (result + buf[bytes] as int % 128 * bits) % TWO_64;
    return true, result, bytes + 1;
  }

  function Plus(n: nat, k: Option<nat>): Option<nat> {
    match k
    case None => None
    case Some(m) => Some(n + m)
  }

  lemma LengthStep(buf: seq<byte>, i: nat)
    requires i < |buf| && i < MAX_BYTES && buf[i] >= 128
    ensures Plus(i, Length(buf[i..], MAX_BYTES - i)) == Plus(i + 1, Length(buf[i + 1..], MAX_BYTES - i - 1))
  {
    assert buf[i..][1..] == buf[i + 1..];
  }

  lemma {:induction false} GroupsAppend(s: seq<byte>, b: byte)
    ensures Groups(s + [b]) == Groups(s) + b % 128 * Pow128(|s|)
  {
    if s == [] {
      assert s + [b] == [b] && [b][1..] == [];
    } else {
      GroupsAppend(s[1..], b);
      assert (s + [b])[1..] == s[1..] + [b];
      assert 128 * (b % 128 * Pow128(|s| - 1)) == b % 128 * Pow128(|s|);
    }
  }

  lemma AddGroup(buf: seq<byte>, i: nat)
    requires i < |buf|
    ensures (Groups(buf[..i]) % TWO_64 + buf[i] % 128 * Pow128(i)) % TWO_64 == Groups(buf[..i + 1]) % TWO_64
  {
    assert buf[..i + 1] == buf[..i] + [buf[i]];
    GroupsAppend(buf[..i], buf[i]);
    AddMod(Groups(buf[..i]), buf[i] % 128 * Pow128(i));
  }

  lemma AddMod(a: nat, b: nat)
    ensures (a % TWO_64 + b) % TWO_64 == (a + b) % TWO_64
  {
    var q := a / TWO_64;
    assert a + b == a % TWO_64 + b + q * TWO_64;
    Shift(a % TWO_64 + b, q);
  }

  lemma {:induction false} Shift(x: nat, q: nat)
    ensures (x + q * TWO_64) % TWO_64 == x % TWO_64
    decreases q
  {
    if q > 0 {
      Shift(x, q - 1);
      assert (x + q * TWO_64) % TWO_64 == (x + (q - 1) * TWO_64 + TWO_64) % TWO_64;
    }
  }

  // ----- Fields

  datatype Field = VarintField(no: nat, value: nat) | BytesField(no: nat, data: seq<byte>)

  /** The numbers and lengths are in the range of their C types. */
  predicate TypedField(f: Field) {
    0 < f.no < 0x2000_0000 && match f
    case VarintField(_, value) => value < TWO_64
    case BytesField(_, data) => |data| < TWO_64
  }

  /** The field number and the wire type, pushed together. */
  function FieldHead(f: Field): nat {
    f.no * 8 + if f.VarintField? then 0 else 2
  }

  function FieldBytes(f: Field): seq<byte> {
    Varint(FieldHead(f)) +
    match f
    case VarintField(_, value) => Varint(value)
    case BytesField(_, data) => Varint(|data|) + data
  }

  function FieldsBytes(fs: seq<Field>): seq<byte> {
    if fs == [] then [] else FieldBytes(fs[0]) + FieldsBytes(fs[1..])
  }

  /** `protobuf_encode_varint`. */
  method EncodeVarintField(no: nat, value: nat, buf: array<byte>, at: nat, len: nat) returns (bytes: nat)
    requires TypedField(VarintField(no, value)) && at + len <= buf.Length
    requires |FieldBytes(VarintField(no, value))| <= len
    modifies buf
    ensures bytes == |FieldBytes(VarintField(no, value))| && buf[at..at + bytes] == FieldBytes(VarintField(no, value))
    ensures buf[..at] == old(buf[..at])
  {
    var head := VarintEncode(no * 8, buf, at, len);
    ghost var front := buf[..at + head];
    var tail := VarintEncode(value, buf, at + head, len - head);
    bytes := head + tail;
    Joined(buf[..], front, at, head, bytes);
  }

  lemma Joined(s: seq<byte>, front: seq<byte>, at: nat, head: nat, bytes: nat)
    requires head <= bytes && at + bytes <= |s| && |front| == at + head && s[..at + head] == front
    ensures s[at..at + bytes] == front[at..] + s[at + head..at + bytes] && s[..at] == front[..at]
  {
  }

  /** `protobuf_encode_length_delimited`. */
  method EncodeBytesField(no: nat, data: seq<byte>, buf: array<byte>, at: nat, len: nat) returns (bytes: nat)
    requires TypedField(BytesField(no, data)) && at + len <= buf.Length
    requires |FieldBytes(BytesField(no, data))| <= len
    modifies buf
    ensures bytes == |FieldBytes(BytesField(no, data))| && buf[at..at + bytes] == FieldBytes(BytesField(no, data))
    ensures buf[..at] == old(buf[..at])
  {
    var head := VarintEncode(no * 8 + 2, buf, at, len);
    ghost var front := buf[..at + head];
    var tail := EncodeData(data, buf, at + head, len - head);
    bytes := head + tail;
    Joined(buf[..], front, at, head, bytes);
  }

  /** The length and the bytes. */
  method EncodeData(data: seq<byte>, buf: array<byte>, at: nat, len: nat) returns (bytes: nat)
    requires |data| < TWO_64 && at + len <= buf.Length && |Varint(|data|) + data| <= len
    modifies buf
    ensures bytes == |Varint(|data|) + data| && buf[at..at + bytes] == Varint(|data|) + data
    ensures buf[..at] == old(buf[..at])
  {
    var size := VarintEncode(|data|, buf, at, len);
    ghost var front := buf[..at + size];
    if |data| > 0 {
      CopyInto(buf, at + size, data);
    }
    bytes := size + |data|;
    Joined(buf[..], front, at, size, bytes);
  }

  /** A field starts with its number and, in the last three bits, its wire type: 0 for a number, 2 for bytes. */
  lemma FieldHeadIs(f: Field)
    requires TypedField(f)
    ensures ReadVarint(FieldBytes(f)).Some?
    ensures VarintValue(FieldBytes(f)) / 8 == f.no && VarintValue(FieldBytes(f)) % 8 == if f.VarintField? then 0 else 2
  {
    var head := FieldHead(f);
    var rest := FieldBytes(f)[|Varint(head)|..];
    assert FieldBytes(f) == Varint(head) + rest;
    VarintRoundTrip(head, rest);
  }
}
