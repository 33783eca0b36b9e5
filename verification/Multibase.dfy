/**
 The base32 path of multibase (src/multibase/multibase.c) and the wrappers it calls
 (src/encoding/base32.c): a text carries one leading byte that names its base.
 */
module Multibase {
  import opened Bytes
  import opened Base32
  import opened Base32Codec
  import opened Base32Stream

  const BASE16: byte := 'f' as int
  const BASE32: byte := 'b' as int
  const BASE64: byte := 'm' as int

  /** The size functions; the source multiplies as a double. */
  function EncodeSize(n: nat): (size: nat)
    ensures size == 8 * n / 5 + 9
  {
    FloorOf(n);
    (n as real * 1.6).Floor + 8 + 1
  }

  lemma FloorOf(n: nat)
    ensures (n as real * 1.6).Floor == 8 * n / 5
  {
    var q, r := 8 * n / 5, 8 * n % 5;
    assert 8 * n == 5 * q + r;
    assert (8 * n) as real == 5.0 * q as real + r as real;
    assert n as real * 1.6 == (8 * n) as real / 5.0;
  }

  function DecodeSize(n: nat): nat {
    5 * (n / 8) + 5
  }

  lemma CodeCharNonZero(g: seq<byte>, j: nat)
    requires |g| >= 1 && j < 8
    ensures CodeChar(g, j) != 0
  {
  }

  lemma InLastGroup(n: nat, q: nat)
    requires q < (n + 4) / 5 * 8
    ensures 5 * (q / 8) < n && 8 * (q / 8) + q % 8 == q
  {
  }

  lemma EncodeNonZero(b: seq<byte>, q: nat)
    requires q < |Encode(b)|
    ensures Encode(b)[q] != 0
  {
    var k, j := q / 8, q % 8;
    InLastGroup(|b|, q);
    EncodeGroupAt(b, k, j);
    CodeCharRight(b, 5 * k, j);
    CodeCharNonZero(b[5 * k..], j);
  }

  method StrLen(s: array<byte>) returns (n: nat)
    requires exists q | 0 <= q < s.Length :: s[q] == 0
    ensures n < s.Length && s[n] == 0 && forall q | 0 <= q < n :: s[q] != 0
  {
    n := 0;
    while s[n] != 0
      invariant n < s.Length && forall q | 0 <= q < n :: s[q] != 0
      decreases s.Length - n
    {
      n := n + 1;
    }
  }

  /** `libp2p_encoding_base32_encode`: the length of the text, or of the buffer if that is not longer. */
  method EncodeZeroed(incoming: seq<byte>, results: array<byte>) returns (length: nat)
    requires results.Length > 0
    modifies results
    ensures length == Min(|Encode(incoming)|, results.Length) && results[..length] == Encode(incoming)[..length]
  {
    forall q | 0 <= q < results.Length {
      results[q] := 0;
    }
    Base32Encode(incoming, results);
    forall q | 0 <= q < |Encode(incoming)|
      ensures Encode(incoming)[q] != 0
    {
      EncodeNonZero(incoming, q);
    }
    length := results.Length;
    ghost var n := |Encode(incoming)|;
    assert results[length - 1] == 0 <==> n < length;
    if results[length - 1] == 0 {
      assert results[n] == 0;
      length := StrLen(results);
      assert length == n;
    }
  }

  /** `memmove` by one: the text moves up over itself. */
  method MoveUp(results: array<byte>, length: nat)
    requires length < results.Length
    modifies results
    ensures results[1..length + 1] == old(results[..length])
  {
    forall q | 1 <= q <= length {
      results[q] := results[q - 1];
    }
  }

  /** Fails exactly if the base is unknown, or the text and its prefix do not fit. */
  method MultibaseEncode(base: byte, incoming: seq<byte>, results: array<byte>) returns (ok: bool, length: nat)
    requires results.Length > 0 && base != BASE16 && base != BASE64
    modifies results
    ensures ok <==> base == BASE32 && |Encode(incoming)| + 1 <= results.Length
    ensures ok ==> length <= results.Length && results[..length] == [base] + Encode(incoming)
  {
    if base != BASE32 {
      return false, results.Length;
    }
    length := EncodeZeroed(incoming, results);
    if length >= results.Length {
      return false, length;
    }
    MoveUp(results, length);
    results[0] := base;
    length := length + 1;
    assert results[..length] == [base] + results[1..length];
    return true, length;
  }

  /** Succeeds exactly on the prefix and a base32 text; a short buffer takes what it can. */
  method MultibaseDecode(incoming: seq<byte>, results: array<byte>) returns (ok: bool, length: nat)
    requires incoming != [] && incoming[0] != BASE16 && incoming[0] != BASE64
    modifies results
    ensures ok <==> incoming[0] == BASE32 && Decode(incoming[1..]).Some?
    ensures ok ==> Holds(results, length, Decode(incoming[1..]).value)
  {
    if incoming[0] != BASE32 {
      return false, results.Length;
    }
    ok, length := DecodeWhole(incoming[1..], results);
  }

  /** With buffers of the sizes the size functions give, decoding always undoes encoding. */
  method MultibaseRoundTrip(incoming: seq<byte>) returns (text: seq<byte>, back: seq<byte>)
    ensures text == ['b' as int] + Encode(incoming)
    ensures back == incoming
  {
    var results := new byte[EncodeSize(|incoming|)];
    var ok, length := MultibaseEncode(BASE32, incoming, results);
    text := results[..length];
    assert text[1..] == Encode(incoming);
    RoundTrip(incoming);
    var decoded := new byte[DecodeSize(|text|)];
    ok, length := MultibaseDecode(text, decoded);
    back := decoded[..length];
  }
}
