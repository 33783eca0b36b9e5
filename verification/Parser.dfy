/**
 The pull parser (src/tinycbor/cborparser.c): an iterator that keeps the type, 16 bits of the
 number and some flags of the item it stands on, and is advanced in place.
 */
module Parser {
  import opened Bytes
  import opened Errors
  import opened Syntax
  import opened Places

  class CborValue {
    /** The buffer up to `parser->end`. */
    const data: seq<byte>
    var ptr: nat
    var remaining: nat
    var extra: nat
    var typ: byte
    // The bits of the flags field; bit 1 is shared by negative integers and chunk iteration.
    var tooLarge: bool
    var bit1: bool
    var unknownLength: bool
    var isMap: bool
    var key: bool

    /** The cached fields are those of the head at `ptr`. */
    ghost predicate Cached()
      reads this
    {
      && HeadOk(data, ptr)
      && typ == TypeAt(data, ptr) && extra == ExtraAt(data, ptr)
      && tooLarge == (26 <= data[ptr] % 32 <= 27)
      && bit1 == (data[ptr] / 32 == 1)
      && unknownLength == (data[ptr] % 32 == 31)
    }

    ghost predicate OnItem()
      reads this
    {
      Cached() && 0 < remaining <= UINT32_MAX && |data| < TWO_64
    }

    ghost predicate Is(pl: Place)
      reads this
    {
      match pl
      case Bad => false
      case End(p) => ptr == p <= |data| && remaining == 0 && typ == INVALID && |data| < TWO_64
      case At(p, r, k) => ptr == p && remaining == r && key == k && OnItem()
    }

    ghost function Where(): Place
      reads this
    {
      if remaining == 0 then End(ptr) else At(ptr, remaining, key)
    }

    constructor Copy(it: CborValue)
      ensures data == it.data && ptr == it.ptr && remaining == it.remaining && extra == it.extra && typ == it.typ
      ensures tooLarge == it.tooLarge && bit1 == it.bit1 && unknownLength == it.unknownLength
      ensures isMap == it.isMap && key == it.key
    {
      data, ptr, remaining, extra, typ := it.data, it.ptr, it.remaining, it.extra, it.typ;
      tooLarge, bit1, unknownLength := it.tooLarge, it.bit1, it.unknownLength;
      isMap, key := it.isMap, it.key;
    }

    method Assign(it: CborValue)
      requires data == it.data
      modifies this
      ensures ptr == it.ptr && remaining == it.remaining && extra == it.extra && typ == it.typ
      ensures tooLarge == it.tooLarge && bit1 == it.bit1 && unknownLength == it.unknownLength
      ensures isMap == it.isMap && key == it.key
    {
      ptr, remaining, extra, typ := it.ptr, it.remaining, it.extra, it.typ;
      tooLarge, bit1, unknownLength := it.tooLarge, it.bit1, it.unknownLength;
      isMap, key := it.isMap, it.key;
    }

    constructor Raw(data: seq<byte>)
      ensures this.data == data && ptr == 0 && remaining == 1 && !isMap && !key
    {
      this.data := data;
      ptr, remaining, extra, typ := 0, 1, 0, INVALID;
      tooLarge, bit1, unknownLength, isMap, key := false, false, false, false, false;
    }

    method PreparseValue() returns (err: CborError)
      requires ptr <= |data|
      modifies `typ, `extra, `tooLarge, `bit1, `unknownLength
      ensures err == NoError <==> HeadOk(data, ptr)
      ensures err == NoError ==> Cached()
      ensures err == UnexpectedEOF <==> Truncated(data, ptr)
      ensures err == UnexpectedBreak <==> ptr < |data| && data[ptr] == BREAK
    {
      typ := INVALID;
      if ptr == |data| {
        return UnexpectedEOF;
      }
      var descriptor := data[ptr];
      var t: byte := descriptor / 32 * 32;
      typ := t;
      tooLarge, bit1, unknownLength := false, false, false;
      descriptor := descriptor % 32;
      extra := descriptor;

      if descriptor > 27 {
        if descriptor != 31 {
          return if t == SIMPLE then UnknownType else IllegalNumber;
        }
        if !IsFixed(t) {
          unknownLength := true;
          typ := t;
          return NoError;
        }
        return if t == SIMPLE then UnexpectedBreak else IllegalNumber;
      }

      var bytesNeeded := NumBytes(descriptor);
      if bytesNeeded + 1 > |data| - ptr {
        return UnexpectedEOF;
      }
      OneByteArg(data, ptr);

      var majortype := t / 32;
      if majortype == 1 {
        bit1 := true;
        typ := INTEGER;
      } else if majortype == 7 {
        err := PreparseSimple(descriptor);
        return;
      }

      if descriptor < 24 {
        return NoError;
      }
      if descriptor == 24 {
        extra := data[ptr + 1];
      } else if descriptor == 25 {
        extra := FromBE(data[ptr + 1..ptr + 3]);
      } else {
        tooLarge := true;
      }
      return NoError;
    }

    /** The part of `PreparseValue` for major type 7. */
    method PreparseSimple(descriptor: byte) returns (err: CborError)
      requires ptr < |data| && data[ptr] == 0xe0 + descriptor && descriptor <= 27
      requires ptr + 1 + NumBytes(descriptor) <= |data|
      requires typ == SIMPLE && extra == descriptor && !tooLarge && !bit1 && !unknownLength
      modifies `typ, `extra, `tooLarge
      ensures err == if HeadOk(data, ptr) then NoError else IllegalSimpleType
      ensures err == NoError ==> Cached()
    {
      OneByteArg(data, ptr);
      if descriptor == 20 {
        extra := 0;
        typ := BOOLEAN;
      } else if descriptor == 26 || descriptor == 27 {
        tooLarge := true;
        typ := data[ptr];
      } else if descriptor == 21 || descriptor == 22 || descriptor == 23 || descriptor == 25 {
        typ := data[ptr];
      } else if descriptor == 24 {
        extra := data[ptr + 1];
        if extra < 32 {
          typ := INVALID;
          return IllegalSimpleType;
        }
      }
      return NoError;
    }

    method PreparseNextValueNoDecrement() returns (err: CborError)
      requires ptr <= |data| < TWO_64 && 0 < remaining <= UINT32_MAX
      modifies `ptr, `remaining, `typ, `extra, `tooLarge, `bit1, `unknownLength
      ensures var pl := old(Resume(data, ptr, remaining, isMap, key, typ == TAG));
              (err == NoError <==> pl != Bad) && (err == NoError ==> Is(pl))
    {
      if remaining == UINT32_MAX && ptr != |data| && data[ptr] == BREAK {
        if (isMap && key) || typ == TAG {
          return UnexpectedBreak;
        }
        ptr := ptr + 1;
        typ := INVALID;
        remaining := 0;
        return NoError;
      }
      err := PreparseValue();
    }

    /** Tags do not count as items. */
    method PreparseNextValue() returns (err: CborError)
      requires ptr <= |data| < TWO_64 && 0 < remaining <= UINT32_MAX
      modifies `ptr, `remaining, `typ, `extra, `tooLarge, `bit1, `unknownLength, `key
      ensures var pl := old(if typ == TAG then Resume(data, ptr, remaining, isMap, key, true)
                            else Next(data, ptr, remaining, isMap, key));
              (err == NoError <==> pl != Bad) && (err == NoError ==> Is(pl))
    {
      var itemCounts := typ != TAG;
      if remaining != UINT32_MAX {
        if itemCounts {
          remaining := remaining - 1;
          if remaining == 0 {
            typ := INVALID;
            return NoError;
          }
        }
      }
      if itemCounts {
        key := !key;
      }
      err := PreparseNextValueNoDecrement();
    }

    predicate IsString()
      reads this
    {
      typ == BYTE_STRING || typ == TEXT_STRING
    }

    predicate IsContainer()
      reads this
    {
      typ == ARRAY || typ == MAP
    }

    /** `cbor_parser_init` leaves the iterator on the first item of the buffer. */
    static method Init(data: seq<byte>) returns (it: CborValue, err: CborError)
      requires |data| < TWO_64
      ensures fresh(it) && it.data == data && !it.isMap
      ensures err == NoError <==> HeadOk(data, 0)
      ensures err == NoError ==> it.Is(At(0, 1, false))
    {
      it := new CborValue.Raw(data);
      err := it.PreparseValue();
    }

    // ----- Reading the number of the current item

    /** Both halves of `_cbor_value_extract_int64_helper`: the cache, or the bytes themselves. */
    method ExtractInt64() returns (v: nat)
      requires Cached() && data[ptr] % 32 != 31 && data[ptr] / 32 <= 6
      ensures v == ArgAt(data, ptr)
    {
      if !tooLarge {
        return extra;
      }
      v := DecodeInt64Internal();
    }

    method DecodeInt64Internal() returns (v: nat)
      requires Cached() && tooLarge
      ensures v == ArgAt(data, ptr)
    {
      assert data[ptr] % 32 == 26 || data[ptr] % 32 == 27;
      if data[ptr] % 2 == 0 {
        return FromBE(data[ptr + 1..ptr + 5]);
      }
      assert data[ptr] % 32 == 27;
      return FromBE(data[ptr + 1..ptr + 9]);
    }

    // ----- Advancing

    method ExtractNumber() returns (err: CborError, v: nat)
      requires ptr < |data|
      modifies `ptr
      ensures err == NoError <==> ParseNum(data, old(ptr)).Ok?
      ensures err == NoError ==> v == ParseNum(data, old(ptr)).value.arg && ptr == ParseNum(data, old(ptr)).next
    {
      var additional := data[ptr] % 32;
      ptr := ptr + 1;
      if additional < 24 {
        return NoError, additional;
      }
      if additional > 27 {
        return IllegalNumber, 0;
      }
      var bytesNeeded := NumBytes(additional);
      if bytesNeeded > |data| - ptr {
        return UnexpectedEOF, 0;
      }
      v := FromBE(data[ptr..ptr + bytesNeeded]);
      ptr := ptr + bytesNeeded;
      return NoError, v;
    }

    method AdvanceInternal() returns (err: CborError)
      requires OnItem() && IsFixed(typ)
      modifies `ptr, `remaining, `typ, `extra, `tooLarge, `bit1, `unknownLength, `key
      ensures var pl := old(StepFixed(data, ptr, remaining, isMap, key));
              (err == NoError <==> pl != Bad) && (err == NoError ==> Is(pl))
    {
      var length;
      err, length := ExtractNumber();
      assert err == NoError;
      err := PreparseNextValue();
    }

    method AdvanceFixed() returns (err: CborError)
      requires (OnItem() && IsFixed(typ)) || remaining == 0
      modifies `ptr, `remaining, `typ, `extra, `tooLarge, `bit1, `unknownLength, `key
      ensures old(remaining == 0) ==> err == AdvancePastEOF && ptr == old(ptr)
      ensures old(remaining != 0) ==>
                var pl := old(StepFixed(data, ptr, remaining, isMap, key));
                (err == NoError <==> pl != Bad) && (err == NoError ==> Is(pl))
    {
      if remaining == 0 {
        return AdvancePastEOF;
      }
      err := AdvanceInternal();
    }

    // ----- Containers

    method EnterContainer() returns (recursed: CborValue, err: CborError)
      requires OnItem() && IsContainer()
      ensures fresh(recursed) && recursed.data == data
      ensures err == NoError <==> Enter(data, ptr) != Bad
      ensures err == NoError ==> recursed.Is(Enter(data, ptr))
      ensures err == NoError && recursed.remaining != 0 ==> recursed.isMap == (typ == MAP)
    {
      EnterIs(data, ptr);
      HeadFacts(data, ptr);
      hide HeadOk, TypeAt, ExtraAt, Enter, Resume;
      recursed := new CborValue.Copy(this);
      if unknownLength {
        recursed.remaining := UINT32_MAX;
        recursed.ptr := recursed.ptr + 1;
      } else {
        var len;
        err, len := recursed.ExtractNumber();
        assert err == NoError;
        recursed.remaining := len % TWO_32;
        if recursed.remaining != len || len == UINT32_MAX {
          recursed.ptr := ptr;
          err := DataTooLarge;
          return;
        }
        if recursed.typ == MAP {
          if recursed.remaining > UINT32_MAX / 2 {
            recursed.ptr := ptr;
            err := DataTooLarge;
            return;
          }
          recursed.remaining := recursed.remaining * 2;
        }
        if len == 0 {
          recursed.typ := INVALID;
          err := NoError;
          return;
        }
      }
      recursed.tooLarge, recursed.bit1, recursed.unknownLength := false, false, false;
      recursed.isMap, recursed.key := recursed.typ == MAP, false;
      err := recursed.PreparseNextValueNoDecrement();
    }

    method LeaveContainer(recursed: CborValue) returns (err: CborError)
      requires IsContainer() && 0 < remaining <= UINT32_MAX && recursed != this
      requires recursed.typ == INVALID && recursed.ptr <= |data| < TWO_64
      modifies `ptr, `remaining, `typ, `extra, `tooLarge, `bit1, `unknownLength, `key
      ensures var pl := Next(data, recursed.ptr, old(remaining), isMap, old(key));
              (err == NoError <==> pl != Bad) && (err == NoError ==> Is(pl))
    {
      ptr := recursed.ptr;
      err := PreparseNextValue();
    }
  }

  /** Where entering leads, by the form of the length. */
  lemma EnterIs(s: seq<byte>, p: nat)
    requires HeadOk(s, p)
    ensures s[p] % 32 == 31 ==> Enter(s, p) == Resume(s, p + 1, UINT32_MAX, s[p] / 32 == 5, false, false)
    ensures s[p] % 32 != 31 ==>
              && ParseNum(s, p).Ok?
              && var Ok(num, h) := ParseNum(s, p);
                 && (num.arg >= UINT32_MAX ==> Enter(s, p) == Bad)
                 && (num.arg < UINT32_MAX && s[p] / 32 == 5 && num.arg > UINT32_MAX / 2 ==> Enter(s, p) == Bad)
                 && (num.arg == 0 ==> Enter(s, p) == End(h))
                 && (0 < num.arg < UINT32_MAX && s[p] / 32 != 5 ==>
                       Enter(s, p) == Resume(s, h, num.arg, false, false, false))
                 && (0 < num.arg <= UINT32_MAX / 2 && s[p] / 32 == 5 ==>
                       Enter(s, p) == Resume(s, h, 2 * num.arg, true, false, false))
  {
    hide Resume;
  }

  lemma HeadFacts(s: seq<byte>, p: nat)
    requires HeadOk(s, p)
    ensures TypeAt(s, p) == MAP <==> s[p] / 32 == 5
    ensures TypeAt(s, p) == TAG <==> s[p] / 32 == 6
  {
  }

  /** Bytes are missing from the head at `p`. */
  predicate Truncated(s: seq<byte>, p: nat) {
    p >= |s| || (s[p] % 32 <= 27 && p + 1 + NumBytes(s[p] % 32) > |s|)
  }

  /** The place after an item of fixed size; a tag is passed without counting. */
  function StepFixed(s: seq<byte>, p: nat, r: nat, isMap: bool, k: bool): Place
    requires HeadOk(s, p) && s[p] % 32 != 31
  {
    if s[p] / 32 == 6 then Resume(s, ParseNum(s, p).next, r, isMap, k, true)
    else Next(s, ParseNum(s, p).next, r, isMap, k)
  }

  lemma OneByteArg(s: seq<byte>, p: nat)
    ensures p + 1 < |s| && s[p] % 32 == 24 ==> ParseNum(s, p) == Ok(Num(24, s[p + 1]), p + 2)
  {
    if p + 1 < |s| && s[p] % 32 == 24 {
      assert s[p + 1..p + 2] == [s[p + 1]];
      assert FromBE([s[p + 1]]) == s[p + 1];
    }
  }

  lemma ContainerKind(it: CborValue)
    requires it.OnItem() && it.IsContainer()
    ensures 4 <= it.data[it.ptr] / 32 <= 5 && (it.typ == MAP <==> it.data[it.ptr] / 32 == 5)
  {
  }

  /** Integers, simple values and floats are their heads. */
  lemma ParseGood(s: seq<byte>, p: nat)
    requires HeadOk(s, p) && (s[p] / 32 <= 1 || s[p] / 32 == 7)
    ensures var Ok(num, h) := ParseNum(s, p);
            ParseItem(s, p) == Ok(if s[p] / 32 == 7 then Prim(num) else Integer(s[p] / 32 == 1, num), h)
  {
    OneByteArg(s, p);
  }

  /** The raw bits of a float: `cbor_value_get_half_float` and its siblings. */
  method FloatBits(it: CborValue) returns (bits: nat)
    requires it.OnItem() && HALF_FLOAT <= it.typ <= DOUBLE
    ensures bits == ParseNum(it.data, it.ptr).value.arg
  {
    if it.typ == HALF_FLOAT {
      bits := FromBE(it.data[it.ptr + 1..it.ptr + 3]);
    } else {
      bits := it.DecodeInt64Internal();
    }
  }

  lemma TypeOfString(it: CborValue)
    requires it.OnItem() && it.typ != TAG
    ensures it.typ == TEXT_STRING <==> it.data[it.ptr] / 32 == 3
    ensures ParseItem(it.data, it.ptr).Ok? ==>
              var c := ParseItem(it.data, it.ptr).value;
              it.typ == TEXT_STRING <==> c.String? && c.text
  {
  }
}
