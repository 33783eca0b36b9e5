/**
 The well-formedness check of appendix C of RFC 7049, on bytes alone: it returns the major type of
 the item, -1 for a break, or 0 for an item of indefinite length, and where the item ends. It knows
 no trees; the grammar of `Syntax` accepts exactly what it accepts and ends where it ends.
 */
module WellFormedness {
  import opened Bytes
  import opened Syntax

  /** How many bytes follow the initial byte. */
  function Width(ai: nat): nat {
    match ai
    case 24 => 1
    case 25 => 2
    case 26 => 4
    case 27 => 8
    case _ => 0
  }

  /** The `k` bytes from `p` on as an unsigned number in network byte order. */
  function Unsigned(s: seq<byte>, p: nat, k: nat): nat
    requires p + k <= |s|
  {
    if k == 0 then 0 else Unsigned(s, p, k - 1) * 256 + s[p + k - 1]
  }

  /** Two-byte simple values below 32 are ill-formed, as section 2.3 has it. */
  function WellFormed(s: seq<byte>, p: nat, breakable: bool): (r: Parse<int>)
    ensures r.Ok? ==> p < r.next <= |s|
    decreases |s| - p, 1
  {
    if p >= |s| then Fail else
    var mt, ai := s[p] as int / 32, s[p] % 32;
    if ai == 31 then Indefinite(s, p + 1, mt, breakable)
    else if ai > 27 || p + 1 + Width(ai) > |s| then Fail
    else
      var h := p + 1 + Width(ai);
      var val := if ai < 24 then ai as nat else Unsigned(s, p + 1, Width(ai));
      if mt == 2 || mt == 3 then if h + val <= |s| then Ok(mt, h + val) else Fail
      else if mt == 4 then Items(s, h, val, mt)
      else if mt == 5 then Items(s, h, val * 2, mt)
      else if mt == 6 then Items(s, h, 1, mt)
      else if mt == 7 && ai == 24 && val < 32 then Fail
      else Ok(mt, h)
  }

  function Items(s: seq<byte>, p: nat, n: nat, mt: int): (r: Parse<int>)
    requires p <= |s|
    ensures r.Ok? ==> p <= r.next <= |s|
    decreases |s| - p, 2
  {
    if n == 0 then Ok(mt, p)
    else
      match WellFormed(s, p, false)
      case Fail => Fail
      case Ok(_, q) => Items(s, q, n - 1, mt)
  }

  function Indefinite(s: seq<byte>, p: nat, mt: int, breakable: bool): (r: Parse<int>)
    requires p <= |s|
    ensures r.Ok? ==> p <= r.next <= |s|
    decreases |s| - p, 3
  {
    match mt
    case 2 => Chunks(s, p, 2)
    case 3 => Chunks(s, p, 3)
    case 4 => ArrayItems(s, p)
    case 5 => MapItems(s, p)
    case 7 => if breakable then Ok(-1, p) else Fail
    case _ => Fail
  }

  /** Chunks must be strings of the same type and of a definite length. */
  function Chunks(s: seq<byte>, p: nat, mt: int): (r: Parse<int>)
    requires p <= |s|
    ensures r.Ok? ==> p <= r.next <= |s|
    decreases |s| - p, 2
  {
    match WellFormed(s, p, true)
    case Fail => Fail
    case Ok(it, q) => if it == -1 then Ok(0, q) else if it != mt then Fail else Chunks(s, q, mt)
  }

  function ArrayItems(s: seq<byte>, p: nat): (r: Parse<int>)
    requires p <= |s|
    ensures r.Ok? ==> p <= r.next <= |s|
    decreases |s| - p, 2
  {
    match WellFormed(s, p, true)
    case Fail => Fail
    case Ok(it, q) => if it == -1 then Ok(0, q) else ArrayItems(s, q)
  }

  /** A break may come in place of a key, not of a value. */
  function MapItems(s: seq<byte>, p: nat): (r: Parse<int>)
    requires p <= |s|
    ensures r.Ok? ==> p <= r.next <= |s|
    decreases |s| - p, 2
  {
    match WellFormed(s, p, true)
    case Fail => Fail
    case Ok(it, q) =>
      if it == -1 then Ok(0, q)
      else
        match WellFormed(s, q, false)
        case Fail => Fail
        case Ok(_, e) => MapItems(s, e)
  }

  // ----- The grammar agrees

  /** One accepts if the other does, and they end at the same byte. */
  predicate Same<T>(r: Parse<T>, w: Parse<int>) {
    (r.Ok? <==> w.Ok?) && (r.Ok? ==> r.next == w.next)
  }

  lemma {:induction false} UnsignedIs(s: seq<byte>, p: nat, k: nat)
    requires p + k <= |s|
    ensures Unsigned(s, p, k) == FromBE(s[p..p + k])
  {
    if k > 0 {
      UnsignedIs(s, p, k - 1);
      assert s[p..p + k][..k - 1] == s[p..p + k - 1];
    }
  }

  /** The number after a legal initial byte. */
  lemma NumIs(s: seq<byte>, p: nat)
    requires p < |s|
    ensures var ai := s[p] % 32;
            && (ParseNum(s, p).Ok? <==> ai <= 27 && p + 1 + Width(ai) <= |s|)
            && (ParseNum(s, p).Ok? ==>
                  && ParseNum(s, p).next == p + 1 + Width(ai) && ParseNum(s, p).value.ai == ai
                  && ParseNum(s, p).value.arg == if ai < 24 then ai as nat else Unsigned(s, p + 1, Width(ai)))
  {
    var ai := s[p] % 32;
    if 24 <= ai <= 27 && p + 1 + Width(ai) <= |s| {
      UnsignedIs(s, p + 1, Width(ai));
    }
  }

  /** The check and the grammar accept the same bytes and end at the same place. */
  lemma {:induction false} AppendixC(s: seq<byte>, p: nat)
    ensures Same(ParseItem(s, p), WellFormed(s, p, false))
    ensures ParseItem(s, p).Ok? ==> WellFormed(s, p, false).value == if s[p] % 32 == 31 then 0 else s[p] / 32
    ensures WellFormed(s, p, true) == if p < |s| && s[p] == 0xff then Ok(-1, p + 1) else WellFormed(s, p, false)
    decreases |s| - p, 1
  {
    if p < |s| {
      var major := s[p] / 32;
      NumIs(s, p);
      if s[p] % 32 == 31 {
        if major == 2 || major == 3 {
          ChunksSame(s, p + 1, major);
        } else if major == 4 {
          ArraySame(s, p + 1);
        } else if major == 5 {
          MapSame(s, p + 1);
        }
      } else if ParseNum(s, p).Ok? {
        var Ok(num, h) := ParseNum(s, p);
        if major == 4 || major == 5 {
          ItemsSame(s, h, Arity(major == 5, num.arg), major == 5, false, major);
        } else if major == 6 {
          AppendixC(s, h);
          OneItem(s, h, 6);
        }
      }
    }
  }

  lemma OneItem(s: seq<byte>, p: nat, mt: int)
    requires p <= |s|
    ensures WellFormed(s, p, false).Fail? ==> Items(s, p, 1, mt) == Fail
    ensures WellFormed(s, p, false).Ok? ==> Items(s, p, 1, mt) == Ok(mt, WellFormed(s, p, false).next)
  {
    if WellFormed(s, p, false).Ok? {
      assert Items(s, WellFormed(s, p, false).next, 0, mt) == Ok(mt, WellFormed(s, p, false).next);
    }
  }

  lemma {:induction false} ItemsSame(s: seq<byte>, p: nat, n: nat, isMap: bool, odd: bool, mt: int)
    requires p <= |s|
    ensures Same(ParseBody(s, p, Exactly(n), isMap, odd), Items(s, p, n, mt))
    ensures Items(s, p, n, mt).Ok? ==> Items(s, p, n, mt).value == mt
    decreases |s| - p, 2
  {
    if n > 0 {
      AppendixC(s, p);
      if ParseItem(s, p).Ok? {
        ItemsSame(s, ParseItem(s, p).next, n - 1, isMap, !odd, mt);
      }
    }
  }

  lemma {:induction false} ChunksSame(s: seq<byte>, p: nat, major: nat)
    requires p <= |s| && 2 <= major <= 3
    ensures Same(ParseChunks(s, p, major), Chunks(s, p, major))
    ensures Chunks(s, p, major).Ok? ==> Chunks(s, p, major).value == 0
    decreases |s| - p, 2
  {
    AppendixC(s, p);
    if p < |s| && s[p] != 0xff {
      ChunkSame(s, p, major);
      if ParseChunk(s, p, major).Ok? {
        ChunksSame(s, ParseChunk(s, p, major).next, major);
      }
    }
  }

  /** A chunk is an item of the string's major type and of a definite length. */
  lemma ChunkSame(s: seq<byte>, p: nat, major: nat)
    requires p < |s| && 2 <= major <= 3
    ensures ParseChunk(s, p, major).Ok? <==> ParseItem(s, p).Ok? && s[p] / 32 == major && s[p] % 32 != 31
    ensures ParseChunk(s, p, major).Ok? ==> ParseChunk(s, p, major).next == ParseItem(s, p).next
  {
  }

  lemma {:induction false} ArraySame(s: seq<byte>, p: nat)
    requires p <= |s|
    ensures Same(ParseBody(s, p, UntilBreak, false, false), ArrayItems(s, p))
    ensures Same(ParseBody(s, p, UntilBreak, false, true), ArrayItems(s, p))
    ensures ArrayItems(s, p).Ok? ==> ArrayItems(s, p).value == 0
    decreases |s| - p, 2
  {
    AppendixC(s, p);
    if p < |s| && s[p] != 0xff && ParseItem(s, p).Ok? {
      ArraySame(s, ParseItem(s, p).next);
    }
  }

  lemma {:induction false} MapSame(s: seq<byte>, p: nat)
    requires p <= |s|
    ensures Same(ParseBody(s, p, UntilBreak, true, false), MapItems(s, p))
    ensures MapItems(s, p).Ok? ==> MapItems(s, p).value == 0
    decreases |s| - p, 2
  {
    AppendixC(s, p);
    if p < |s| && s[p] != 0xff && ParseItem(s, p).Ok? {
      var q := ParseItem(s, p).next;
      AppendixC(s, q);
      if q < |s| && s[q] != 0xff && ParseItem(s, q).Ok? {
        MapSame(s, ParseItem(s, q).next);
      }
    }
  }
}
