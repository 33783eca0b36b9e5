/**
 Where an iterator can stand in a buffer, and where the next step takes it. An iterator inside a
 container stands on an item, with a count of items left (2^32 - 1 when the length is not known)
 and the parity of items passed; or at the end of the container.
 */
module Places {
  import opened Bytes
  import opened Wrappers
  import opened Syntax

  const UINT32_MAX: int := 0xffff_ffff

  const INTEGER: byte := 0x00
  const BYTE_STRING: byte := 0x40
  const TEXT_STRING: byte := 0x60
  const ARRAY: byte := 0x80
  const MAP: byte := 0xa0
  const TAG: byte := 0xc0
  const SIMPLE: byte := 0xe0
  const BOOLEAN: byte := 0xf5
  const NULL: byte := 0xf6
  const UNDEFINED: byte := 0xf7
  const HALF_FLOAT: byte := 0xf9
  const FLOAT: byte := 0xfa
  const DOUBLE: byte := 0xfb
  const INVALID: byte := 0xff

  predicate IsFixed(t: byte) {
    t != TEXT_STRING && t != BYTE_STRING && t != ARRAY && t != MAP
  }

  // ----- What a head at a position means to the iterator

  /** The head at `p` is complete and legal on its own. */
  predicate HeadOk(s: seq<byte>, p: nat) {
    p < |s| &&
    var major, ai := s[p] / 32, s[p] % 32;
    if ai == 31 then 2 <= major <= 5
    else ai <= 27 && p + 1 + NumBytes(ai) <= |s| && (major == 7 && ai == 24 ==> s[p + 1] >= 32)
  }

  function TypeAt(s: seq<byte>, p: nat): byte
    requires HeadOk(s, p)
  {
    var major, ai := s[p] / 32, s[p] % 32;
    if major <= 1 then INTEGER
    else if major < 7 || ai < 20 || ai == 24 then 32 * major
    else if ai == 20 then BOOLEAN
    else s[p]
  }

  function ArgAt(s: seq<byte>, p: nat): nat
    requires HeadOk(s, p) && s[p] % 32 != 31
  {
    ParseNum(s, p).value.arg
  }

  /** The 16 bits the iterator keeps of the number. */
  function ExtraAt(s: seq<byte>, p: nat): nat
    requires HeadOk(s, p)
  {
    var major, ai := s[p] / 32, s[p] % 32;
    if ai == 31 || ai >= 26 || (major == 7 && ai == 25) then ai
    else if major == 7 && ai == 20 then 0
    else ArgAt(s, p)
  }

  // ----- Steps

  datatype Place = Bad | End(p: nat) | At(p: nat, r: nat, k: bool)

  /** Standing before `q` with `r` items to come: step onto the next item, or over the break. */
  function Resume(s: seq<byte>, q: nat, r: nat, isMap: bool, k: bool, afterTag: bool): Place {
    if r == UINT32_MAX && q < |s| && s[q] == BREAK then
      if (isMap && k) || afterTag then Bad else End(q + 1)
    else if HeadOk(s, q) then At(q, r, k)
    else Bad
  }

  /** The place after an item that ends at `q`. */
  function Next(s: seq<byte>, q: nat, r: nat, isMap: bool, k: bool): Place {
    if r == 1 then End(q)
    else Resume(s, q, if r == UINT32_MAX || r == 0 then r else r - 1, isMap, !k, false)
  }

  /** The iterator counts to 2^32 - 2 and, in a map, pairs to 2^31 - 1. */
  predicate LenFits(isMap: bool, len: Option<Num>) {
    len.Some? ==> len.value.arg < UINT32_MAX && (isMap ==> len.value.arg <= UINT32_MAX / 2)
  }

  /** The first place inside the container at `p`. */
  function Enter(s: seq<byte>, p: nat): Place
    requires HeadOk(s, p)
  {
    var isMap := s[p] / 32 == 5;
    if s[p] % 32 == 31 then Resume(s, p + 1, UINT32_MAX, isMap, false, false)
    else
      var Ok(num, h) := ParseNum(s, p);
      if !LenFits(isMap, Some(num)) then Bad
      else if num.arg == 0 then End(h)
      else Resume(s, h, Arity(isMap, num.arg), isMap, false, false)
  }

  // ----- What lies ahead of a place

  function CountOf(r: nat): Count {
    if r == UINT32_MAX then UntilBreak else Exactly(r)
  }

  function Ahead(s: seq<byte>, pl: Place, isMap: bool): Parse<seq<Cst>> {
    match pl
    case Bad => Fail
    case End(p) => Ok([], p)
    case At(p, r, k) => if p <= |s| then ParseBody(s, p, CountOf(r), isMap, k) else Fail
  }

  lemma BadHead(s: seq<byte>, p: nat)
    requires !HeadOk(s, p)
    ensures ParseItem(s, p).Fail?
  {
    if p < |s| && s[p] % 32 == 24 && p + 1 < |s| {
      assert s[p + 1..p + 2] == [s[p + 1]];
      assert FromBE([s[p + 1]]) == s[p + 1];
    }
  }

  lemma ResumeAhead(s: seq<byte>, q: nat, r: nat, isMap: bool, k: bool)
    requires q <= |s| && r > 0
    ensures Ahead(s, Resume(s, q, r, isMap, k, false), isMap) == ParseBody(s, q, CountOf(r), isMap, k)
  {
    if !HeadOk(s, q) {
      BadHead(s, q);
    }
  }

  lemma NextAhead(s: seq<byte>, q: nat, r: nat, isMap: bool, k: bool)
    requires q <= |s| && 0 < r <= UINT32_MAX
    ensures Ahead(s, Next(s, q, r, isMap, k), isMap) == ParseBody(s, q, Less(CountOf(r)), isMap, !k)
  {
    if r > 1 {
      ResumeAhead(s, q, if r == UINT32_MAX then r else r - 1, isMap, !k);
    }
  }

  /** What lies ahead of an item is the item and what lies ahead of the place after it. */
  lemma StepAhead(s: seq<byte>, p: nat, r: nat, isMap: bool, k: bool)
    requires HeadOk(s, p) && 0 < r <= UINT32_MAX
    ensures ParseItem(s, p).Fail? ==> Ahead(s, At(p, r, k), isMap).Fail?
    ensures ParseItem(s, p).Ok? ==>
              var Ok(c, q) := ParseItem(s, p);
              Ahead(s, At(p, r, k), isMap) == Cons(c, Ahead(s, Next(s, q, r, isMap, k), isMap))
  {
    if ParseItem(s, p).Ok? {
      NextAhead(s, ParseItem(s, p).next, r, isMap, k);
    }
  }

  function Inside(r: Parse<Cst>): Parse<seq<Cst>> {
    match r
    case Ok(Container(isMap, len, items), q) => if LenFits(isMap, len) then Ok(items, q) else Fail
    case _ => Fail
  }

  /** Entering a container looks ahead at its items, unless it is too long to count. */
  lemma EnterAhead(s: seq<byte>, p: nat)
    requires HeadOk(s, p) && 4 <= s[p] / 32 <= 5
    ensures Ahead(s, Enter(s, p), s[p] / 32 == 5) == Inside(ParseContainer(s, p))
  {
    var isMap := s[p] / 32 == 5;
    if s[p] % 32 == 31 {
      ResumeAhead(s, p + 1, UINT32_MAX, isMap, false);
    } else {
      var Ok(num, h) := ParseNum(s, p);
      if LenFits(isMap, Some(num)) && num.arg > 0 {
        ResumeAhead(s, h, Arity(isMap, num.arg), isMap, false);
      }
    }
  }

  /** A map is entered before a key, with a whole number of pairs to come. */
  lemma EnterEntry(s: seq<byte>, p: nat)
    requires HeadOk(s, p) && 4 <= s[p] / 32 <= 5
    ensures var pl := Enter(s, p);
            pl.At? ==> !pl.k && pl.r > 0 && (s[p] / 32 == 5 ==> pl.r == UINT32_MAX || pl.r % 2 == 0)
  {
  }
}
