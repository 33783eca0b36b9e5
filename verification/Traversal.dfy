/**
 Walking over whole items: `cbor_value_advance` and the functions built on it
 (src/tinycbor/cborparser.c). Advancing accepts exactly the well-formed items of the grammar
 that stay within the nesting limit and the 32-bit counters.
 */
module Traversal {
  import opened Bytes
  import opened Wrappers
  import opened Errors
  import opened Syntax
  import opened Limits
  import opened WellFormedness
  import opened Places
  import opened Parser
  import opened Strings
  import opened StringApi

  const MAX_RECURSIONS: nat := 1024

  /** At most `n` containers on any path, none too long to count. */
  predicate Fits(c: Cst, n: nat)
    decreases c
  {
    match c
    case Container(isMap, len, items) => n > 0 && LenFits(isMap, len) && FitsAll(items, n - 1)
    case Tag(_, item) => Fits(item, n)
    case _ => true
  }

  predicate FitsAll(items: seq<Cst>, n: nat)
    decreases items
  {
    forall i | 0 <= i < |items| :: Fits(items[i], n)
  }

  /** The recursion stays within the limits exactly if the depth and the lengths do. */
  lemma {:induction false} FitsIs(c: Cst, n: nat)
    ensures Fits(c, n) <==> Depth(c) <= n && CountsFit(c)
    decreases c
  {
    match c
    case Container(_, _, items) =>
      if n > 0 {
        forall i | 0 <= i < |items| { FitsIs(items[i], n - 1); }
        DeepestWithin(items, n - 1);
      }
    case Tag(_, item) => FitsIs(item, n);
    case _ =>
  }

  /** The place after advancing once: past a tag's head, or past a whole item. */
  function Step(s: seq<byte>, p: nat, r: nat, isMap: bool, k: bool, n: nat): Place
    requires HeadOk(s, p)
  {
    if s[p] / 32 == 6 then Resume(s, ParseNum(s, p).next, r, isMap, k, true)
    else
      match ParseItem(s, p)
      case Fail => Bad
      case Ok(c, q) => if Fits(c, n) then Next(s, q, r, isMap, k) else Bad
  }

  /** Where the items ahead end, if all of them are within the limits. */
  function Reach(r: Parse<seq<Cst>>, n: nat): Option<nat> {
    match r
    case Fail => None
    case Ok(items, q) => if FitsAll(items, n) then Some(q) else None
  }

  lemma ReachCons(c: Cst, r: Parse<seq<Cst>>, n: nat)
    ensures Reach(Cons(c, r), n) == if Fits(c, n) then Reach(r, n) else None
  {
    if r.Ok? {
      var xs := [c] + r.value;
      assert xs[0] == c && xs[1..] == r.value;
      assert FitsAll(xs, n) ==> FitsAll(xs[1..], n);
      assert Fits(c, n) && FitsAll(xs[1..], n) ==> forall i | 0 < i < |xs| :: xs[i] == xs[1..][i - 1];
    }
  }

  lemma TagReach(s: seq<byte>, p: nat, r: nat, isMap: bool, k: bool, n: nat)
    requires HeadOk(s, p) && s[p] / 32 == 6 && 0 < r <= UINT32_MAX
    ensures var pl := Resume(s, ParseNum(s, p).next, r, isMap, k, true);
            Reach(Ahead(s, At(p, r, k), isMap), n) == Reach(Ahead(s, pl, isMap), n)
  {
    var Ok(num, h) := ParseNum(s, p);
    StepAhead(s, p, r, isMap, k);
    if !HeadOk(s, h) {
      BadHead(s, h);
    } else {
      StepAhead(s, h, r, isMap, k);
      if ParseItem(s, h).Ok? {
        var Ok(item, q) := ParseItem(s, h);
        var rest := Ahead(s, Next(s, q, r, isMap, k), isMap);
        ReachCons(item, rest, n);
        ReachCons(Tag(num, item), rest, n);
      }
    }
  }

  /** Advancing keeps in view where the container ends and whether it is within the limits. */
  lemma StepReach(s: seq<byte>, p: nat, r: nat, isMap: bool, k: bool, n: nat)
    requires HeadOk(s, p) && 0 < r <= UINT32_MAX
    ensures Reach(Ahead(s, At(p, r, k), isMap), n) == Reach(Ahead(s, Step(s, p, r, isMap, k, n), isMap), n)
  {
    if s[p] / 32 == 6 {
      TagReach(s, p, r, isMap, k, n);
    } else {
      StepAhead(s, p, r, isMap, k);
      if ParseItem(s, p).Ok? {
        var Ok(c, q) := ParseItem(s, p);
        ReachCons(c, Ahead(s, Next(s, q, r, isMap, k), isMap), n);
      }
    }
  }

  lemma ContainerStep(s: seq<byte>, p: nat, r: nat, isMap: bool, k: bool, n: nat)
    requires HeadOk(s, p) && 4 <= s[p] / 32 <= 5
    ensures n == 0 ==> Step(s, p, r, isMap, k, n) == Bad
    ensures n > 0 ==>
              var reach := Reach(Ahead(s, Enter(s, p), s[p] / 32 == 5), n - 1);
              Step(s, p, r, isMap, k, n) == if reach.Some? then Next(s, reach.value, r, isMap, k) else Bad
  {
    EnterAhead(s, p);
  }

  lemma StepAdvances(s: seq<byte>, p: nat, r: nat, isMap: bool, k: bool, n: nat)
    requires HeadOk(s, p)
    ensures var pl := Step(s, p, r, isMap, k, n); pl != Bad ==> p < pl.p
  {
  }

  method AdvanceRecursive(it: CborValue, nestingLevel: nat) returns (err: CborError)
    requires it.OnItem()
    modifies it`ptr, it`remaining, it`typ, it`extra, it`tooLarge, it`bit1, it`unknownLength, it`key
    ensures var pl := old(Step(it.data, it.ptr, it.remaining, it.isMap, it.key, nestingLevel));
            (err == NoError <==> pl != Bad) && (err == NoError ==> it.Is(pl))
    decreases nestingLevel, 1
  {
    if IsFixed(it.typ) {
      err := it.AdvanceInternal();
    } else if !it.IsContainer() {
      ContentBound(it);
      var len;
      err, len := CopyString(it, Noop, TWO_64 - 1);
    } else {
      err := AdvanceContainer(it, nestingLevel);
    }
  }

  method AdvanceContainer(it: CborValue, nestingLevel: nat) returns (err: CborError)
    requires it.OnItem() && it.IsContainer()
    modifies it`ptr, it`remaining, it`typ, it`extra, it`tooLarge, it`bit1, it`unknownLength, it`key
    ensures var pl := old(Step(it.data, it.ptr, it.remaining, it.isMap, it.key, nestingLevel));
            (err == NoError <==> pl != Bad) && (err == NoError ==> it.Is(pl))
    decreases nestingLevel, 0
  {
    ContainerKind(it);
    ContainerStep(it.data, it.ptr, it.remaining, it.isMap, it.key, nestingLevel);
    hide TypeAt, ExtraAt, HeadOk, Ahead, Enter;
    if nestingLevel == 0 {
      return NestingTooDeep;
    }
    var recursed;
    recursed, err := it.EnterContainer();
    if err != NoError {
      return;
    }
    err := AdvanceToEnd(recursed, nestingLevel - 1, it.typ == MAP);
    if err != NoError {
      return;
    }
    err := it.LeaveContainer(recursed);
  }

  /** The loop of `advance_recursive`: over everything left in a container. */
  method AdvanceToEnd(recursed: CborValue, n: nat, ghost inMap: bool) returns (err: CborError)
    requires recursed.Is(recursed.Where()) && (recursed.remaining != 0 ==> recursed.isMap == inMap)
    modifies recursed
    ensures var reach := old(Reach(Ahead(recursed.data, recursed.Where(), inMap), n));
            (err == NoError <==> reach.Some?) && (err == NoError ==> recursed.Is(End(reach.value)))
    decreases n, 2
  {
    ghost var s := recursed.data;
    while recursed.remaining != 0
      invariant recursed.Is(recursed.Where())
      invariant recursed.remaining != 0 ==> recursed.isMap == inMap
      invariant Reach(Ahead(s, recursed.Where(), inMap), n) == old(Reach(Ahead(s, recursed.Where(), inMap), n))
      decreases |s| - recursed.ptr
    {
      StepReach(s, recursed.ptr, recursed.remaining, inMap, recursed.key, n);
      StepAdvances(s, recursed.ptr, recursed.remaining, inMap, recursed.key, n);
      err := AdvanceRecursive(recursed, n);
      if err != NoError {
        return;
      }
    }
    err := NoError;
  }

  method Advance(it: CborValue) returns (err: CborError)
    requires it.OnItem() || it.remaining == 0
    modifies it`ptr, it`remaining, it`typ, it`extra, it`tooLarge, it`bit1, it`unknownLength, it`key
    ensures old(it.remaining) == 0 ==> err == AdvancePastEOF
    ensures old(it.remaining) != 0 ==>
              var pl := old(Step(it.data, it.ptr, it.remaining, it.isMap, it.key, MAX_RECURSIONS));
              (err == NoError <==> pl != Bad) && (err == NoError ==> it.Is(pl))
  {
    if it.remaining == 0 {
      return AdvancePastEOF;
    }
    err := AdvanceRecursive(it, MAX_RECURSIONS);
  }

  // ----- Tags

  /** The place after skipping tags. */
  function Untag(s: seq<byte>, pl: Place): Place
    decreases |s| - if pl.At? then pl.p else |s|
  {
    match pl
    case At(p, r, k) =>
      if HeadOk(s, p) && s[p] / 32 == 6 then Untag(s, Resume(s, ParseNum(s, p).next, r, false, k, true)) else pl
    case _ => pl
  }

  function Strip(c: Cst): (c': Cst)
    ensures !c'.Tag?
  {
    match c
    case Tag(_, item) => Strip(item)
    case _ => c
  }

  /** Under its tags, an item is the item found by skipping them. */
  lemma {:induction false} UntagParse(s: seq<byte>, p: nat, r: nat, k: bool)
    requires HeadOk(s, p) && 0 < r <= UINT32_MAX
    ensures match Untag(s, At(p, r, k))
            case Bad => ParseItem(s, p).Fail?
            case End(_) => false
            case At(p', r', k') =>
              && p <= p' && HeadOk(s, p') && s[p'] / 32 != 6 && r' == r && k' == k
              && (ParseItem(s, p).Ok? <==> ParseItem(s, p').Ok?)
              && (ParseItem(s, p).Ok? ==> ParseItem(s, p') == Ok(Strip(ParseItem(s, p).value), ParseItem(s, p).next))
    decreases |s| - p
  {
    if s[p] / 32 == 6 {
      var h := ParseNum(s, p).next;
      if HeadOk(s, h) {
        UntagParse(s, h, r, k);
      } else {
        BadHead(s, h);
      }
    }
  }

  method SkipTag(it: CborValue) returns (err: CborError)
    requires it.OnItem()
    modifies it`ptr, it`remaining, it`typ, it`extra, it`tooLarge, it`bit1, it`unknownLength, it`key
    ensures var pl := old(Untag(it.data, it.Where()));
            (err == NoError <==> pl != Bad) && (err == NoError ==> it.Is(pl) && it.OnItem())
  {
    while it.typ == TAG
      invariant it.OnItem() && Untag(it.data, it.Where()) == old(Untag(it.data, it.Where()))
      decreases |it.data| - it.ptr
    {
      ghost var p := it.ptr;
      err := it.AdvanceFixed();
      if err != NoError {
        return;
      }
    }
    err := NoError;
  }

  // ----- Whole items, tags included

  /** The place after a whole item within the limits. */
  function After(s: seq<byte>, p: nat, r: nat, isMap: bool, k: bool, n: nat): Place {
    match ParseItem(s, p)
    case Fail => Bad
    case Ok(c, q) => if Fits(c, n) then Next(s, q, r, isMap, k) else Bad
  }

  lemma {:induction false} FitsStrip(c: Cst, n: nat)
    ensures Fits(Strip(c), n) == Fits(c, n)
  {
    if c.Tag? {
      FitsStrip(c.item, n);
    }
  }

  /** Skipping the tags first and then advancing passes the whole item. */
  lemma AfterUntag(s: seq<byte>, p: nat, r: nat, isMap: bool, k: bool, n: nat)
    requires HeadOk(s, p) && 0 < r <= UINT32_MAX
    ensures var pl := Untag(s, At(p, r, k));
            && !pl.End?
            && (pl.Bad? ==> After(s, p, r, isMap, k, n) == Bad)
            && (pl.At? ==> HeadOk(s, pl.p) && s[pl.p] / 32 != 6 && pl == At(pl.p, r, k) && p <= pl.p
                           && After(s, p, r, isMap, k, n) == Step(s, pl.p, r, isMap, k, n))
  {
    UntagParse(s, p, r, k);
    if ParseItem(s, p).Ok? {
      FitsStrip(ParseItem(s, p).value, n);
    }
  }

  lemma AfterAhead(s: seq<byte>, p: nat, r: nat, isMap: bool, k: bool, n: nat)
    requires HeadOk(s, p) && 0 < r <= UINT32_MAX
    ensures var here, pl := Ahead(s, At(p, r, k), isMap), After(s, p, r, isMap, k, n);
            && (pl == Bad ==> Reach(here, n) == None)
            && (pl != Bad ==> ParseItem(s, p).Ok? && Reach(here, n) == Reach(Ahead(s, pl, isMap), n)
                              && here == Cons(ParseItem(s, p).value, Ahead(s, pl, isMap)))
  {
    StepAhead(s, p, r, isMap, k);
    if ParseItem(s, p).Ok? {
      var Ok(c, q) := ParseItem(s, p);
      ReachCons(c, Ahead(s, Next(s, q, r, isMap, k), isMap), n);
    }
  }

  method SkipItem(it: CborValue) returns (err: CborError)
    requires it.OnItem()
    modifies it`ptr, it`remaining, it`typ, it`extra, it`tooLarge, it`bit1, it`unknownLength, it`key
    ensures var pl := old(After(it.data, it.ptr, it.remaining, it.isMap, it.key, MAX_RECURSIONS));
            (err == NoError <==> pl != Bad) && (err == NoError ==> it.Is(pl))
  {
    AfterUntag(it.data, it.ptr, it.remaining, it.isMap, it.key, MAX_RECURSIONS);
    err := SkipTag(it);
    if err != NoError {
      return;
    }
    err := Advance(it);
  }

  /**
   From a fresh parser: skipping the first item of a buffer succeeds exactly when the buffer
   starts with a well-formed item of at most 1024 nested containers, none of a definite length that
   cannot be counted, and stops exactly behind it.
   */
  method SkipFirst(data: seq<byte>) returns (ok: bool, end: nat)
    requires |data| < TWO_64
    ensures ok <==> exists c :: StartsWithItem(data, 0, c) && Depth(c) <= 1024 && CountsFit(c)
    ensures ok ==> forall c :: StartsWithItem(data, 0, c) ==> end == |Serialize(c)|
    ensures ok ==> WellFormed(data, 0, false).Ok? && end == WellFormed(data, 0, false).next
  {
    ParseExact(data, 0);
    AppendixC(data, 0);
    if ParseItem(data, 0).Ok? {
      FitsIs(ParseItem(data, 0).value, MAX_RECURSIONS);
    }
    var it, err := CborValue.Init(data);
    if err != NoError {
      BadHead(data, 0);
      return false, 0;
    }
    err := SkipItem(it);
    return err == NoError, it.ptr;
  }
}
