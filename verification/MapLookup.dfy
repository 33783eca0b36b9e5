/**
 Comparing strings with a text (`cbor_value_text_string_equals`) and finding a value by its key
 (`cbor_value_map_find_value`, src/tinycbor/cborparser.c).
 */
module MapLookup {
  import opened Bytes
  import opened Wrappers
  import opened Errors
  import opened Syntax
  import opened Values
  import opened Limits
  import opened Places
  import opened Parser
  import opened Strings
  import opened Traversal

  method TextStringEquals(it: CborValue, text: seq<byte>) returns (err: CborError, result: bool)
    requires it.OnItem() && 0 !in text
    ensures err == NoError && ParseItem(it.data, it.ptr).Ok? ==>
              result == IsText(ParseItem(it.data, it.ptr).value, text)
    ensures After(it.data, it.ptr, it.remaining, it.isMap, it.key, MAX_RECURSIONS) != Bad ==> err == NoError
  {
    var copy := new CborValue.Copy(it);
    ghost var s, p := it.data, it.ptr;
    UntagParse(s, p, it.remaining, it.key);
    err := SkipTag(copy);
    if err != NoError {
      return err, false;
    }
    TypeOfString(copy);
    if copy.typ != TEXT_STRING {
      return NoError, false;
    }
    var total;
    err, result, total := IterateStringChunks(copy, Memcmp(text), |text|);
  }

  /** Under its tags, the item is a text string with these bytes. */
  predicate IsText(c: Cst, text: seq<byte>) {
    match Strip(c)
    case String(true, _, chunks) => Content(chunks) == text
    case _ => false
  }

  /** No key among these keys and values is the text. */
  predicate Absent(items: seq<Cst>, text: seq<byte>) {
    forall i | 0 <= i < |items| && i % 2 == 0 :: !IsText(items[i], text)
  }

  /** `i` is the first key that is the text. */
  predicate FirstKey(items: seq<Cst>, text: seq<byte>, i: nat) {
    i % 2 == 0 && i + 1 < |items| && IsText(items[i], text) && Absent(items[..i], text)
  }

  /** The key and value ahead are complete and within the limits. */
  ghost predicate PairAhead(element: CborValue)
    reads element
  {
    element.remaining != 0 ==> element.isMap && !element.key
                               && (element.remaining == UINT32_MAX || element.remaining % 2 == 0)
  }

  ghost function Rest(element: CborValue): Parse<seq<Cst>>
    reads element
  {
    Ahead(element.data, element.Where(), true)
  }

  /** Passes the key the element stands on, and says whether it is the text. */
  method PassKey(element: CborValue, text: seq<byte>) returns (err: CborError, equals: bool)
    requires element.OnItem() && element.isMap && 0 !in text
    modifies element`ptr, element`remaining, element`typ, element`extra, element`tooLarge, element`bit1,
             element`unknownLength, element`key
    ensures var pl := old(After(element.data, element.ptr, element.remaining, true, element.key, MAX_RECURSIONS));
            && (err == NoError <==> pl != Bad) && (err == NoError ==> element.Is(pl))
    ensures err == NoError ==> equals == IsText(old(ParseItem(element.data, element.ptr)).value, text)
  {
    ghost var s, p := element.data, element.ptr;
    UntagParse(s, p, element.remaining, element.key);
    AfterUntag(s, p, element.remaining, true, element.key, MAX_RECURSIONS);
    err := SkipTag(element);
    if err != NoError {
      return err, false;
    }
    TypeOfString(element);
    if element.typ == TEXT_STRING {
      var total;
      err, equals, total := IterateStringChunks(element, Memcmp(text), |text|);
    } else {
      equals := false;
      err := Advance(element);
    }
  }

  /** After `done`, which holds no match, comes what lies ahead of the element. */
  ghost predicate Searched(all: Parse<seq<Cst>>, done: seq<Cst>, element: CborValue, text: seq<byte>)
    reads element
  {
    && |done| % 2 == 0 && Absent(done, text)
    && Rest(element).Ok? && all == Ok(done + Rest(element).value, Rest(element).next)
    && FitsAll(Rest(element).value, MAX_RECURSIONS)
  }

  lemma AbsentPair(done: seq<Cst>, text: seq<byte>, k: Cst, v: Cst)
    requires |done| % 2 == 0 && Absent(done, text) && !IsText(k, text)
    ensures |done + [k, v]| % 2 == 0 && Absent(done + [k, v], text)
  {
  }

  /** One turn of the search: a key and, unless it matched, its value. */
  method SearchPair(element: CborValue, text: seq<byte>)
    returns (err: CborError, found: bool, ghost k: Cst, ghost v: Cst)
    requires element.OnItem() && PairAhead(element) && 0 !in text
    modifies element
    ensures err != NoError ==> element.typ == INVALID && Reach(old(Rest(element)), MAX_RECURSIONS) == None
    ensures err == NoError && found ==>
              && element.OnItem() && IsText(k, text) && old(Rest(element)) == Cons(k, Rest(element))
              && (Rest(element).Ok? ==> Rest(element).value != [])
    ensures err == NoError && !found ==>
              && element.Is(element.Where()) && PairAhead(element) && old(element.ptr) < element.ptr
              && !IsText(k, text) && old(Rest(element)) == Cons(k, Cons(v, Rest(element)))
              && Reach(old(Rest(element)), MAX_RECURSIONS) == Reach(Rest(element), MAX_RECURSIONS)
  {
    v := Prim(Num(0, 0));
    k := ParseKey(element.data, element.ptr);
    KeyPlaces(element.data, element.ptr, element.remaining);
    hide TypeAt, ExtraAt, HeadOk, After, Next, Ahead, IsText;
    err, found := PassKey(element, text);
    if err != NoError {
      element.typ := INVALID;
      return;
    }
    if found {
      err := element.PreparseValue();
      return;
    }
    v := ParseKey(element.data, element.ptr);
    err := SkipItem(element);
    if err != NoError {
      element.typ := INVALID;
    }
  }

  /** Past a key comes its value, and past that a whole number of pairs again. */
  lemma KeyPlaces(s: seq<byte>, p: nat, r: nat)
    requires HeadOk(s, p) && 0 < r <= UINT32_MAX && (r == UINT32_MAX || r % 2 == 0)
    ensures var here, pl := Ahead(s, At(p, r, false), true), After(s, p, r, true, false, MAX_RECURSIONS);
            && (pl == Bad ==> Reach(here, MAX_RECURSIONS) == None)
            && (pl != Bad ==>
                  && pl.At? && pl.k && 0 < pl.r <= UINT32_MAX && HeadOk(s, pl.p)
                  && here == Cons(ParseKey(s, p), Ahead(s, pl, true))
                  && (Ahead(s, pl, true).Ok? ==> Ahead(s, pl, true).value != [])
                  && var pl2 := After(s, pl.p, pl.r, true, true, MAX_RECURSIONS);
                     && (pl2 == Bad ==> Reach(here, MAX_RECURSIONS) == None)
                     && (pl2 != Bad ==>
                           && p < pl2.p && Reach(here, MAX_RECURSIONS) == Reach(Ahead(s, pl2, true), MAX_RECURSIONS)
                           && Ahead(s, pl, true) == Cons(ParseKey(s, pl.p), Ahead(s, pl2, true))
                           && (pl2.At? ==> !pl2.k && (pl2.r == UINT32_MAX || pl2.r % 2 == 0))))
  {
    AfterAhead(s, p, r, true, false, MAX_RECURSIONS);
    AfterPlace(s, p, r, false);
    var pl := After(s, p, r, true, false, MAX_RECURSIONS);
    if pl != Bad {
      AfterAhead(s, pl.p, pl.r, true, true, MAX_RECURSIONS);
      StepAhead(s, pl.p, pl.r, true, true);
      AfterPlace(s, pl.p, pl.r, true);
    }
  }

  lemma AfterPlace(s: seq<byte>, p: nat, r: nat, k: bool)
    requires 0 < r <= UINT32_MAX && (r == UINT32_MAX || (r % 2 == 0 <==> !k))
    ensures var pl := After(s, p, r, true, k, MAX_RECURSIONS);
            pl != Bad ==>
              && p < pl.p && (!k ==> pl.At?)
              && (pl.At? ==> HeadOk(s, pl.p) && pl.k == !k && 0 < pl.r <= UINT32_MAX
                             && (pl.r == UINT32_MAX || (pl.r % 2 == 0 <==> k)))
  {
    hide HeadOk;
  }

  ghost function ParseKey(s: seq<byte>, p: nat): Cst {
    match ParseItem(s, p)
    case Ok(c, _) => c
    case Fail => Prim(Num(0, 0))
  }

  /**
   Stops on the value of the first pair whose key, under any tags, is the text, however it is
   chunked; or on an invalid element when there is none.
   */
  method MapFindValue(it: CborValue, text: seq<byte>) returns (err: CborError, element: CborValue, ghost at: nat)
    requires it.OnItem() && it.typ == MAP && 0 !in text
    ensures fresh(element) && element.data == it.data
    ensures err != NoError ==> element.typ == INVALID
    ensures err == NoError ==> element.typ == INVALID || element.OnItem()
    ensures var r := ParseItem(it.data, it.ptr);
            r.Ok? && Depth(r.value) <= 1025 && CountsFit(r.value) ==>
              && err == NoError && r.value.Container?
              && (element.typ == INVALID ==> Absent(r.value.items, text))
              && (element.typ != INVALID ==>
                    && element.OnItem() && FirstKey(r.value.items, text, at)
                    && Rest(element) == Ok(r.value.items[at + 1..], r.next))
  {
    if ParseItem(it.data, it.ptr).Ok? {
      FitsIs(ParseItem(it.data, it.ptr).value, MAX_RECURSIONS + 1);
    }
    ghost var all := Ahead(it.data, Enter(it.data, it.ptr), true);
    ContainerKind(it);
    EnterAhead(it.data, it.ptr);
    EnterEntry(it.data, it.ptr);
    hide TypeAt, ExtraAt, HeadOk, Ahead, Enter;
    element, err := it.EnterContainer();
    at := 0;
    if err != NoError {
      element.typ := INVALID;
      return;
    }
    var found;
    err, found, at := SearchAll(element, text, all);
    if err == NoError && !found {
      element.typ := INVALID;
    }
  }

  method SearchAll(element: CborValue, text: seq<byte>, ghost all: Parse<seq<Cst>>)
    returns (err: CborError, found: bool, ghost at: nat)
    requires element.Is(element.Where()) && PairAhead(element) && 0 !in text && all == Rest(element)
    modifies element
    ensures err != NoError ==> element.typ == INVALID && Reach(all, MAX_RECURSIONS) == None
    ensures err == NoError && Reach(all, MAX_RECURSIONS).Some? ==>
              && (!found ==> Absent(all.value, text))
              && (found ==> FirstKey(all.value, text, at) && Rest(element) == Ok(all.value[at + 1..], all.next))
    ensures err == NoError && found ==> element.OnItem()
  {
    hide TypeAt, ExtraAt, Ahead, Absent, IsText, FirstKey;
    at, found := 0, false;
    ghost var ok := Reach(all, MAX_RECURSIONS).Some?;
    ghost var done: seq<Cst> := [];
    NoneAbsent(text);
    assert ok ==> [] + all.value == all.value;
    while element.remaining != 0
      invariant element.Is(element.Where()) && PairAhead(element)
      invariant ok ==> Searched(all, done, element, text)
      invariant Reach(Rest(element), MAX_RECURSIONS) == Reach(all, MAX_RECURSIONS)
      decreases |element.data| - element.ptr
    {
      ghost var k, v;
      ghost var before := Rest(element);
      err, found, k, v := SearchPair(element, text);
      if err != NoError {
        return;
      }
      if found {
        at := |done|;
        if ok {
          FoundHere(done, k, Rest(element), text, all);
        }
        return;
      }
      if ok {
        NextPair(all, done, before, k, v, Rest(element), text);
        done := done + [k, v];
      }
    }
    err := NoError;
    AtEnd(element);
    assert ok ==> done + [] == done;
  }

  lemma NoneAbsent(text: seq<byte>)
    ensures Absent([], text)
  {
  }

  lemma AtEnd(element: CborValue)
    requires element.remaining == 0
    ensures Rest(element) == Ok([], element.ptr)
  {
  }

  lemma NextPair(all: Parse<seq<Cst>>, done: seq<Cst>, before: Parse<seq<Cst>>, k: Cst, v: Cst,
                 after: Parse<seq<Cst>>, text: seq<byte>)
    requires |done| % 2 == 0 && Absent(done, text) && !IsText(k, text)
    requires before == Cons(k, Cons(v, after)) && before.Ok? && all == Ok(done + before.value, before.next)
    ensures |done + [k, v]| % 2 == 0 && Absent(done + [k, v], text)
    ensures after.Ok? && all == Ok((done + [k, v]) + after.value, after.next)
  {
    AbsentPair(done, text, k, v);
    assert done + ([k] + ([v] + after.value)) == (done + [k, v]) + after.value;
  }

  lemma FoundHere(done: seq<Cst>, k: Cst, middle: Parse<seq<Cst>>, text: seq<byte>, all: Parse<seq<Cst>>)
    requires |done| % 2 == 0 && Absent(done, text) && IsText(k, text) && middle.Ok? && middle.value != []
    requires all == Ok(done + ([k] + middle.value), middle.next)
    ensures FirstKey(all.value, text, |done|) && middle == Ok(all.value[|done| + 1..], all.next)
  {
    assert all.value[..|done|] == done;
    assert all.value[|done| + 1..] == middle.value;
  }
}
