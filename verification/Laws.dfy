/**
 What each validation flag is worth, as a law about every item inside an accepted one. An item is
 acceptable exactly if all items inside it meet the laws of the flags that are set
 (src/tinycbor/cborvalidation.c, whose documentation describes the flags one by one).
 */
module Laws {
  import opened Wrappers
  import opened Syntax
  import opened Values
  import opened Layouts
  import opened Utf8
  import opened Canonical

  /** `d` is `c` or lies inside it, at any depth. */
  ghost predicate Occurs(d: Cst, c: Cst)
    decreases c
  {
    d == c ||
    match c
    case Container(_, _, items) => exists i | 0 <= i < |items| :: Occurs(d, items[i])
    case Tag(_, item) => Occurs(d, item)
    case _ => false
  }

  // ----- The laws

  /** No well-formed head with the same number has fewer bytes. */
  ghost predicate NoShorter(num: Num) {
    forall m | WfNum(m) && m.arg == num.arg :: NumBytes(num.ai) <= NumBytes(m.ai)
  }

  /** The numbers of an item, floats apart. */
  ghost predicate ShortHeads(d: Cst) {
    match d
    case Integer(_, num) => NoShorter(num)
    case String(_, _, chunks) => forall i | 0 <= i < |chunks| :: NoShorter(chunks[i].num)
    case Container(_, len, _) => len.Some? ==> NoShorter(len.value)
    case Tag(num, _) => NoShorter(num)
    case Prim(num) => num.ai <= 24 ==> NoShorter(num)
  }

  predicate DefiniteLength(d: Cst) {
    (d.String? ==> !d.indefinite) && (d.Container? ==> d.len.Some?)
  }

  /** The keys of a map never decrease; with `unique` they increase. */
  predicate Sorted(d: Cst, unique: bool)
    requires Wf(d)
  {
    d.Container? && d.isMap ==> KeysSorted(d.items, unique)
  }

  predicate KeysSorted(items: seq<Cst>, unique: bool)
    requires WfAll(items)
  {
    forall i, j | 0 <= i < j < |items| && i % 2 == 0 && j % 2 == 0 :: InOrder(items[i], items[j], unique)
  }

  predicate InOrder(a: Cst, b: Cst, unique: bool)
    requires Wf(a) && Wf(b)
  {
    KeyLess(a, b) || (!unique && Serialize(a) == Serialize(b))
  }

  /** The keys of a map are text strings, under their tags. */
  predicate StringKeys(d: Cst) {
    d.Container? && d.isMap ==> KeysText(d.items)
  }

  predicate KeysText(items: seq<Cst>) {
    forall i | 0 <= i < |items| && i % 2 == 0 :: TextUnderTags(items[i])
  }

  predicate TextUnderTags(c: Cst) {
    match c
    case String(text, _, _) => text
    case Tag(_, item) => TextUnderTags(item)
    case _ => false
  }

  /** Every chunk of a text string is UTF-8. */
  ghost predicate Utf8Chunks(d: Cst) {
    d.String? && d.text ==> forall i | 0 <= i < |d.chunks| :: Utf8Text(d.chunks[i].data)
  }

  /** The tags the source knows. */
  predicate Registered(tag: nat) {
    tag <= 5 || 16 <= tag <= 18 || 21 <= tag <= 24 || 32 <= tag <= 36 || 96 <= tag <= 98 || tag == 55799
  }

  /** What a known tag may be put on. */
  predicate RightType(tag: nat, item: Cst) {
    && (tag == 0 || 32 <= tag <= 36 ==> item.String? && item.text)
    && (tag == 1 ==> item.Integer?)
    && (tag == 2 || tag == 3 || tag == 24 ==> item.String? && !item.text)
    && (tag == 4 || tag == 5 || 16 <= tag <= 18 || 96 <= tag <= 98 ==> item.Container? && !item.isMap)
    && (21 <= tag <= 23 ==> item.Container? || (item.String? && !item.text))
  }

  predicate TagLaw(d: Cst, f: Flags) {
    d.Tag? ==>
      && !f.noTags
      && (f.tagUse ==> RightType(d.num.arg, d.item))
      && (f.noUnknownTagsSA && d.num.arg < 24 ==> Registered(d.num.arg))
      && (f.noUnknownTagsSA && f.noUnknownTagsSR && d.num.arg < 256 ==> Registered(d.num.arg))
      && (f.noUnknownTagsSA && f.noUnknownTagsSR && f.noUnknownTags ==> Registered(d.num.arg))
  }

  /** Simple values 0 to 19 and 32 to 255 have no meaning in RFC 7049. */
  predicate SimpleLaw(d: Cst, f: Flags) {
    d.Prim? ==>
      && (d.num.ai == 23 ==> !f.noUndefined)
      && (d.num.ai < 20 ==> !f.noUnknownSimpleTypesSA)
      && (d.num.ai == 24 ==> !(f.noUnknownSimpleTypesSA && f.noUnknownSimpleTypes))
  }

  /** Floats are what the platform says they are. */
  predicate FloatLaw(d: Cst, f: Flags, fp: FloatCheck) {
    d.Prim? && 25 <= d.num.ai <= 27 && (f.finiteFloats || f.shortestFloats) ==>
      fp(0xe0 + d.num.ai, d.num.arg, f.finiteFloats, f.shortestFloats)
  }

  ghost predicate Meets(d: Cst, f: Flags, fp: FloatCheck)
    requires Wf(d)
  {
    && (f.shortestIntegrals ==> ShortHeads(d))
    && (f.noIndeterminateLength ==> DefiniteLength(d))
    && (f.mapIsSorted || f.noIndeterminateLength ==>
          Sorted(d, f.mapKeysAreUnique && f.mapIsSorted && f.noIndeterminateLength))
    && (f.mapKeysAreString ==> StringKeys(d))
    && (f.utf8 ==> Utf8Chunks(d))
    && TagLaw(d, f) && SimpleLaw(d, f) && FloatLaw(d, f, fp)
  }

  // ----- One item

  lemma ShortestLaw(num: Num)
    requires WfNum(num)
    ensures Shortest(num) <==> NoShorter(num)
  {
    ShortestIff(num);
    LeastHead(num);
    assert WfNum(MinNum(num.arg));
    forall m | WfNum(m) && m.arg == num.arg
      ensures NumBytes(MinNum(num.arg).ai) <= NumBytes(m.ai)
    {
      LeastHead(m);
    }
  }

  lemma TagsLaw(d: Cst, f: Flags)
    requires d.Tag?
    ensures TagOk(d.num.arg, TypeOf(d.item), f) <==> TagLaw(d, f)
  {
    KnownIs(d.num.arg);
    if f.tagUse {
      TypesLaw(d.num.arg, d.item);
    }
  }

  lemma KnownIs(tag: nat)
    ensures KnownTag(tag) <==> Registered(tag)
  {
    assert KNOWN_TAGS[0].0 == 0 && KNOWN_TAGS[1].0 == 1 && KNOWN_TAGS[2].0 == 2 && KNOWN_TAGS[3].0 == 3;
    assert KNOWN_TAGS[4].0 == 4 && KNOWN_TAGS[5].0 == 5 && KNOWN_TAGS[6].0 == 16 && KNOWN_TAGS[7].0 == 17;
    assert KNOWN_TAGS[8].0 == 18 && KNOWN_TAGS[9].0 == 21 && KNOWN_TAGS[10].0 == 22 && KNOWN_TAGS[11].0 == 23;
    assert KNOWN_TAGS[12].0 == 24 && KNOWN_TAGS[13].0 == 32 && KNOWN_TAGS[14].0 == 33 && KNOWN_TAGS[15].0 == 34;
    assert KNOWN_TAGS[16].0 == 35 && KNOWN_TAGS[17].0 == 36 && KNOWN_TAGS[18].0 == 96 && KNOWN_TAGS[19].0 == 97;
    assert KNOWN_TAGS[20].0 == 98 && KNOWN_TAGS[21].0 == 55799;
  }

  lemma TypesLaw(tag: nat, item: Cst)
    ensures (forall i | 0 <= i < |KNOWN_TAGS| && KNOWN_TAGS[i].0 == tag && KNOWN_TAGS[i].1 != [] ::
               TypeOf(item) in KNOWN_TAGS[i].1) <==> RightType(tag, item)
  {
    KnownIs(tag);
    if i :| 0 <= i < |KNOWN_TAGS| && KNOWN_TAGS[i].0 == tag {
      OnePlace(tag, i);
      TypeAtPlace(i, item);
    }
  }

  lemma TypeAtPlace(i: nat, item: Cst)
    requires i < |KNOWN_TAGS|
    ensures KNOWN_TAGS[i].1 != [] && TypeOf(item) !in KNOWN_TAGS[i].1 <==> !RightType(KNOWN_TAGS[i].0, item)
  {
  }

  lemma OnePlace(tag: nat, i: nat)
    requires i < |KNOWN_TAGS| && KNOWN_TAGS[i].0 == tag
    ensures forall j | 0 <= j < |KNOWN_TAGS| && KNOWN_TAGS[j].0 == tag :: j == i
  {
  }

  lemma {:induction false} TextLaw(c: Cst)
    ensures IsTextKey(c) <==> TextUnderTags(c)
  {
    if c.Tag? {
      TextLaw(c.item);
    }
  }

  // ----- The keys of one map

  lemma OrderTransitive(a: Cst, b: Cst, c: Cst, unique: bool)
    requires Wf(a) && Wf(b) && Wf(c) && InOrder(a, b, unique) && InOrder(b, c, unique)
    ensures InOrder(a, c, unique)
  {
    if Serialize(a) == Serialize(b) {
      SameBytes(a, b);
    } else if Serialize(b) == Serialize(c) {
      SameBytes(b, c);
    } else {
      KeyLessTransitive(a, b, c);
    }
  }

  predicate Follow(prev: Option<Cst>, items: seq<Cst>, unique: bool)
    requires WfAll(items) && (prev.Some? ==> Wf(prev.value))
  {
    prev.Some? ==> forall i | 0 <= i < |items| && i % 2 == 0 :: InOrder(prev.value, items[i], unique)
  }

  /** The keys, each compared with the one before it. */
  predicate Neighbours(prev: Option<Cst>, items: seq<Cst>, unique: bool)
    requires WfAll(items) && (prev.Some? ==> Wf(prev.value))
    decreases |items|
  {
    |items| >= 2 ==>
      && (prev.Some? ==> InOrder(prev.value, items[0], unique))
      && Neighbours(Some(items[0]), items[2..], unique)
  }

  /** Neighbours in order is all in order. */
  lemma {:induction false} NeighboursSorted(prev: Option<Cst>, items: seq<Cst>, unique: bool)
    requires WfAll(items) && (prev.Some? ==> Wf(prev.value)) && |items| % 2 == 0
    ensures Neighbours(prev, items, unique) <==> KeysSorted(items, unique) && Follow(prev, items, unique)
    decreases |items|
  {
    if items != [] {
      var k, rest := items[0], items[2..];
      NeighboursSorted(Some(k), rest, unique);
      SplitSorted(items, unique);
      FollowRest(prev, items, unique);
      hide KeysSorted, Follow, InOrder;
    }
  }

  /** Whatever comes before the first key in order comes before all of them. */
  lemma FollowRest(prev: Option<Cst>, items: seq<Cst>, unique: bool)
    requires WfAll(items) && (prev.Some? ==> Wf(prev.value)) && |items| >= 2
    ensures Follow(prev, items, unique) ==> (prev.Some? ==> InOrder(prev.value, items[0], unique))
    ensures (prev.Some? ==> InOrder(prev.value, items[0], unique)) && Follow(Some(items[0]), items[2..], unique) ==>
              Follow(prev, items, unique)
  {
    hide InOrder;
    var k, rest := items[0], items[2..];
    if prev.Some? && InOrder(prev.value, k, unique) && Follow(Some(k), rest, unique) {
      forall i | 0 <= i < |items| && i % 2 == 0
        ensures InOrder(prev.value, items[i], unique)
      {
        if i > 0 {
          assert (i - 2) % 2 == 0 && items[i] == rest[i - 2];
          OrderTransitive(prev.value, k, items[i], unique);
        }
      }
    }
  }

  lemma SplitSorted(items: seq<Cst>, unique: bool)
    requires WfAll(items) && |items| >= 2
    ensures KeysSorted(items, unique) <==> KeysSorted(items[2..], unique) && Follow(Some(items[0]), items[2..], unique)
  {
    hide InOrder;
    var k, rest := items[0], items[2..];
    if KeysSorted(items, unique) {
      forall i, j | 0 <= i < j < |rest| && i % 2 == 0 && j % 2 == 0
        ensures InOrder(rest[i], rest[j], unique)
      {
        assert InOrder(items[i + 2], items[j + 2], unique);
      }
      forall i | 0 <= i < |rest| && i % 2 == 0
        ensures InOrder(k, rest[i], unique)
      {
        assert InOrder(items[0], items[i + 2], unique);
      }
    }
    if KeysSorted(rest, unique) && Follow(Some(k), rest, unique) {
      forall i, j | 0 <= i < j < |items| && i % 2 == 0 && j % 2 == 0
        ensures InOrder(items[i], items[j], unique)
      {
        assert items[j] == rest[j - 2] && (j - 2) % 2 == 0;
        assert i > 0 ==> items[i] == rest[i - 2] && (i - 2) % 2 == 0;
      }
    }
  }

  ghost predicate AllAccepted(items: seq<Cst>, f: Flags, fp: FloatCheck)
    requires WfAll(items)
  {
    forall i | 0 <= i < |items| :: Accept(items[i], f, fp)
  }

  /** The checks on the keys. */
  predicate KeysOk(prev: Option<Cst>, items: seq<Cst>, f: Flags)
    requires WfAll(items) && (prev.Some? ==> Wf(prev.value))
  {
    && (f.mapKeysAreString ==> KeysText(items))
    && (f.mapIsSorted || f.noIndeterminateLength ==> Neighbours(prev, items, UniqueKeys(f)))
  }

  lemma {:induction false} ArrayLaw(prev: Option<Cst>, items: seq<Cst>, f: Flags, fp: FloatCheck)
    requires WfAll(items) && (prev.Some? ==> Wf(prev.value))
    ensures AcceptItems(prev, items, false, f, fp) <==> AllAccepted(items, f, fp)
    decreases |items|
  {
    if items != [] {
      ArrayLaw(prev, items[1..], f, fp);
      assert forall i | 1 <= i < |items| :: items[i] == items[1..][i - 1];
      assert forall i | 0 <= i < |items[1..]| :: items[1..][i] == items[i + 1];
    }
  }

  lemma {:induction false} MapLaw(prev: Option<Cst>, items: seq<Cst>, f: Flags, fp: FloatCheck)
    requires WfAll(items) && (prev.Some? ==> Wf(prev.value)) && |items| % 2 == 0
    ensures AcceptItems(prev, items, true, f, fp) <==> AllAccepted(items, f, fp) && KeysOk(prev, items, f)
    decreases |items|
  {
    if items != [] {
      MapLaw(Some(items[0]), items[2..], f, fp);
      AcceptedRest(items, f, fp);
      TextRest(items);
      KeyLaw(prev, items[0], f);
    }
  }

  lemma AcceptedRest(items: seq<Cst>, f: Flags, fp: FloatCheck)
    requires WfAll(items) && |items| >= 2
    ensures AllAccepted(items, f, fp) <==>
            Accept(items[0], f, fp) && Accept(items[1], f, fp) && AllAccepted(items[2..], f, fp)
  {
    assert forall i | 2 <= i < |items| :: items[i] == items[2..][i - 2];
    assert forall i | 0 <= i < |items[2..]| :: items[2..][i] == items[i + 2];
  }

  lemma TextRest(items: seq<Cst>)
    requires |items| >= 2
    ensures KeysText(items) <==> TextUnderTags(items[0]) && KeysText(items[2..])
  {
    var rest := items[2..];
    if KeysText(items) {
      forall i | 0 <= i < |rest| && i % 2 == 0
        ensures TextUnderTags(rest[i])
      {
        assert TextUnderTags(items[i + 2]);
      }
    }
    if KeysText(rest) && TextUnderTags(items[0]) {
      forall i | 0 <= i < |items| && i % 2 == 0
        ensures TextUnderTags(items[i])
      {
        assert i > 0 ==> items[i] == rest[i - 2] && (i - 2) % 2 == 0;
      }
    }
  }

  lemma KeyLaw(prev: Option<Cst>, c: Cst, f: Flags)
    requires Wf(c) && (prev.Some? ==> Wf(prev.value))
    ensures KeyOk(prev, c, f) <==>
            && (f.mapKeysAreString ==> TextUnderTags(c))
            && (prev.Some? && (f.mapIsSorted || f.noIndeterminateLength) ==> InOrder(prev.value, c, UniqueKeys(f)))
  {
    TextLaw(c);
    if prev.Some? && Serialize(prev.value) == Serialize(c) {
      SameBytes(prev.value, c);
    }
  }

  // ----- All items

  /** The item's own part of what is accepted. */
  lemma TopLaw(c: Cst, f: Flags, fp: FloatCheck)
    requires Wf(c)
    ensures Accept(c, f, fp) <==>
            && Meets(c, f, fp)
            && (c.Container? ==> AllAccepted(c.items, f, fp)) && (c.Tag? ==> Accept(c.item, f, fp))
  {
    match c
    case Integer(_, num) => ShortestLaw(num);
    case String(text, _, chunks) => ChunksLaw(text, chunks, f);
    case Container(_, _, _) => ContainerTop(c, f, fp);
    case Tag(num, item) =>
      ShortestLaw(num);
      TagsLaw(c, f);
      hide TagOk, TagLaw, NoShorter;
    case Prim(num) =>
      PrimLaw(num, f, fp);
      hide SimpleLaw, FloatLaw, PrimOk, NoShorter;
  }

  lemma ContainerTop(c: Cst, f: Flags, fp: FloatCheck)
    requires Wf(c) && c.Container?
    ensures Accept(c, f, fp) <==> Meets(c, f, fp) && AllAccepted(c.items, f, fp)
  {
    if c.len.Some? {
      ShortestLaw(c.len.value);
    }
    ItemsLaw(c.items, c.isMap, f, fp);
    hide NoShorter, AllAccepted, KeysText, KeysSorted;
  }

  lemma ItemsLaw(items: seq<Cst>, isMap: bool, f: Flags, fp: FloatCheck)
    requires WfAll(items) && (isMap ==> |items| % 2 == 0)
    ensures AcceptItems(None, items, isMap, f, fp) <==>
            && AllAccepted(items, f, fp)
            && (isMap && f.mapKeysAreString ==> KeysText(items))
            && (isMap && (f.mapIsSorted || f.noIndeterminateLength) ==> KeysSorted(items, UniqueKeys(f)))
  {
    hide AllAccepted, KeysText, KeysSorted;
    if isMap {
      MapLaw(None, items, f, fp);
      NeighboursSorted(None, items, UniqueKeys(f));
    } else {
      ArrayLaw(None, items, f, fp);
    }
  }

  lemma ChunksLaw(text: bool, chunks: seq<Chunk>, f: Flags)
    requires WfChunks(chunks)
    ensures (forall i | 0 <= i < |chunks| :: ChunkOk(text, chunks[i], f)) <==>
            && (f.shortestIntegrals ==> forall i | 0 <= i < |chunks| :: NoShorter(chunks[i].num))
            && (f.utf8 && text ==> forall i | 0 <= i < |chunks| :: Utf8Text(chunks[i].data))
  {
    forall i | 0 <= i < |chunks|
      ensures Shortest(chunks[i].num) <==> NoShorter(chunks[i].num)
    {
      ShortestLaw(chunks[i].num);
    }
    assert forall i | 0 <= i < |chunks| :: ChunkOk(text, chunks[i], f) <==>
        (f.shortestIntegrals ==> NoShorter(chunks[i].num)) && (text && f.utf8 ==> Utf8Text(chunks[i].data));
  }

  lemma PrimLaw(num: Num, f: Flags, fp: FloatCheck)
    requires WfNum(num) && (num.ai == 24 ==> num.arg >= 32)
    ensures (num.ai <= 24 ==> NumOk(num, f)) && PrimOk(num, f, fp) <==>
            && (f.shortestIntegrals ==> ShortHeads(Prim(num)))
            && SimpleLaw(Prim(num), f) && FloatLaw(Prim(num), f, fp)
  {
    ShortestLaw(num);
  }

  ghost predicate AllMeet(c: Cst, f: Flags, fp: FloatCheck)
    requires Wf(c)
  {
    forall d | Occurs(d, c) :: Wf(d) && Meets(d, f, fp)
  }

  /** An item is acceptable exactly if every item in it meets the laws of the flags that are set. */
  lemma {:induction false} AcceptLaw(c: Cst, f: Flags, fp: FloatCheck)
    requires Wf(c)
    ensures Accept(c, f, fp) <==> AllMeet(c, f, fp)
    decreases c
  {
    hide Meets;
    TopLaw(c, f, fp);
    assert Occurs(c, c);
    match c
    case Container(_, _, items) =>
      forall i | 0 <= i < |items|
        ensures Accept(items[i], f, fp) <==> AllMeet(items[i], f, fp)
      {
        AcceptLaw(items[i], f, fp);
      }
      InsideAll(c, f, fp);
    case Tag(_, item) =>
      AcceptLaw(item, f, fp);
      assert forall d :: Occurs(d, item) ==> Occurs(d, c);
    case _ =>
  }

  lemma InsideAll(c: Cst, f: Flags, fp: FloatCheck)
    requires Wf(c) && c.Container?
    ensures AllMeet(c, f, fp) <==>
            Meets(c, f, fp) && forall i | 0 <= i < |c.items| :: AllMeet(c.items[i], f, fp)
  {
    hide Meets;
    assert Occurs(c, c);
    forall i, d | 0 <= i < |c.items| && Occurs(d, c.items[i])
      ensures Occurs(d, c)
    {
    }
  }
}
