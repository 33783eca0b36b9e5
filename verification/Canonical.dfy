/**
 What the validator promises about an item (src/tinycbor/cborvalidation.c), as predicates on its
 tree, and what those promises are worth: canonical encodings are unique, and checking each map
 key against the one before it orders all of them.
 */
module Canonical {
  import opened Bytes
  import opened Wrappers
  import opened Syntax
  import opened Values
  import opened Limits
  import opened Places
  import opened Traversal
  import opened Utf8

  /** The bits of the validation flags; each field is one bit. */
  datatype Flags = Flags(
    shortestIntegrals: bool,
    shortestFloats: bool,
    noIndeterminateLength: bool,
    mapIsSorted: bool,
    mapKeysAreUnique: bool,
    tagUse: bool,
    utf8: bool,
    mapKeysAreString: bool,
    noUndefined: bool,
    noTags: bool,
    finiteFloats: bool,
    noUnknownSimpleTypesSA: bool,
    noUnknownSimpleTypes: bool,
    noUnknownTagsSA: bool,
    noUnknownTagsSR: bool,
    noUnknownTags: bool,
    completeData: bool)

  /** Every named constant that has the sorting bit also has the definite-length bit. */
  predicate Named(f: Flags) {
    f.mapIsSorted ==> f.noIndeterminateLength
  }

  /** The platform's opinion of a float: its type, its bits, and the two flags about floats. */
  type FloatCheck = (byte, nat, bool, bool) -> bool

  // ----- Map keys

  /** The number in an item's head. */
  function HeadNumber(c: Cst): nat {
    match c
    case Integer(_, num) => num.arg
    case String(_, false, chunks) => if chunks == [] then 0 else chunks[0].num.arg
    case Container(_, Some(num), _) => num.arg
    case Tag(num, _) => num.arg
    case Prim(num) => num.arg
    case _ => 0
  }

  /** `memcmp` over the shorter length. */
  function MemCmp(a: seq<byte>, b: seq<byte>): int {
    if a == [] || b == [] then 0
    else if a[0] != b[0] then a[0] as int - b[0] as int
    else MemCmp(a[1..], b[1..])
  }

  /** `memcmp`, with the shorter string first when one is a prefix of the other. */
  function CompareBytes(a: seq<byte>, b: seq<byte>): int {
    var r := MemCmp(a, b);
    if r != 0 then r else if |a| < |b| then -1 else if |a| > |b| then 1 else 0
  }

  /** The validator's order of keys: the head number, then the bytes. */
  predicate KeyLess(a: Cst, b: Cst)
    requires Wf(a) && Wf(b)
  {
    HeadNumber(a) < HeadNumber(b)
    || (HeadNumber(a) == HeadNumber(b) && CompareBytes(Serialize(a), Serialize(b)) < 0)
  }

  predicate IsTextKey(c: Cst) {
    var k := Strip(c);
    k.String? && k.text
  }

  /** The checks on a key that follows `prev`. */
  predicate KeyOk(prev: Option<Cst>, c: Cst, f: Flags)
    requires Wf(c) && (prev.Some? ==> Wf(prev.value))
  {
    && (f.mapKeysAreString ==> IsTextKey(c))
    && (prev.Some? && (f.mapIsSorted || f.noIndeterminateLength) ==>
          KeyLess(prev.value, c) || (!UniqueKeys(f) && HeadNumber(prev.value) == HeadNumber(c)
                                     && Serialize(prev.value) == Serialize(c)))
  }

  predicate UniqueKeys(f: Flags) {
    f.mapKeysAreUnique && f.mapIsSorted && f.noIndeterminateLength
  }

  // ----- Tags and simple values

  /** The type an item has for the iterator. */
  function TypeOf(c: Cst): byte {
    match c
    case Integer(_, _) => INTEGER
    case String(text, _, _) => if text then TEXT_STRING else BYTE_STRING
    case Container(isMap, _, _) => if isMap then MAP else ARRAY
    case Tag(_, _) => TAG
    case Prim(num) =>
      if num.ai == 20 || num.ai == 21 then BOOLEAN else if num.ai == 22 then NULL else if num.ai == 23 then UNDEFINED
      else if num.ai == 25 then HALF_FLOAT else if num.ai == 26 then FLOAT else if num.ai == 27 then DOUBLE
      else SIMPLE
  }

  /** The tags backed by an RFC and the types they go with; no types means any. */
  const KNOWN_TAGS: seq<(nat, seq<byte>)> := [
    (0, [TEXT_STRING]), (1, [INTEGER]), (2, [BYTE_STRING]), (3, [BYTE_STRING]), (4, [ARRAY]), (5, [ARRAY]),
    (16, [ARRAY]), (17, [ARRAY]), (18, [ARRAY]),
    (21, [BYTE_STRING, ARRAY, MAP]), (22, [BYTE_STRING, ARRAY, MAP]), (23, [BYTE_STRING, ARRAY, MAP]),
    (24, [BYTE_STRING]), (32, [TEXT_STRING]), (33, [TEXT_STRING]), (34, [TEXT_STRING]), (35, [TEXT_STRING]),
    (36, [TEXT_STRING]), (96, [ARRAY]), (97, [ARRAY]), (98, [ARRAY]), (55799, [])]

  predicate KnownTag(tag: nat) {
    exists i | 0 <= i < |KNOWN_TAGS| :: KNOWN_TAGS[i].0 == tag
  }

  /** The tag may be used, and on an item of this type. */
  predicate TagOk(tag: nat, t: byte, f: Flags) {
    && !f.noTags
    && (!KnownTag(tag) ==>
          && !(f.noUnknownTagsSA && tag < 24)
          && !(f.noUnknownTagsSR && f.noUnknownTagsSA && tag < 256)
          && !(f.noUnknownTags && f.noUnknownTagsSR && f.noUnknownTagsSA))
    && (f.tagUse ==>
          forall i | 0 <= i < |KNOWN_TAGS| && KNOWN_TAGS[i].0 == tag && KNOWN_TAGS[i].1 != [] :: t in KNOWN_TAGS[i].1)
  }

  predicate NumOk(num: Num, f: Flags) {
    f.shortestIntegrals ==> Shortest(num)
  }

  predicate PrimOk(num: Num, f: Flags, fp: FloatCheck) {
    if num.ai >= 25 then
      f.finiteFloats || f.shortestFloats ==> fp(TypeOf(Prim(num)), num.arg, f.finiteFloats, f.shortestFloats)
    else if 20 <= num.ai <= 22 then true
    else if num.ai == 23 then !f.noUndefined
    else SimpleOk(num.arg, f)
  }

  /** No simple type beyond those of RFC 7049 is registered, so a range that is checked allows none. */
  predicate SimpleOk(simple: nat, f: Flags) {
    !f.noUnknownSimpleTypesSA || (simple >= 32 && !f.noUnknownSimpleTypes)
  }

  ghost predicate ChunkOk(text: bool, c: Chunk, f: Flags) {
    NumOk(c.num, f) && (text && f.utf8 ==> Utf8Text(c.data))
  }

  // ----- The whole item

  ghost predicate Accept(c: Cst, f: Flags, fp: FloatCheck)
    requires Wf(c)
    decreases c
  {
    match c
    case Integer(_, num) => NumOk(num, f)
    case String(text, indefinite, chunks) =>
      (indefinite ==> !f.noIndeterminateLength) && forall i | 0 <= i < |chunks| :: ChunkOk(text, chunks[i], f)
    case Container(isMap, len, items) =>
      && (len.None? ==> !f.noIndeterminateLength) && (len.Some? ==> NumOk(len.value, f))
      && AcceptItems(None, items, isMap, f, fp)
    case Tag(num, item) => NumOk(num, f) && TagOk(num.arg, TypeOf(item), f) && Accept(item, f, fp)
    case Prim(num) => (num.ai <= 24 ==> NumOk(num, f)) && PrimOk(num, f, fp)
  }

  /** The items still to come in a container, when `prev` was the last key. */
  ghost predicate AcceptItems(prev: Option<Cst>, items: seq<Cst>, isMap: bool, f: Flags, fp: FloatCheck)
    requires WfAll(items) && (prev.Some? ==> Wf(prev.value))
    decreases items
  {
    if items == [] then true
    else if !isMap then Accept(items[0], f, fp) && AcceptItems(prev, items[1..], isMap, f, fp)
    else
      && |items| >= 2 && Accept(items[0], f, fp) && KeyOk(prev, items[0], f) && Accept(items[1], f, fp)
      && AcceptItems(Some(items[0]), items[2..], isMap, f, fp)
  }

  /** At most `n - 1` containers and tags together on any path, none too long to count. */
  predicate Shallow(c: Cst, n: nat)
    decreases c
  {
    match c
    case Container(isMap, len, items) => n > 1 && LenFits(isMap, len) && AllShallow(items, n - 1)
    case Tag(_, item) => n > 1 && Shallow(item, n - 1)
    case _ => true
  }

  predicate AllShallow(items: seq<Cst>, n: nat)
    decreases items
  {
    forall i | 0 <= i < |items| :: Shallow(items[i], n)
  }

  /** The recursion stays within the limits exactly if the levels and the lengths do. */
  lemma {:induction false} ShallowIs(c: Cst, n: nat)
    requires n > 0
    ensures Shallow(c, n) <==> Levels(c) < n && CountsFit(c)
    decreases c
  {
    match c
    case Container(_, _, items) =>
      if n > 1 {
        forall i | 0 <= i < |items| { ShallowIs(items[i], n - 1); }
        LevelsWithin(items, n - 2);
      }
    case Tag(_, item) =>
      if n > 1 {
        ShallowIs(item, n - 1);
      }
    case _ =>
  }

  // ----- Two traversals agree

  lemma {:induction false} FitsMore(c: Cst, n: nat)
    requires Fits(c, n)
    ensures Fits(c, n + 1)
    decreases c
  {
    match c
    case Container(_, _, items) => forall i | 0 <= i < |items| { FitsMore(items[i], n - 1); }
    case Tag(_, item) => FitsMore(item, n);
    case _ =>
  }

  /** Within the validator's limit is within the iterator's. */
  lemma {:induction false} ShallowFits(c: Cst, n: nat)
    requires Shallow(c, n)
    ensures Fits(c, n)
    decreases c
  {
    match c
    case Container(_, _, items) => forall i | 0 <= i < |items| { ShallowFits(items[i], n - 1); }
    case Tag(_, item) =>
      ShallowFits(item, n - 1);
      FitsMore(item, n - 1);
    case _ =>
  }

  const BASIC: Flags := Flags(false, false, false, false, false, false, false, false, false, false, false, false,
                              false, false, false, false, false)

  /** With no flags, every well-formed item is acceptable. */
  lemma {:induction false} BasicAccepts(c: Cst, fp: FloatCheck)
    requires Wf(c)
    ensures Accept(c, BASIC, fp)
    decreases c, 0
  {
    match c
    case Container(isMap, _, items) => BasicAcceptsItems(None, items, isMap, fp);
    case Tag(_, item) => BasicAccepts(item, fp);
    case _ =>
  }

  lemma {:induction false} BasicAcceptsItems(prev: Option<Cst>, items: seq<Cst>, isMap: bool, fp: FloatCheck)
    requires WfAll(items) && (prev.Some? ==> Wf(prev.value)) && (isMap ==> |items| % 2 == 0)
    ensures AcceptItems(prev, items, isMap, BASIC, fp)
    decreases items, 1
  {
    if items != [] {
      BasicAccepts(items[0], fp);
      if isMap {
        BasicAccepts(items[1], fp);
        BasicAcceptsItems(Some(items[0]), items[2..], isMap, fp);
      } else {
        BasicAcceptsItems(prev, items[1..], isMap, fp);
      }
    }
  }

  // ----- Canonical encodings are unique

  /** What the flags for shortest integers and definite lengths establish. */
  lemma {:induction false} AcceptCanonical(c: Cst, f: Flags, fp: FloatCheck)
    requires Wf(c) && f.shortestIntegrals && f.noIndeterminateLength && Accept(c, f, fp)
    ensures Canonical(c)
    decreases c, 0
  {
    match c
    case String(text, _, chunks) => assert ChunkOk(text, chunks[0], f);
    case Container(isMap, _, items) => AcceptItemsCanonical(None, items, isMap, f, fp);
    case Tag(_, item) => AcceptCanonical(item, f, fp);
    case _ =>
  }

  lemma {:induction false} AcceptItemsCanonical(
    prev: Option<Cst>, items: seq<Cst>, isMap: bool, f: Flags, fp: FloatCheck)
    requires WfAll(items) && (prev.Some? ==> Wf(prev.value))
    requires f.shortestIntegrals && f.noIndeterminateLength && AcceptItems(prev, items, isMap, f, fp)
    ensures forall i | 0 <= i < |items| :: Canonical(items[i])
    decreases items, 1
  {
    if items != [] {
      AcceptCanonical(items[0], f, fp);
      if isMap {
        AcceptCanonical(items[1], f, fp);
        AcceptItemsCanonical(Some(items[0]), items[2..], isMap, f, fp);
        assert forall i | 2 <= i < |items| :: items[i] == items[2..][i - 2];
      } else {
        AcceptItemsCanonical(prev, items[1..], isMap, f, fp);
        assert forall i | 1 <= i < |items| :: items[i] == items[1..][i - 1];
      }
    }
  }

  /** Re-encoding what was read gives back the bytes that were accepted. */
  lemma Reencode(c: Cst, f: Flags, fp: FloatCheck)
    requires Wf(c) && f.shortestIntegrals && f.noIndeterminateLength && Accept(c, f, fp)
    ensures Valid(ToValue(c)) && Encoding(ToValue(c)) == Serialize(c)
  {
    AcceptCanonical(c, f, fp);
    CanonicalIsCanon(c);
  }

  /** So two accepted encodings of one value are the same bytes. */
  lemma CanonicalUnique(a: Cst, b: Cst, f: Flags, fp: FloatCheck)
    requires Wf(a) && Wf(b) && f.shortestIntegrals && f.noIndeterminateLength
    requires Accept(a, f, fp) && Accept(b, f, fp) && ToValue(a) == ToValue(b)
    ensures Serialize(a) == Serialize(b)
  {
    Reencode(a, f, fp);
    Reencode(b, f, fp);
  }

  // ----- Checking neighbours orders all keys

  /** Lexicographic order of byte strings. */
  predicate LexLess(a: seq<byte>, b: seq<byte>) {
    b != [] && (a == [] || a[0] < b[0] || (a[0] == b[0] && LexLess(a[1..], b[1..])))
  }

  lemma {:induction false} CompareIsLex(a: seq<byte>, b: seq<byte>)
    ensures CompareBytes(a, b) < 0 <==> LexLess(a, b)
    ensures CompareBytes(a, b) == 0 <==> a == b
    decreases |a|
  {
    if a != [] && b != [] && a[0] == b[0] {
      CompareIsLex(a[1..], b[1..]);
      assert a == [a[0]] + a[1..] && b == [b[0]] + b[1..];
    }
  }

  lemma {:induction false} LexTransitive(a: seq<byte>, b: seq<byte>, c: seq<byte>)
    requires LexLess(a, b) && LexLess(b, c)
    ensures LexLess(a, c)
    decreases |a|
  {
    if a != [] && a[0] == b[0] == c[0] {
      LexTransitive(a[1..], b[1..], c[1..]);
    }
  }

  lemma KeyLessTransitive(a: Cst, b: Cst, c: Cst)
    requires Wf(a) && Wf(b) && Wf(c) && KeyLess(a, b) && KeyLess(b, c)
    ensures KeyLess(a, c)
  {
    CompareIsLex(Serialize(a), Serialize(b));
    CompareIsLex(Serialize(b), Serialize(c));
    CompareIsLex(Serialize(a), Serialize(c));
    if LexLess(Serialize(a), Serialize(b)) && LexLess(Serialize(b), Serialize(c)) {
      LexTransitive(Serialize(a), Serialize(b), Serialize(c));
    }
  }

  lemma KeyLessDistinct(a: Cst, b: Cst)
    requires Wf(a) && Wf(b) && KeyLess(a, b)
    ensures Serialize(a) != Serialize(b)
  {
    CompareIsLex(Serialize(a), Serialize(b));
    if Serialize(a) == Serialize(b) {
      SameBytes(a, b);
    }
  }

  /** Trees with the same bytes are the same tree. */
  lemma SameBytes(a: Cst, b: Cst)
    requires Wf(a) && Wf(b) && Serialize(a) == Serialize(b)
    ensures a == b
  {
    assert Sits(Serialize(a), 0, Serialize(a)) && Sits(Serialize(a), 0, Serialize(b));
    ParseComplete(Serialize(a), 0, a);
    ParseComplete(Serialize(a), 0, b);
  }

  /** The keys at the even places, from any start, are increasing. */
  predicate Increasing(items: seq<Cst>)
    requires WfAll(items)
  {
    forall i, j | 0 <= i < j < |items| && i % 2 == 0 && j % 2 == 0 :: KeyLess(items[i], items[j])
  }

  predicate AllAfter(prev: Option<Cst>, items: seq<Cst>)
    requires WfAll(items) && (prev.Some? ==> Wf(prev.value))
  {
    prev.Some? ==> forall i | 0 <= i < |items| && i % 2 == 0 :: KeyLess(prev.value, items[i])
  }

  lemma {:induction false} KeysIncrease(prev: Option<Cst>, items: seq<Cst>, f: Flags, fp: FloatCheck)
    requires WfAll(items) && (prev.Some? ==> Wf(prev.value))
    requires UniqueKeys(f) && AcceptItems(prev, items, true, f, fp)
    ensures Increasing(items) && AllAfter(prev, items)
    decreases |items|
  {
    if items != [] {
      var k, rest := items[0], items[2..];
      KeysIncrease(Some(k), rest, f, fp);
      assert forall j | 2 <= j < |items| :: items[j] == rest[j - 2];
      if prev.Some? {
        forall i | 2 <= i < |items| && i % 2 == 0
          ensures KeyLess(prev.value, items[i])
        {
          assert (i - 2) % 2 == 0 && items[i] == rest[i - 2];
          KeyLessTransitive(prev.value, k, items[i]);
        }
      }
      forall i, j | 0 <= i < j < |items| && i % 2 == 0 && j % 2 == 0
        ensures KeyLess(items[i], items[j])
      {
        assert (j - 2) % 2 == 0 && items[j] == rest[j - 2];
        if i > 0 {
          assert (i - 2) % 2 == 0 && items[i] == rest[i - 2];
        }
      }
    }
  }

  /** Every map in the tree has increasing keys. */
  predicate KeysInOrder(c: Cst)
    requires Wf(c)
    decreases c
  {
    match c
    case Container(isMap, _, items) =>
      (isMap ==> Increasing(items)) && AllInOrder(items)
    case Tag(_, item) => KeysInOrder(item)
    case _ => true
  }

  predicate AllInOrder(items: seq<Cst>)
    requires WfAll(items)
    decreases items
  {
    forall i | 0 <= i < |items| :: KeysInOrder(items[i])
  }

  lemma {:induction false} AcceptedItem(
    prev: Option<Cst>, items: seq<Cst>, isMap: bool, f: Flags, fp: FloatCheck, i: nat)
    requires WfAll(items) && (prev.Some? ==> Wf(prev.value)) && i < |items|
    requires AcceptItems(prev, items, isMap, f, fp)
    ensures Accept(items[i], f, fp)
    decreases |items|
  {
    if isMap && i >= 2 {
      AcceptedItem(Some(items[0]), items[2..], isMap, f, fp, i - 2);
    } else if !isMap && i >= 1 {
      AcceptedItem(prev, items[1..], isMap, f, fp, i - 1);
    }
  }

  /** An item accepted with unique keys has, in every map, keys that increase and so differ. */
  lemma {:induction false} UniqueInOrder(c: Cst, f: Flags, fp: FloatCheck)
    requires Wf(c) && UniqueKeys(f) && Accept(c, f, fp)
    ensures KeysInOrder(c)
    decreases c
  {
    match c
    case Container(isMap, _, items) =>
      if isMap {
        KeysIncrease(None, items, f, fp);
      }
      forall i | 0 <= i < |items|
        ensures KeysInOrder(items[i])
      {
        AcceptedItem(None, items, isMap, f, fp, i);
        UniqueInOrder(items[i], f, fp);
      }
    case Tag(_, item) => UniqueInOrder(item, f, fp);
    case _ =>
  }

  lemma IncreasingKeysDiffer(items: seq<Cst>)
    requires WfAll(items) && Increasing(items)
    ensures NoTwins(items)
  {
    forall i, j | 0 <= i < j < |items| && i % 2 == 0 && j % 2 == 0
      ensures Serialize(items[i]) != Serialize(items[j])
    {
      KeyLessDistinct(items[i], items[j]);
    }
  }

  /** No two keys of these keys and values have the same encoding. */
  predicate NoTwins(items: seq<Cst>)
    requires WfAll(items)
  {
    forall i, j | 0 <= i < j < |items| && i % 2 == 0 && j % 2 == 0 :: Serialize(items[i]) != Serialize(items[j])
  }

  /** No map at any depth has two keys with the same encoding. */
  predicate KeysDistinct(c: Cst)
    requires Wf(c)
    decreases c
  {
    match c
    case Container(isMap, _, items) =>
      (isMap ==> NoTwins(items)) && AllDistinct(items)
    case Tag(_, item) => KeysDistinct(item)
    case _ => true
  }

  predicate AllDistinct(items: seq<Cst>)
    requires WfAll(items)
    decreases items
  {
    forall i | 0 <= i < |items| :: KeysDistinct(items[i])
  }

  lemma {:induction false} InOrderDistinct(c: Cst)
    requires Wf(c) && KeysInOrder(c)
    ensures KeysDistinct(c)
    decreases c
  {
    match c
    case Container(isMap, _, items) =>
      if isMap {
        IncreasingKeysDiffer(items);
      }
      forall i | 0 <= i < |items|
        ensures KeysDistinct(items[i])
      {
        InOrderDistinct(items[i]);
      }
    case Tag(_, item) => InOrderDistinct(item);
    case _ =>
  }
}
