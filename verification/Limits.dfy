/**
 The limits of the source, in plain numbers: how deep an item nests and how long its definite
 containers are. Indefinite lengths are free.
 */
module Limits {
  import opened Syntax

  function Max(a: nat, b: nat): nat {
    if a < b then b else a
  }

  /** The largest number of containers on any path. */
  function Depth(c: Cst): nat
    decreases c
  {
    match c
    case Container(_, _, items) => 1 + Deepest(items)
    case Tag(_, item) => Depth(item)
    case _ => 0
  }

  function Deepest(items: seq<Cst>): nat
    decreases items
  {
    if items == [] then 0 else Max(Depth(items[0]), Deepest(items[1..]))
  }

  /** The largest number of containers and tags on any path. */
  function Levels(c: Cst): nat
    decreases c
  {
    match c
    case Container(_, _, items) => 1 + MostLevels(items)
    case Tag(_, item) => 1 + Levels(item)
    case _ => 0
  }

  function MostLevels(items: seq<Cst>): nat
    decreases items
  {
    if items == [] then 0 else Max(Levels(items[0]), MostLevels(items[1..]))
  }

  /** No definite array announces 2^32 - 1 items or more, no definite map 2^31 pairs or more. */
  predicate CountsFit(c: Cst)
    decreases c
  {
    match c
    case Container(isMap, len, items) =>
      && (len.Some? ==> len.value.arg < if isMap then 0x8000_0000 else 0xffff_ffff)
      && forall i | 0 <= i < |items| :: CountsFit(items[i])
    case Tag(_, item) => CountsFit(item)
    case _ => true
  }

  lemma {:induction false} DeepestWithin(items: seq<Cst>, n: nat)
    ensures Deepest(items) <= n <==> forall i | 0 <= i < |items| :: Depth(items[i]) <= n
  {
    if items != [] {
      DeepestWithin(items[1..], n);
      assert forall i | 0 < i < |items| :: items[i] == items[1..][i - 1];
    }
  }

  lemma {:induction false} LevelsWithin(items: seq<Cst>, n: nat)
    ensures MostLevels(items) <= n <==> forall i | 0 <= i < |items| :: Levels(items[i]) <= n
  {
    if items != [] {
      LevelsWithin(items[1..], n);
      assert forall i | 0 < i < |items| :: items[i] == items[1..][i - 1];
    }
  }

  /** Every container takes at least a byte, so an item is never deeper than it is long. */
  lemma {:induction false} DepthBounded(c: Cst)
    requires Wf(c)
    ensures Depth(c) <= |Serialize(c)|
    decreases c
  {
    match c
    case Container(_, _, items) =>
      forall i | 0 <= i < |items|
        ensures Depth(items[i]) <= |SerializeAll(items)|
      {
        ItemShorter(items, i);
        DepthBounded(items[i]);
      }
      DeepestWithin(items, |SerializeAll(items)|);
    case Tag(_, item) => DepthBounded(item);
    case _ =>
  }

  lemma {:induction false} ItemShorter(items: seq<Cst>, i: nat)
    requires WfAll(items) && i < |items|
    ensures |Serialize(items[i])| <= |SerializeAll(items)|
    decreases |items|
  {
    if i > 0 {
      ItemShorter(items[1..], i - 1);
    }
  }
}
