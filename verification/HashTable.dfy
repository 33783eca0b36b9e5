/**
 The chained hash table of thirdparty/argtable3/arg_hashtable.c. It holds entries in buckets by
 hash, moves them all to a longer table when there are too many, and behaves as a finite map as
 long as no key is inserted that it already has.
 */
module HashTables {
  import opened Wrappers

  datatype Pair<K, V> = Pair(key: K, value: V)

  /** A bucket: its entries, linked. */
  datatype Chain<K, V> = Nil | Entry(h: nat, k: K, v: V, next: Chain<K, V>)

  const PRIMES: seq<nat> := [
    53, 97, 193, 389, 769, 1543, 3079, 6151, 12289, 24593, 49157, 98317, 196613, 393241, 786433, 1572869,
    3145739, 6291469, 12582917, 25165843, 50331653, 100663319, 201326611, 402653189, 805306457, 1610612741]

  const PRIME_COUNT: nat := 26

  function PrimeAt(i: nat): (n: nat)
    requires i < PRIME_COUNT
    ensures n > 0
  {
    PRIMES[i]
  }

  /** The lengths go up, each about twice the one before it. */
  lemma PrimesDouble(i: nat)
    requires i + 1 < PRIME_COUNT
    ensures PrimeAt(i) < PrimeAt(i + 1)
    ensures 2 * PrimeAt(i) - 200 < PrimeAt(i + 1) < 2 * PrimeAt(i) + 100
  {
  }

  lemma {:induction false} PrimesAscend(i: nat, j: nat)
    requires i < j < PRIME_COUNT
    ensures PrimeAt(i) < PrimeAt(j)
  {
    hide PrimeAt;
    PrimesDouble(j - 1);
    if i < j - 1 {
      PrimesAscend(i, j - 1);
    }
  }

  /** `enhanced_hash`, on 32-bit words. */
  function Mix(x: bv32): bv32 {
    Fold10(Scale(Fold14(Spread(x))))
  }

  function Spread(x: bv32): bv32 {
    x + !(x << 9)
  }

  function Fold14(x: bv32): bv32 {
    x ^ ((x >> 14) | (x << 18))
  }

  function Scale(x: bv32): bv32 {
    x + (x << 4)
  }

  function Fold10(x: bv32): bv32 {
    x ^ ((x >> 10) | (x << 22))
  }

  /** The first step sends 0 to -1 and 1 to -512. */
  lemma SpreadIs()
    ensures Spread(0) == 0xffff_ffff && Spread(1) == 0xffff_fe00
  {
  }

  /** The others fold in a rotation by 14, */
  lemma Fold14Is(x: bv32)
    ensures Fold14(x) == x ^ x.RotateRight(14)
  {
  }

  /** multiply by 17, */
  lemma ScaleIs(x: bv32)
    ensures Scale(x) == 17 * x
  {
  }

  /** and fold in a rotation by 10. */
  lemma Fold10Is(x: bv32)
    ensures Fold10(x) == x ^ x.RotateRight(10)
  {
  }

  function Hash<K>(hashfn: K -> bv32, k: K): nat {
    Mix(hashfn(k)) as nat
  }

  // ----- Entries of chains and tables

  ghost function Items<K, V>(c: Chain<K, V>): multiset<Pair<K, V>> {
    match c
    case Nil => multiset{}
    case Entry(_, k, v, next) => multiset{Pair(k, v)} + Items(next)
  }

  ghost function TableItems<K, V>(t: seq<Chain<K, V>>): multiset<Pair<K, V>> {
    if t == [] then multiset{} else Items(t[0]) + TableItems(t[1..])
  }

  /** Every entry carries its hash and is in the bucket its hash says. */
  ghost predicate Placed<K, V>(c: Chain<K, V>, hashfn: K -> bv32, length: nat, i: nat)
    requires length > 0
  {
    match c
    case Nil => true
    case Entry(h, k, _, next) => h == Hash(hashfn, k) && h % length == i && Placed(next, hashfn, length, i)
  }

  ghost predicate AllPlaced<K, V>(t: seq<Chain<K, V>>, hashfn: K -> bv32) {
    forall i | 0 <= i < |t| :: Placed(t[i], hashfn, |t|, i)
  }

  /** Adding an entry to a bucket adds it to the table. */
  lemma {:induction false} Pushed<K, V>(t: seq<Chain<K, V>>, i: nat, h: nat, k: K, v: V)
    requires i < |t|
    ensures TableItems(t[i := Entry(h, k, v, t[i])]) == TableItems(t) + multiset{Pair(k, v)}
  {
    var t' := t[i := Entry(h, k, v, t[i])];
    if i == 0 {
      assert t'[1..] == t[1..];
    } else {
      Pushed(t[1..], i - 1, h, k, v);
      assert t'[1..] == t[1..][i - 1 := Entry(h, k, v, t[1..][i - 1])];
    }
  }

  /** Replacing a bucket by one that lacks an entry takes that entry out of the table. */
  lemma {:induction false} Dropped<K, V>(t: seq<Chain<K, V>>, i: nat, c: Chain<K, V>, p: Pair<K, V>)
    requires i < |t| && Items(t[i]) == Items(c) + multiset{p}
    ensures TableItems(t) == TableItems(t[i := c]) + multiset{p}
  {
    var t' := t[i := c];
    if i == 0 {
      assert t'[1..] == t[1..];
      Reorder(Items(c), TableItems(t[1..]), p);
    } else {
      Dropped(t[1..], i - 1, c, p);
      assert t'[1..] == t[1..][i - 1 := c];
      assert t'[0] == t[0];
      Associate(Items(t[0]), TableItems(t'[1..]), p);
    }
  }

  lemma Reorder<T>(a: multiset<T>, b: multiset<T>, p: T)
    ensures (a + multiset{p}) + b == (a + b) + multiset{p}
  {
  }

  lemma Associate<T>(a: multiset<T>, b: multiset<T>, p: T)
    ensures a + (b + multiset{p}) == (a + b) + multiset{p}
  {
  }

  lemma PlacedUpdate<K, V>(t: seq<Chain<K, V>>, hashfn: K -> bv32, i: nat, c: Chain<K, V>)
    requires i < |t| && AllPlaced(t, hashfn) && Placed(c, hashfn, |t|, i)
    ensures AllPlaced(t[i := c], hashfn)
  {
  }

  lemma PlacedEmpty<K, V>(t: seq<Chain<K, V>>, hashfn: K -> bv32)
    requires forall i | 0 <= i < |t| :: t[i].Nil?
    ensures AllPlaced(t, hashfn)
  {
  }

  lemma PlacedPush<K, V>(t: seq<Chain<K, V>>, hashfn: K -> bv32, k: K, v: V)
    requires |t| > 0 && AllPlaced(t, hashfn)
    ensures var h := Hash(hashfn, k);
            AllPlaced(t[h % |t| := Entry(h, k, v, t[h % |t|])], hashfn)
  {
    hide Hash;
  }

  lemma {:induction false} TableEmpty<K, V>(t: seq<Chain<K, V>>)
    requires forall i | 0 <= i < |t| :: t[i].Nil?
    ensures TableItems(t) == multiset{}
  {
    if t != [] {
      TableEmpty(t[1..]);
    }
  }

  /** An entry is in the table exactly if it is in the bucket of its key. */
  lemma {:induction false} TableHas<K, V>(t: seq<Chain<K, V>>, p: Pair<K, V>)
    ensures p in TableItems(t) <==> exists i | 0 <= i < |t| :: p in Items(t[i])
  {
    if t != [] {
      TableHas(t[1..], p);
      if i :| 0 <= i < |t| && p in Items(t[i]) {
        assert i > 0 ==> t[1..][i - 1] == t[i];
      }
      if i :| 0 <= i < |t[1..]| && p in Items(t[1..][i]) {
        assert t[1..][i] == t[i + 1];
      }
    }
  }

  lemma {:induction false} PlacedItem<K, V>(c: Chain<K, V>, hashfn: K -> bv32, length: nat, i: nat, p: Pair<K, V>)
    requires length > 0 && Placed(c, hashfn, length, i) && p in Items(c)
    ensures Hash(hashfn, p.key) % length == i
  {
    if Pair(c.k, c.v) != p {
      PlacedItem(c.next, hashfn, length, i, p);
    }
  }

  lemma InBucket<K, V>(t: seq<Chain<K, V>>, hashfn: K -> bv32, p: Pair<K, V>)
    requires |t| > 0 && AllPlaced(t, hashfn)
    ensures p in TableItems(t) <==> p in Items(t[Hash(hashfn, p.key) % |t|])
  {
    TableHas(t, p);
    if i :| 0 <= i < |t| && p in Items(t[i]) {
      PlacedItem(t[i], hashfn, |t|, i, p);
    }
  }

  // ----- Following and changing links

  /** The chain behind `depth` links. */
  function Skip<K, V>(c: Chain<K, V>, depth: nat): Chain<K, V> {
    if depth == 0 || c.Nil? then c else Skip(c.next, depth - 1)
  }

  /** The chain with its link number `depth` pointed elsewhere. */
  function Relink<K, V>(c: Chain<K, V>, depth: nat, to: Chain<K, V>): Chain<K, V> {
    if depth == 0 || c.Nil? then to else c.(next := Relink(c.next, depth - 1, to))
  }

  lemma {:induction false} SkipOne<K, V>(c: Chain<K, V>, depth: nat)
    requires Skip(c, depth).Entry?
    ensures Skip(c, depth + 1) == Skip(c, depth).next
  {
    if depth > 0 {
      SkipOne(c.next, depth - 1);
    }
  }

  lemma {:induction false} Unlinked<K, V>(c: Chain<K, V>, depth: nat, hashfn: K -> bv32, length: nat, i: nat)
    requires length > 0 && Placed(c, hashfn, length, i) && Skip(c, depth).Entry?
    ensures var e := Skip(c, depth);
            && Items(c) == Items(Relink(c, depth, e.next)) + multiset{Pair(e.k, e.v)}
            && Placed(Relink(c, depth, e.next), hashfn, length, i)
  {
    if depth > 0 {
      Unlinked(c.next, depth - 1, hashfn, length, i);
    }
  }

  /** No entry of the bucket before `e` has a key equal to `k`. */
  ghost predicate Passed<K(!new), V(!new)>(c: Chain<K, V>, e: Chain<K, V>, eqfn: (K, K) -> bool, k: K) {
    Items(e) <= Items(c) && forall p | p in Items(c) && eqfn(k, p.key) :: p in Items(e)
  }

  ghost predicate AllHashed<K, V>(c: Chain<K, V>, hashfn: K -> bv32) {
    c.Entry? ==> c.h == Hash(hashfn, c.k) && AllHashed(c.next, hashfn)
  }

  lemma {:induction false} PlacedHashed<K, V>(c: Chain<K, V>, hashfn: K -> bv32, length: nat, i: nat)
    requires length > 0 && Placed(c, hashfn, length, i)
    ensures AllHashed(c, hashfn)
  {
    if c.Entry? {
      PlacedHashed(c.next, hashfn, length, i);
    }
  }

  lemma WalkStart<K(!new), V(!new)>(t: seq<Chain<K, V>>, hashfn: K -> bv32, eqfn: (K, K) -> bool, k: K, i: nat)
    requires i < |t| && AllPlaced(t, hashfn)
    ensures Passed(t[i], t[i], eqfn, k) && AllHashed(t[i], hashfn)
  {
    PlacedHashed(t[i], hashfn, |t|, i);
  }

  lemma PassOne<K(!new), V(!new)>(c: Chain<K, V>, e: Chain<K, V>, hashfn: K -> bv32, eqfn: (K, K) -> bool, k: K)
    requires e.Entry? && Passed(c, e, eqfn, k) && AllHashed(e, hashfn)
    requires !(Hash(hashfn, k) == e.h && eqfn(k, e.k))
    requires forall a, b :: eqfn(a, b) ==> hashfn(a) == hashfn(b)
    ensures Passed(c, e.next, eqfn, k)
  {
  }

  lemma FoundInTable<K(!new), V(!new)>(
    t: seq<Chain<K, V>>, hashfn: K -> bv32, eqfn: (K, K) -> bool, k: K, i: nat, e: Chain<K, V>)
    requires i < |t| && e.Entry? && Passed(t[i], e, eqfn, k)
    ensures Pair(e.k, e.v) in TableItems(t)
  {
    assert Pair(e.k, e.v) in Items(e);
    TableHas(t, Pair(e.k, e.v));
  }

  /** A key equal to the one searched for has its hash, and so is in the bucket searched. */
  lemma NotInTable<K(!new), V(!new)>(t: seq<Chain<K, V>>, hashfn: K -> bv32, eqfn: (K, K) -> bool, k: K)
    requires |t| > 0 && AllPlaced(t, hashfn) && (forall a, b :: eqfn(a, b) ==> hashfn(a) == hashfn(b))
    requires Passed(t[Hash(hashfn, k) % |t|], Nil, eqfn, k)
    ensures forall p | p in TableItems(t) :: !eqfn(k, p.key)
  {
    forall p | p in TableItems(t)
      ensures !eqfn(k, p.key)
    {
      InBucket(t, hashfn, p);
    }
  }

  // ----- The table

  class HashTable<K(==, !new), V(==, !new)> {
    var table: array<Chain<K, V>>
    var primeIndex: nat
    var entryCount: nat
    var loadLimit: nat
    const hashfn: K -> bv32
    const eqfn: (K, K) -> bool
    /** How many entries a table of a length takes before it grows. */
    const limit: nat -> nat

    ghost predicate Valid()
      reads this, table
    {
      && primeIndex < PRIME_COUNT && table.Length == PrimeAt(primeIndex)
      && AllPlaced(table[..], hashfn)
      && entryCount == |Contents()|
      && loadLimit == limit(table.Length)
      && forall a, b :: eqfn(a, b) ==> hashfn(a) == hashfn(b)
    }

    ghost function Contents(): multiset<Pair<K, V>>
      reads this, table
    {
      TableItems(table[..])
    }

    /** `index_for`. */
    function IndexFor(h: nat): (i: nat)
      reads this
      requires table.Length > 0
      ensures i < table.Length
    {
      h % table.Length
    }

    constructor (size: nat, index: nat, hashfn: K -> bv32, eqfn: (K, K) -> bool, limit: nat -> nat)
      requires index < PRIME_COUNT && size == PrimeAt(index)
      requires forall a, b :: eqfn(a, b) ==> hashfn(a) == hashfn(b)
      ensures Valid() && Contents() == multiset{} && fresh(table)
      ensures this.eqfn == eqfn && this.hashfn == hashfn && primeIndex == index
    {
      table := new Chain<K, V>[size](_ => Nil);
      primeIndex, entryCount, loadLimit := index, 0, limit(size);
      this.hashfn, this.eqfn, this.limit := hashfn, eqfn, limit;
      new;
      TableEmpty(table[..]);
    }

    /** Moves every entry to a table of the next length; the last length stays. */
    method Expand() returns (done: bool)
      requires Valid()
      modifies this, table
      ensures Valid() && Contents() == old(Contents()) && entryCount == old(entryCount)
      ensures done <==> old(primeIndex) < PRIME_COUNT - 1
      ensures primeIndex == if done then old(primeIndex) + 1 else old(primeIndex)
      ensures table == old(table) || fresh(table)
    {
      hide PrimeAt, AllPlaced;
      if primeIndex == PRIME_COUNT - 1 {
        return false;
      }
      primeIndex := primeIndex + 1;
      var newSize := PrimeAt(primeIndex);
      var newTable := new Chain<K, V>[newSize](_ => Nil);
      TableEmpty(newTable[..]);
      PlacedEmpty(newTable[..], hashfn);
      Transfer(table, newTable, hashfn);
      table := newTable;
      loadLimit := limit(newSize);
      return true;
    }

    method Insert(k: K, v: V)
      requires Valid()
      modifies this, table
      ensures Valid() && Contents() == old(Contents()) + multiset{Pair(k, v)}
      ensures table == old(table) || fresh(table)
      ensures primeIndex == if old(entryCount) + 1 > old(loadLimit) && old(primeIndex) < 25 then old(primeIndex) + 1
                            else old(primeIndex)
      ensures primeIndex > old(primeIndex) ==> table.Length > old(table.Length)
      ensures primeIndex == old(primeIndex) ==> table.Length == old(table.Length)
    {
      hide PrimeAt, AllPlaced;
      if primeIndex < 25 {
        PrimesDouble(primeIndex);
      }
      if entryCount + 1 > loadLimit {
        var done := Expand();
      }
      Link(k, v);
    }

    /** A new entry at the head of its bucket. */
    method Link(k: K, v: V)
      requires Valid()
      modifies table, `entryCount
      ensures Valid() && Contents() == old(Contents()) + multiset{Pair(k, v)}
    {
      hide Hash, AllPlaced, PrimeAt;
      var h := Hash(hashfn, k);
      var index := IndexFor(h);
      ghost var t := table[..];
      Pushed(t, index, h, k, v);
      PlacedPush(t, hashfn, k, v);
      table[index] := Entry(h, k, v, table[index]);
      assert table[..] == t[index := Entry(h, k, v, t[index])];
      entryCount := entryCount + 1;
    }

    /** The walk that search and remove share: the first entry of the bucket with an equal key. */
    method Walk(k: K) returns (index: nat, depth: nat, e: Chain<K, V>)
      requires Valid()
      ensures index < table.Length && e == Skip(table[index], depth)
      ensures e.Nil? ==> forall p | p in Contents() :: !eqfn(k, p.key)
      ensures e.Entry? ==> eqfn(k, e.k) && Pair(e.k, e.v) in Contents()
    {
      hide Hash, Passed, AllPlaced, PrimeAt;
      var h := Hash(hashfn, k);
      index, depth := IndexFor(h), 0;
      e := table[index];
      ghost var t, c := table[..], e;
      assert c == t[index];
      WalkStart(t, hashfn, eqfn, k, index);
      while e.Entry?
        invariant e == Skip(c, depth) && Passed(c, e, eqfn, k)
        invariant AllHashed(e, hashfn)
        decreases e
      {
        if h == e.h && eqfn(k, e.k) {
          FoundInTable(t, hashfn, eqfn, k, index, e);
          return;
        }
        SkipOne(c, depth);
        PassOne(c, e, hashfn, eqfn, k);
        e, depth := e.next, depth + 1;
      }
      NotInTable(t, hashfn, eqfn, k);
    }

    method Search(k: K) returns (v: Option<V>)
      requires Valid()
      ensures v.None? <==> forall p | p in Contents() :: !eqfn(k, p.key)
      ensures v.Some? ==> exists p | p in Contents() :: eqfn(k, p.key) && p.value == v.value
    {
      var index, depth, e := Walk(k);
      v := if e.Entry? then Some(e.v) else None;
    }

    /** Takes out one entry with an equal key, if there is one. */
    method Remove(k: K)
      requires Valid()
      modifies this, table
      ensures Valid() && table == old(table)
      ensures (forall p | p in old(Contents()) :: !eqfn(k, p.key)) ==> Contents() == old(Contents())
      ensures (exists p | p in old(Contents()) :: eqfn(k, p.key)) ==>
                exists p | p in old(Contents()) :: eqfn(k, p.key) && old(Contents()) == Contents() + multiset{p}
    {
      var index, depth, e := Walk(k);
      if e.Entry? {
        ghost var t := table[..];
        var c := Relink(table[index], depth, e.next);
        Unlinked(t[index], depth, hashfn, table.Length, index);
        Dropped(t, index, c, Pair(e.k, e.v));
        PlacedUpdate(t, hashfn, index, c);
        table[index] := c;
        assert table[..] == t[index := c];
        entryCount := entryCount - 1;
      }
    }
  }

  /** A table with the first prime length above `minSize`; none for sizes above 2^30. */
  method Create<K(==, !new), V(==, !new)>(minSize: nat, hashfn: K -> bv32, eqfn: (K, K) -> bool, limit: nat -> nat)
    returns (h: HashTable?<K, V>)
    requires forall a, b :: eqfn(a, b) ==> hashfn(a) == hashfn(b)
    ensures h == null <==> minSize > 0x4000_0000
    ensures h != null ==>
              && fresh(h) && fresh(h.table) && h.Valid() && h.Contents() == multiset{} && h.eqfn == eqfn
              && h.table.Length > minSize && h.primeIndex < PRIME_COUNT
              && forall i | 0 <= i < h.primeIndex :: PrimeAt(i) <= minSize
  {
    if minSize > 0x4000_0000 {
      return null;
    }
    var index := 0;
    while PrimeAt(index) <= minSize
      invariant index < PRIME_COUNT && forall i | 0 <= i < index :: PrimeAt(i) <= minSize
      decreases PRIME_COUNT - index
    {
      assert index < 25 by {
        assert PrimeAt(25) == 1610612741;
      }
      index := index + 1;
    }
    h := new HashTable(PrimeAt(index), index, hashfn, eqfn, limit);
  }

  ghost function Both<K, V>(a: seq<Chain<K, V>>, b: seq<Chain<K, V>>): multiset<Pair<K, V>> {
    TableItems(a) + TableItems(b)
  }

  method MoveOne<K, V>(table: array<Chain<K, V>>, i: nat, newTable: array<Chain<K, V>>, index: nat, hashfn: K -> bv32)
    requires table != newTable && i < table.Length && index < newTable.Length
    requires AllPlaced(table[..], hashfn) && AllPlaced(newTable[..], hashfn)
    requires table[i].Entry? && index == table[i].h % newTable.Length
    modifies table, newTable
    ensures AllPlaced(table[..], hashfn) && AllPlaced(newTable[..], hashfn)
    ensures table[..] == old(table[..][i := table[i].next])
    ensures Both(newTable[..], table[..]) == old(Both(newTable[..], table[..]))
  {
    var e := table[i];
    ghost var t, n := table[..], newTable[..];
    table[i] := e.next;
    newTable[index] := e.(next := newTable[index]);
    assert table[..] == t[i := e.next] && newTable[..] == n[index := Entry(e.h, e.k, e.v, n[index])];
    assert Placed(t[i], hashfn, |t|, i);
    PlacedUpdate(t, hashfn, i, e.next);
    PlacedUpdate(n, hashfn, index, Entry(e.h, e.k, e.v, n[index]));
    Pushed(n, index, e.h, e.k, e.v);
    Dropped(t, i, e.next, Pair(e.k, e.v));
  }

  /** Entries leave one table from the front and enter the other at the front. */
  method Transfer<K, V>(table: array<Chain<K, V>>, newTable: array<Chain<K, V>>, hashfn: K -> bv32)
    requires table != newTable && newTable.Length > 0
    requires AllPlaced(table[..], hashfn) && AllPlaced(newTable[..], hashfn)
    modifies table, newTable
    ensures AllPlaced(newTable[..], hashfn)
    ensures TableItems(newTable[..]) == old(TableItems(newTable[..])) + old(TableItems(table[..]))
  {
    hide AllPlaced, Both;
    ghost var n, t := newTable[..], table[..];
    ghost var all := Both(n, t);
    var i := 0;
    while i < table.Length
      invariant 0 <= i <= table.Length
      invariant forall j | 0 <= j < i :: table[j].Nil?
      invariant AllPlaced(table[..], hashfn) && AllPlaced(newTable[..], hashfn)
      invariant Both(newTable[..], table[..]) == all
    {
      while table[i].Entry?
        invariant forall j | 0 <= j < i :: table[j].Nil?
        invariant AllPlaced(table[..], hashfn) && AllPlaced(newTable[..], hashfn)
        invariant Both(newTable[..], table[..]) == all
        decreases table[i]
      {
        var e := table[i];
        var index := e.h % newTable.Length;
        MoveOne(table, i, newTable, index, hashfn);
      }
      i := i + 1;
    }
    TableEmpty(table[..]);
    BothEmpty(newTable[..], table[..]);
    BothSum(n, t);
  }

  lemma BothEmpty<K, V>(a: seq<Chain<K, V>>, b: seq<Chain<K, V>>)
    requires TableItems(b) == multiset{}
    ensures Both(a, b) == TableItems(a)
  {
  }

  lemma BothSum<K, V>(a: seq<Chain<K, V>>, b: seq<Chain<K, V>>)
    ensures Both(a, b) == TableItems(a) + TableItems(b)
  {
  }

  // ----- Runs

  datatype Op<K, V> = Insert(k: K, v: V) | Search(k: K) | Remove(k: K)

  /** What an operation does to a map, and what it returns; `id` says which keys are equal. */
  ghost function Step<K, V, C>(m: map<C, V>, id: K -> C, op: Op<K, V>): map<C, V> {
    match op
    case Insert(k, v) => m[id(k) := v]
    case Search(k) => m
    case Remove(k) => m - {id(k)}
  }

  ghost function Found<K, V, C>(m: map<C, V>, id: K -> C, op: Op<K, V>): Option<V> {
    if op.Search? && id(op.k) in m then Some(m[id(op.k)]) else None
  }

  ghost function Final<K, V, C>(m: map<C, V>, id: K -> C, ops: seq<Op<K, V>>): map<C, V>
    decreases |ops|
  {
    if ops == [] then m else Final(Step(m, id, ops[0]), id, ops[1..])
  }

  ghost function AllFound<K, V, C>(m: map<C, V>, id: K -> C, ops: seq<Op<K, V>>): seq<Option<V>>
    decreases |ops|
  {
    if ops == [] then [] else [Found(m, id, ops[0])] + AllFound(Step(m, id, ops[0]), id, ops[1..])
  }

  /** No key is inserted while an equal one is there. */
  ghost predicate Distinct<K, V, C>(m: map<C, V>, id: K -> C, ops: seq<Op<K, V>>)
    decreases |ops|
  {
    ops != [] ==> (ops[0].Insert? ==> id(ops[0].k) !in m) && Distinct(Step(m, id, ops[0]), id, ops[1..])
  }

  /** The entries are those of the map, each once. */
  ghost predicate Models<K(!new), V(!new), C(!new)>(s: multiset<Pair<K, V>>, id: K -> C, m: map<C, V>) {
    InMap(s, id, m) && OnceEach(s, id) && Covers(s, id, m) && |s| == |m|
  }

  ghost predicate InMap<K(!new), V(!new), C(!new)>(s: multiset<Pair<K, V>>, id: K -> C, m: map<C, V>) {
    forall p | p in s :: id(p.key) in m && m[id(p.key)] == p.value
  }

  ghost predicate OnceEach<K(!new), V(!new), C(!new)>(s: multiset<Pair<K, V>>, id: K -> C) {
    && (forall p | p in s :: s[p] == 1)
    && (forall p, q | p in s && q in s :: id(p.key) == id(q.key) ==> p == q)
  }

  ghost predicate Covers<K(!new), V(!new), C(!new)>(s: multiset<Pair<K, V>>, id: K -> C, m: map<C, V>) {
    forall c | c in m :: exists p | p in s :: id(p.key) == c
  }

  lemma ModelsInsert<K(!new), V(!new), C(!new)>(s: multiset<Pair<K, V>>, id: K -> C, m: map<C, V>, k: K, v: V)
    requires Models(s, id, m) && id(k) !in m
    ensures Models(s + multiset{Pair(k, v)}, id, m[id(k) := v])
  {
    OneMoreKey(m, id(k), v);
    OnceMore(s, id, m, k, v);
    CoversMore(s, id, m, k, v);
    hide OnceEach, Covers;
    var s' := s + multiset{Pair(k, v)};
    assert forall p | p in s' :: p in s || p == Pair(k, v);
  }

  lemma OnceMore<K(!new), V(!new), C(!new)>(s: multiset<Pair<K, V>>, id: K -> C, m: map<C, V>, k: K, v: V)
    requires InMap(s, id, m) && OnceEach(s, id) && id(k) !in m
    ensures OnceEach(s + multiset{Pair(k, v)}, id)
  {
    var s' := s + multiset{Pair(k, v)};
    assert Pair(k, v) !in s;
    assert forall p | p in s' :: p in s || p == Pair(k, v);
    assert forall p | p in s :: s'[p] == s[p] && id(p.key) != id(k);
  }

  lemma CoversMore<K(!new), V(!new), C(!new)>(s: multiset<Pair<K, V>>, id: K -> C, m: map<C, V>, k: K, v: V)
    requires Covers(s, id, m)
    ensures Covers(s + multiset{Pair(k, v)}, id, m[id(k) := v])
  {
    var s', m' := s + multiset{Pair(k, v)}, m[id(k) := v];
    forall c | c in m'
      ensures exists p | p in s' :: id(p.key) == c
    {
      if c == id(k) {
        assert Pair(k, v) in s';
      } else {
        var p :| p in s && id(p.key) == c;
        assert p in s';
      }
    }
  }

  lemma OneMoreKey<C, V>(m: map<C, V>, c: C, v: V)
    requires c !in m
    ensures |m[c := v]| == |m| + 1
  {
    var m' := m[c := v];
    assert m'.Keys == m.Keys + {c} && |m| == |m.Keys| && |m'| == |m'.Keys|;
  }

  lemma ModelsRemove<K(!new), V(!new), C(!new)>(s: multiset<Pair<K, V>>, id: K -> C, m: map<C, V>, p: Pair<K, V>)
    requires Models(s + multiset{p}, id, m)
    ensures Models(s, id, m - {id(p.key)})
  {
    var t, m' := s + multiset{p}, m - {id(p.key)};
    assert p in t && t[p] == 1 && p !in s;
    assert forall q | q in s :: q in t && t[q] == s[q];
    OneLessKey(m, id(p.key));
    forall c | c in m'
      ensures exists q | q in s :: id(q.key) == c
    {
      var q :| q in t && id(q.key) == c;
      assert q in s;
    }
  }

  lemma OneLessKey<C, V>(m: map<C, V>, c: C)
    requires c in m
    ensures |m - {c}| == |m| - 1
  {
    var m' := m - {c};
    assert m'.Keys == m.Keys - {c} && |m| == |m.Keys| && |m'| == |m'.Keys|;
  }

  /** The keys that `eqfn` calls equal are those `id` sends to the same thing, and they have one hash. */
  ghost predicate Equality<K(!new), C(!new)>(hashfn: K -> bv32, eqfn: (K, K) -> bool, id: K -> C) {
    forall a, b :: (eqfn(a, b) <==> id(a) == id(b)) && (eqfn(a, b) ==> hashfn(a) == hashfn(b))
  }

  /** Searching the entries is looking up the map. */
  lemma ModelsFound<K(!new), V(!new), C(!new)>(
    s: multiset<Pair<K, V>>, hashfn: K -> bv32, eqfn: (K, K) -> bool, id: K -> C, m: map<C, V>, k: K)
    requires Models(s, id, m) && Equality(hashfn, eqfn, id)
    ensures (forall p | p in s :: !eqfn(k, p.key)) <==> id(k) !in m
    ensures forall p | p in s && eqfn(k, p.key) :: id(p.key) == id(k) && p.value == m[id(k)]
  {
  }

  method Apply<K(==, !new), V(==, !new), C(==, !new)>(
    h: HashTable<K, V>, op: Op<K, V>, ghost id: K -> C, ghost m: map<C, V>)
    returns (r: Option<V>)
    requires h.Valid() && Equality(h.hashfn, h.eqfn, id)
    requires Models(h.Contents(), id, m) && (op.Insert? ==> id(op.k) !in m)
    modifies h, h.table
    ensures h.Valid() && (h.table == old(h.table) || fresh(h.table))
    ensures Models(h.Contents(), id, Step(m, id, op)) && r == Found(m, id, op)
  {
    hide h.Valid, Models, Equality;
    r := None;
    ModelsFound(h.Contents(), h.hashfn, h.eqfn, id, m, op.k);
    match op
    case Insert(k, v) =>
      ModelsInsert(h.Contents(), id, m, k, v);
      h.Insert(k, v);
    case Search(k) =>
      r := h.Search(k);
    case Remove(k) =>
      ghost var before := h.Contents();
      h.Remove(k);
      if p :| p in before && h.eqfn(k, p.key) && before == h.Contents() + multiset{p} {
        ModelsRemove(h.Contents(), id, m, p);
      } else {
        assert m - {id(k)} == m;
      }
  }

  /** The rest of a run from the map `m` completes what has been returned so far. */
  ghost predicate Completes<K, V, C>(results: seq<Option<V>>, m: map<C, V>, id: K -> C, ops: seq<Op<K, V>>, k: nat) {
    && k <= |ops| && Distinct(m, id, ops[k..])
    && Final(map[], id, ops) == Final(m, id, ops[k..])
    && AllFound(map[], id, ops) == results + AllFound(m, id, ops[k..])
  }

  lemma CompletesNext<K, V, C>(results: seq<Option<V>>, m: map<C, V>, id: K -> C, ops: seq<Op<K, V>>, k: nat)
    requires k < |ops| && Completes(results, m, id, ops, k)
    ensures ops[k].Insert? ==> id(ops[k].k) !in m
    ensures Completes(results + [Found(m, id, ops[k])], Step(m, id, ops[k]), id, ops, k + 1)
  {
    hide Step, Found;
    assert ops[k..][1..] == ops[k + 1..];
  }

  /** Any run that keeps the keys distinct returns what the map returns, and counts its entries. */
  method RunAll<K(==, !new), V(==, !new), C(==, !new)>(
    minSize: nat, hashfn: K -> bv32, eqfn: (K, K) -> bool, limit: nat -> nat, ghost id: K -> C, ops: seq<Op<K, V>>)
    returns (results: seq<Option<V>>, count: nat)
    requires minSize <= 0x4000_0000 && Equality(hashfn, eqfn, id) && Distinct(map[], id, ops)
    ensures results == AllFound(map[], id, ops) && count == |Final(map[], id, ops)|
  {
    var h := Create<K, V>(minSize, hashfn, eqfn, limit);
    hide Equality;
    ghost var m: map<C, V> := map[];
    results := [];
    var k := 0;
    assert Completes(results, m, id, ops, 0) by {
      assert ops[0..] == ops && [] + AllFound(m, id, ops) == AllFound(m, id, ops);
    }
    while k < |ops|
      invariant 0 <= k <= |ops| && fresh(h) && fresh(h.table) && h.Valid()
      invariant Models(h.Contents(), id, m) && Completes(results, m, id, ops, k)
    {
      CompletesNext(results, m, id, ops, k);
      var r := Apply(h, ops[k], id, m);
      m := Step(m, id, ops[k]);
      results := results + [r];
      k := k + 1;
    }
    count := h.entryCount;
  }
}
