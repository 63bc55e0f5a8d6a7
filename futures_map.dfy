/**
 * One segment of the kernel's asynchronous hash map: a vector of buckets
 * and a count of items. An item goes to the bucket its hash picks, with
 * the hash's low five bits already spent on choosing the segment. A
 * bucket keeps its first item inline and the items that collide with it
 * in a list. Inserting an existing key swaps in the new item and hands
 * back the old one; a segment grows to the next power of two above its
 * bucket count once it is three quarters full, re-inserting every item.
 *
 * Items are compared by key only; the shared pointer around an item and
 * the lock around its value are not modelled, so an item is a value.
 */
module FuturesMap {
  import opened Common

  const LOAD_FACTOR_NUMERATOR: nat := 75
  const LOAD_FACTOR_DENOMINATOR: nat := 100
  /** The number of segments; a power of two. */
  const SEGMENTS: nat := 32
  const SEGMENT_MASK: bv64 := 31
  /** `SEGMENTS.ilog2()`. */
  const SEGMENT_SHIFT: bv64 := 5

  /** `segment_id`: the hash's low bits pick one of the 32 segments. */
  function SegmentId(hash: bv64): (r: nat)
    ensures r < SEGMENTS
  {
    (hash & SEGMENT_MASK) as nat
  }

  /** `bucket_id`: the bits above the segment bits, modulo the bucket count. */
  function BucketId(hash: bv64, buckets: nat): (r: nat)
    requires buckets > 0
    ensures r < buckets
  {
    ((hash >> SEGMENT_SHIFT) as nat) % buckets
  }

  /**
   * The two ids use disjoint parts of the hash: putting the bits
   * `bucket_id` starts from above the segment bits gives the hash back.
   */
  lemma HashSplits(hash: bv64)
    ensures ((hash >> SEGMENT_SHIFT) << SEGMENT_SHIFT) | (hash & SEGMENT_MASK) == hash
  {
  }

  /** Two hashes that differ only in their segment bits land in the same bucket. */
  lemma SegmentBitsDoNotMove(h1: bv64, h2: bv64, buckets: nat)
    requires buckets > 0
    requires h1 >> SEGMENT_SHIFT == h2 >> SEGMENT_SHIFT
    ensures BucketId(h1, buckets) == BucketId(h2, buckets)
  {
  }

  /** The map's key type: keys are only compared for equality. */
  type Key(==, 0)

  /** The map's value type: values are only stored and handed back. */
  type Value(0)

  /** A stored entry: its hash, its key and its value. */
  datatype Item = Item(hash: bv64, key: Key, val: Value)

  /** The inline first item and the list of items that collided with it. */
  datatype Bucket = Bucket(item: Option<Item>, list: seq<Item>)

  /** `Bucket::new`. */
  function EmptyBucket(): (b: Bucket)
    ensures Drain(b) == []
  {
    Bucket(None, [])
  }

  /** `Bucket::drain`: the inline item, then the list. */
  function Drain(b: Bucket): seq<Item>
  {
    (if b.item.Some? then [b.item.value] else []) + b.list
  }

  /** No key occurs twice in `s`. */
  ghost predicate DistinctKeys(s: seq<Item>)
  {
    forall p, q :: 0 <= p < q < |s| ==> s[p].key != s[q].key
  }

  /** A bucket as `insert` leaves it: a list only behind an inline item, no key twice. */
  ghost predicate WellFormed(b: Bucket)
  {
    (b.item.None? ==> b.list == []) && DistinctKeys(Drain(b))
  }

  /**
   * `s'` holds `x` and the items of `s` with other keys, and nothing
   * else, with no key twice.
   */
  ghost predicate Swapped(s': seq<Item>, s: seq<Item>, x: Item)
  {
    DistinctKeys(s') && x in s'
    && (forall y :: y in s' ==> y == x || (y in s && y.key != x.key))
    && (forall y :: y in s && y.key != x.key ==> y in s')
  }

  /** Swapping an item for one with the same key. */
  lemma ReplaceSameKey(s: seq<Item>, i: nat, x: Item)
    requires DistinctKeys(s) && i < |s| && s[i].key == x.key
    ensures Swapped(s[i := x], s, x)
  {
    var s' := s[i := x];
    assert forall p :: 0 <= p < |s| ==> s'[p].key == s[p].key;
    assert s'[i] == x;
    forall y | y in s' ensures y == x || (y in s && y.key != x.key) {
      var p :| 0 <= p < |s'| && s'[p] == y;
      assert p == i || s[p] == y;
    }
    forall y | y in s && y.key != x.key ensures y in s' {
      var p :| 0 <= p < |s| && s[p] == y;
      assert s'[p] == y;
    }
  }

  /** Appending an item with a new key. */
  lemma AppendNewKey(s: seq<Item>, x: Item)
    requires DistinctKeys(s) && forall y :: y in s ==> y.key != x.key
    ensures Swapped(s + [x], s, x)
  {
    var s' := s + [x];
    forall p, q | 0 <= p < q < |s'| ensures s'[p].key != s'[q].key {
      assert s'[p] == s[p];
      if q < |s| {
        assert s'[q] == s[q];
      }
    }
    assert s'[|s|] == x;
  }

  /** The first item of `items` with key `key`. */
  function Lookup(items: seq<Item>, key: Key): (r: Option<Item>)
    ensures r.Some? ==> r.value in items && r.value.key == key
    ensures r.None? <==> forall y :: y in items ==> y.key != key
  {
    if items == [] then None
    else if items[0].key == key then Some(items[0])
    else Lookup(items[1..], key)
  }

  /** `find_slow`: the index in `list` of the first item with key `key`. */
  function FindSlow(list: seq<Item>, key: Key): (r: Option<nat>)
    ensures r.Some? ==> r.value < |list| && list[r.value].key == key
    ensures r.Some? ==> forall j :: 0 <= j < r.value ==> list[j].key != key
    ensures r.None? ==> forall j :: 0 <= j < |list| ==> list[j].key != key
  {
    if list == [] then None
    else if list[0].key == key then Some(0)
    else match FindSlow(list[1..], key)
      case None => None
      case Some(i) => Some(i + 1)
  }

  /** `Bucket::find`: the inline item when its key matches, else the first match in the list. */
  function BucketFind(b: Bucket, key: Key): Option<Item>
  {
    if b.item.None? then None
    else if b.item.value.key == key then b.item
    else match FindSlow(b.list, key)
      case None => None
      case Some(i) => Some(b.list[i])
  }

  /** A well-formed bucket's `find` gives the first item with the key in its drain order. */
  lemma BucketFindIsLookup(b: Bucket, key: Key)
    requires WellFormed(b)
    ensures BucketFind(b, key) == Lookup(Drain(b), key)
  {
    if b.item.Some? && b.item.value.key != key {
      LookupList(b.item.value, b.list, key);
      match FindSlow(b.list, key)
      case None =>
      case Some(i) => LookupFirst(b.list, key, i);
    }
  }

  /** Looking past a head with another key. */
  lemma LookupList(head: Item, list: seq<Item>, key: Key)
    requires head.key != key
    ensures Lookup([head] + list, key) == Lookup(list, key)
  {
    assert ([head] + list)[1..] == list;
  }

  /** `Lookup` finds the first index with the key. */
  lemma LookupFirst(list: seq<Item>, key: Key, i: nat)
    requires i < |list| && list[i].key == key
    requires forall j :: 0 <= j < i ==> list[j].key != key
    ensures Lookup(list, key) == Some(list[i])
    decreases i
  {
    if i > 0 {
      LookupFirst(list[1..], key, i - 1);
    }
  }

  /**
   * `Bucket::insert` and `insert_slow`: an empty bucket takes the item
   * inline; otherwise an item with the same key is swapped out and
   * returned, and a new key is pushed onto the list.
   */
  function BucketInsert(b: Bucket, x: Item): (Bucket, Option<Item>)
  {
    if b.item.None? then (Bucket(Some(x), b.list), None)
    else if b.item.value.key == x.key then (Bucket(Some(x), b.list), b.item)
    else match FindSlow(b.list, x.key)
      case Some(i) => (Bucket(b.item, b.list[i := x]), Some(b.list[i]))
      case None => (Bucket(b.item, b.list + [x]), None)
  }

  /**
   * Inserting into a well-formed bucket keeps it well-formed, returns the
   * item that had the key, and leaves exactly the new item and the old
   * items with other keys.
   */
  lemma BucketInsertSpec(b: Bucket, x: Item)
    requires WellFormed(b)
    ensures Inserted(b, BucketInsert(b, x).0, x)
    ensures BucketInsert(b, x).1 == Lookup(Drain(b), x.key)
  {
    if b.item.None? {
      assert Drain(b) == [] && Drain(BucketInsert(b, x).0) == [] + [x];
      AppendNewKey([], x);
    } else if b.item.value.key == x.key {
      InsertAtHead(b, x);
    } else {
      InsertIntoList(b, x);
    }
  }

  /** The inline item has the key: it is swapped out. */
  lemma InsertAtHead(b: Bucket, x: Item)
    requires WellFormed(b) && b.item.Some? && b.item.value.key == x.key
    ensures Inserted(b, BucketInsert(b, x).0, x)
    ensures BucketInsert(b, x).1 == Lookup(Drain(b), x.key)
  {
    var d := Drain(b);
    assert d == [b.item.value] + b.list;
    assert Drain(BucketInsert(b, x).0) == d[0 := x];
    ReplaceSameKey(d, 0, x);
  }

  /** The inline item has another key: the list is searched. */
  lemma InsertIntoList(b: Bucket, x: Item)
    requires WellFormed(b) && b.item.Some? && b.item.value.key != x.key
    ensures Inserted(b, BucketInsert(b, x).0, x)
    ensures BucketInsert(b, x).1 == Lookup(Drain(b), x.key)
  {
    LookupList(b.item.value, b.list, x.key);
    assert Drain(b) == [b.item.value] + b.list;
    match FindSlow(b.list, x.key)
    case Some(i) => ReplaceInList(b, x, i);
    case None => AppendToList(b, x);
  }

  /** A list item has the key: it is swapped out. */
  lemma ReplaceInList(b: Bucket, x: Item, i: nat)
    requires WellFormed(b) && b.item.Some? && b.item.value.key != x.key
    requires FindSlow(b.list, x.key) == Some(i)
    ensures BucketInsert(b, x) == (Bucket(b.item, b.list[i := x]), Some(b.list[i]))
    ensures Inserted(b, BucketInsert(b, x).0, x)
    ensures Lookup(b.list, x.key) == Some(b.list[i])
  {
    var d := Drain(b);
    assert d == [b.item.value] + b.list;
    LookupFirst(b.list, x.key, i);
    assert Drain(Bucket(b.item, b.list[i := x])) == d[i + 1 := x];
    ReplaceSameKey(d, i + 1, x);
  }

  /** No item has the key: the new one is pushed onto the list. */
  lemma AppendToList(b: Bucket, x: Item)
    requires WellFormed(b) && b.item.Some? && b.item.value.key != x.key
    requires FindSlow(b.list, x.key) == None
    ensures BucketInsert(b, x) == (Bucket(b.item, b.list + [x]), None)
    ensures Inserted(b, BucketInsert(b, x).0, x)
    ensures Lookup(b.list, x.key) == None
  {
    var d := Drain(b);
    assert d == [b.item.value] + b.list;
    assert Drain(Bucket(b.item, b.list + [x])) == d + [x];
    AppendNewKey(d, x);
  }

  /** `Segment::drain`: the buckets' items, bucket by bucket. */
  function DrainAll(bs: seq<Bucket>): (r: seq<Item>)
    ensures forall x :: x in r ==> exists i :: 0 <= i < |bs| && x in Drain(bs[i])
  {
    if bs == [] then [] else Drain(bs[0]) + DrainAll(bs[1..])
  }

  /** Every item of every bucket comes out of the drain. */
  lemma DrainAllHolds(bs: seq<Bucket>, i: nat, x: Item)
    requires i < |bs| && x in Drain(bs[i])
    ensures x in DrainAll(bs)
    decreases i
  {
    if i > 0 {
      DrainAllHolds(bs[1..], i - 1, x);
    }
  }

  /** The smallest power of two that is at least `n`, counting up from `p`. */
  function PowerOfTwoFrom(p: nat, n: nat): (r: nat)
    requires p > 0 && IsPowerOfTwo(p)
    ensures IsPowerOfTwo(r) && r >= n && r >= p
    ensures r == p || r / 2 < n
    decreases n - p
  {
    if p >= n then p else PowerOfTwoFrom(2 * p, n)
  }

  ghost predicate IsPowerOfTwo(n: nat)
    decreases n
  {
    n == 1 || (n > 1 && n % 2 == 0 && IsPowerOfTwo(n / 2))
  }

  /** `usize::next_power_of_two`: the smallest power of two at least `n`. */
  function NextPowerOfTwo(n: nat): (r: nat)
    ensures IsPowerOfTwo(r) && r >= n && r > 0
    ensures r == 1 || r / 2 < n
  {
    PowerOfTwoFrom(1, n)
  }

  /** Of two different powers of two, the larger is at least twice the smaller. */
  lemma {:induction false} PowerOfTwoGap(a: nat, b: nat)
    requires IsPowerOfTwo(a) && IsPowerOfTwo(b) && a < b
    ensures 2 * a <= b
    decreases a
  {
    if a > 1 {
      PowerOfTwoGap(a / 2, b / 2);
    }
  }

  /**
   * A segment's first resize gives it one bucket, and every later one
   * doubles a power-of-two bucket count.
   */
  lemma ResizeDoubles(n: nat)
    requires IsPowerOfTwo(n)
    ensures NextPowerOfTwo(0 + 1) == 1
    ensures NextPowerOfTwo(n + 1) == 2 * n
  {
    var r := NextPowerOfTwo(n + 1);
    PowerOfTwoGap(n, r);
  }

  class Segment {
    var buckets: seq<Bucket>
    var count: nat
    /** The items by key. */
    ghost var contents: map<Key, Item>

    /**
     * Every bucket is well-formed; an item sits in the bucket its hash
     * picks and is the one `contents` has for its key; every item of
     * `contents` is in a bucket; `count` is the number of items.
     */
    ghost predicate Valid()
      reads this
    {
      Stored(buckets, contents, count)
    }

    /** `Segment::new`: no buckets and no items. */
    constructor()
      ensures Valid() && contents == map[] && buckets == []
    {
      buckets := [];
      count := 0;
      contents := map[];
    }

    /**
     * `find`: the item with key `key` when `hash` is that item's hash; an
     * absent key gives `None`, and so does a segment with no buckets.
     */
    method Find(hash: bv64, key: Key) returns (r: Option<Item>)
      requires Valid()
      ensures buckets == [] ==> r == None
      ensures key !in contents ==> r == None
      ensures key in contents && contents[key].hash == hash ==> r == Some(contents[key])
      ensures r.Some? ==> key in contents && r == Some(contents[key])
    {
      if buckets == [] {
        return None;
      }
      var b := buckets[BucketId(hash, |buckets|)];
      BucketFindIsLookup(b, key);
      r := BucketFind(b, key);
    }

    /**
     * `insert`: grows the segment first when it is three quarters full
     * (always on the first insert), then inserts without growing.
     */
    method Insert(x: Item) returns (r: Option<Item>)
      requires Valid()
      requires x.key in contents ==> contents[x.key].hash == x.hash
      modifies this
      ensures Valid()
      ensures contents == old(contents)[x.key := x]
      ensures r == if x.key in old(contents) then Some(old(contents)[x.key]) else None
      ensures count == old(count) + if r.None? then 1 else 0
      ensures |buckets| == if old(count) * LOAD_FACTOR_DENOMINATOR >= old(|buckets|) * LOAD_FACTOR_NUMERATOR
                           then NextPowerOfTwo(old(|buckets|) + 1) else old(|buckets|)
    {
      if count * LOAD_FACTOR_DENOMINATOR >= |buckets| * LOAD_FACTOR_NUMERATOR {
        Resize();
      }
      r := InsertNoResize(x);
    }

    /**
     * `insert_noresize`: the item goes into its bucket, replacing the
     * item with the same key, which is returned; `count` grows only for
     * a new key.
     */
    method InsertNoResize(x: Item) returns (r: Option<Item>)
      requires Valid() && |buckets| > 0
      requires x.key in contents ==> contents[x.key].hash == x.hash
      modifies this
      ensures Valid() && |buckets| == old(|buckets|)
      ensures contents == old(contents)[x.key := x]
      ensures r == if x.key in old(contents) then Some(old(contents)[x.key]) else None
    {
      var i := BucketId(x.hash, |buckets|);
      var put := BucketInsert(buckets[i], x);
      InsertStored(buckets, contents, count, x, i, put);
      SetState(buckets[i := put.0], contents[x.key := x], if put.1.None? then count + 1 else count);
      r := put.1;
    }

    /** Installs a new table whose buckets hold exactly the items of `m`, `n` of them. */
    method SetState(bs: seq<Bucket>, ghost m: map<Key, Item>, n: nat)
      requires Stored(bs, m, n)
      modifies this
      ensures Valid() && buckets == bs && contents == m && count == n
    {
      buckets, contents, count := bs, m, n;
    }

    /** The swap of `resize`: `n` empty buckets, and nothing counted. */
    method Reset(n: nat)
      modifies this
      ensures Valid() && |buckets| == n && contents == map[]
    {
      buckets := EmptyBuckets(n);
      count := 0;
      contents := map[];
      EmptyPlaced(n);
    }

    /**
     * `resize`: swaps in `(len + 1).next_power_of_two()` empty buckets
     * and re-inserts every item of the old ones; the items and the count
     * are what they were.
     */
    method Resize()
      requires Valid()
      modifies this
      ensures Valid()
      ensures contents == old(contents) && count == old(count)
      ensures |buckets| == NextPowerOfTwo(old(|buckets|) + 1)
    {
      var newLen := NextPowerOfTwo(|buckets| + 1);
      var items := DrainAll(buckets);
      ghost var was := contents;
      DrainedItems(buckets, contents, items);
      Reset(newLen);
      assert Refilled(items, 0, contents, was);
      for j := 0 to |items|
        invariant Valid() && |buckets| == newLen
        invariant Refilled(items, j, contents, was)
      {
        ghost var before := contents;
        var replaced := InsertNoResize(items[j]);
        RefillStep(items, j, before, contents, was);
      }
      RefillDone(items, contents, was);
    }
  }

  /** `n` buckets made by `Bucket::new`. */
  function EmptyBuckets(n: nat): (bs: seq<Bucket>)
    ensures |bs| == n
  {
    seq(n, _ => EmptyBucket())
  }

  /** Empty buckets hold nothing, as an empty map says. */
  lemma EmptyPlaced(n: nat)
    ensures Placed(EmptyBuckets(n), map[])
  {
    var bs := EmptyBuckets(n);
    forall i | 0 <= i < n ensures WellFormed(bs[i]) && Drain(bs[i]) == [] {
      assert bs[i] == EmptyBucket();
    }
  }

  /**
   * `resize` has re-inserted the first `j` drained items: the map holds
   * their keys, with the items it had before the swap.
   */
  ghost predicate Refilled(items: seq<Item>, j: nat, c: map<Key, Item>, was: map<Key, Item>)
  {
    j <= |items|
    && (forall t :: 0 <= t < |items| ==> items[t].key in was && was[items[t].key] == items[t])
    && (forall k :: k in c ==> k in was && c[k] == was[k])
    && (forall t :: 0 <= t < j ==> items[t].key in c)
  }

  /** Re-inserting the next drained item. */
  lemma RefillStep(items: seq<Item>, j: nat, c: map<Key, Item>, c': map<Key, Item>, was: map<Key, Item>)
    requires Refilled(items, j, c, was) && j < |items|
    requires c' == c[items[j].key := items[j]]
    ensures Refilled(items, j + 1, c', was)
    ensures items[j].key in c ==> c[items[j].key].hash == items[j].hash
  {
  }

  /** Once every drained item is back, the map is what it was. */
  lemma RefillDone(items: seq<Item>, c: map<Key, Item>, was: map<Key, Item>)
    requires Refilled(items, |items|, c, was)
    requires forall k :: k in was ==> was[k].key == k
    requires forall k :: k in was ==> exists t :: 0 <= t < |items| && items[t] == was[k]
    ensures c == was
  {
    forall k | k in was ensures k in c {
      var t :| 0 <= t < |items| && items[t] == was[k];
    }
  }

  /** What `Valid` says of a segment's buckets and its map of items. */
  ghost predicate Placed(bs: seq<Bucket>, m: map<Key, Item>)
  {
    (forall i :: 0 <= i < |bs| ==> WellFormed(bs[i])) && ItemsStored(bs, m) && KeysPlaced(bs, m)
  }

  /** Every item of every bucket belongs there and is the map's item for its key. */
  ghost predicate ItemsStored(bs: seq<Bucket>, m: map<Key, Item>)
  {
    forall i, x :: 0 <= i < |bs| && x in Drain(bs[i]) ==>
      BucketId(x.hash, |bs|) == i && x.key in m && m[x.key] == x
  }

  /** Every item of the map is in the bucket its hash picks. */
  ghost predicate KeysPlaced(bs: seq<Bucket>, m: map<Key, Item>)
  {
    forall k :: k in m ==> m[k].key == k && |bs| > 0 && m[k] in Drain(bs[BucketId(m[k].hash, |bs|)])
  }

  /** What inserting `x` into bucket `i` does to that bucket, as `BucketInsertSpec` states it. */
  ghost predicate Inserted(b: Bucket, b': Bucket, x: Item)
  {
    (b'.item.None? ==> b'.list == []) && Swapped(Drain(b'), Drain(b), x)
  }

  /** The buckets hold the map's items where they belong, and `n` counts them. */
  ghost predicate Stored(bs: seq<Bucket>, m: map<Key, Item>, n: nat)
  {
    Placed(bs, m) && n == |m|
  }

  /** `insert_no_resize` on values: the bucket's insert keeps the items stored, and returns the old item for the key. */
  lemma InsertStored(bs: seq<Bucket>, m: map<Key, Item>, n: nat, x: Item,
                           i: nat, put: (Bucket, Option<Item>))
    requires Stored(bs, m, n) && |bs| > 0
    requires x.key in m ==> m[x.key].hash == x.hash
    requires i == BucketId(x.hash, |bs|) && put == BucketInsert(bs[i], x)
    ensures Stored(bs[i := put.0], m[x.key := x], if put.1.None? then n + 1 else n)
    ensures put.1 == if x.key in m then Some(m[x.key]) else None
  {
    BucketInsertSpec(bs[i], x);
    InsertKeeps(bs, m, i, x, put.0);
  }

  /** Inserting into bucket `i` keeps every item where `Valid` wants it. */
  lemma InsertKeeps(bs: seq<Bucket>, m: map<Key, Item>, i: nat, x: Item, b': Bucket)
    requires Placed(bs, m) && |bs| > 0 && i == BucketId(x.hash, |bs|)
    requires x.key in m ==> m[x.key].hash == x.hash
    requires Inserted(bs[i], b', x)
    ensures Placed(bs[i := b'], m[x.key := x])
    ensures Lookup(Drain(bs[i]), x.key) == if x.key in m then Some(m[x.key]) else None
    ensures |m[x.key := x]| == |m| + if x.key in m then 0 else 1
  {
    KeepsItems(bs, m, i, x, b');
    KeepsKeys(bs, m, i, x, b');
    if x.key in m {
      assert m[x.key] in Drain(bs[i]);
    }
  }

  lemma KeepsItems(bs: seq<Bucket>, m: map<Key, Item>, i: nat, x: Item, b': Bucket)
    requires ItemsStored(bs, m) && |bs| > 0 && i == BucketId(x.hash, |bs|)
    requires x.key in m ==> m[x.key].hash == x.hash
    requires Inserted(bs[i], b', x)
    ensures ItemsStored(bs[i := b'], m[x.key := x])
  {
    var bs' := bs[i := b'];
    var m' := m[x.key := x];
    forall j, y | 0 <= j < |bs'| && y in Drain(bs'[j])
      ensures BucketId(y.hash, |bs'|) == j && y.key in m' && m'[y.key] == y
    {
      if j != i {
        assert bs'[j] == bs[j];
        assert BucketId(y.hash, |bs|) == j && y.key in m && m[y.key] == y;
        assert y.key != x.key;
      } else if y != x {
        assert y in Drain(bs[i]) && y.key != x.key;
        assert m[y.key] == y;
      }
    }
  }

  lemma KeepsKeys(bs: seq<Bucket>, m: map<Key, Item>, i: nat, x: Item, b': Bucket)
    requires ItemsStored(bs, m) && KeysPlaced(bs, m) && |bs| > 0 && i == BucketId(x.hash, |bs|)
    requires Inserted(bs[i], b', x)
    ensures KeysPlaced(bs[i := b'], m[x.key := x])
  {
    var bs' := bs[i := b'];
    var m' := m[x.key := x];
    forall k | k in m' ensures m'[k].key == k && m'[k] in Drain(bs'[BucketId(m'[k].hash, |bs'|)]) {
      if k != x.key {
        var j := BucketId(m[k].hash, |bs|);
        assert m[k] in Drain(bs[j]);
        if j == i {
          assert m[k] in Drain(b');
        }
      }
    }
  }

  /** The drain of a valid segment's buckets holds exactly its items. */
  lemma DrainedItems(bs: seq<Bucket>, m: map<Key, Item>, items: seq<Item>)
    requires Placed(bs, m) && items == DrainAll(bs)
    ensures forall t :: 0 <= t < |items| ==> items[t].key in m && m[items[t].key] == items[t]
    ensures forall k :: k in m ==> exists t :: 0 <= t < |items| && items[t] == m[k]
    ensures forall k :: k in m ==> m[k].key == k
  {
    forall t | 0 <= t < |items| ensures items[t].key in m && m[items[t].key] == items[t] {
      assert items[t] in items;
    }
    forall k | k in m ensures exists t :: 0 <= t < |items| && items[t] == m[k] {
      DrainAllHolds(bs, BucketId(m[k].hash, |bs|), m[k]);
    }
  }
}
