/**
 * A lock-free map that is a singly linked list: `insert` prepends a node
 * (without looking for the key), `get` walks from the head, so the newest
 * entry for a key wins and older duplicates stay behind it.
 */
module AtomicMaps {
  import opened Common

  /** The first value stored under `key`, walking from the head. */
  function Find<K(==), V>(entries: seq<(K, V)>, key: K): (r: Option<V>)
    ensures r.None? <==> forall i :: 0 <= i < |entries| ==> entries[i].0 != key
  {
    if |entries| == 0 then None
    else if entries[0].0 == key then Some(entries[0].1)
    else Find(entries[1..], key)
  }

  /** A value found is the one of the first entry with that key. */
  lemma {:induction false} FindFirst<K, V>(entries: seq<(K, V)>, key: K)
    requires Find(entries, key).Some?
    ensures exists i :: 0 <= i < |entries| && entries[i] == (key, Find(entries, key).value)
                        && forall j :: 0 <= j < i ==> entries[j].0 != key
  {
    if entries[0].0 != key {
      var v := Find(entries, key).value;
      FindFirst(entries[1..], key);
      var i :| 0 <= i < |entries[1..]| && entries[1..][i] == (key, v)
               && forall j :: 0 <= j < i ==> entries[1..][j].0 != key;
      assert entries[i + 1] == (key, v);
    } else {
      assert entries[0] == (key, Find(entries, key).value);
    }
  }

  /** `AtomicMap`: the node list, head first, and the count of inserted nodes. */
  class AtomicMap<K(==), V> {
    var entries: seq<(K, V)>
    var len: nat

    ghost predicate Valid()
      reads this
    {
      len == |entries|
    }

    constructor()
      ensures Valid() && entries == []
    {
      entries, len := [], 0;
    }

    /** `insert`: a new node at the head, counted; an existing key is not replaced. */
    method Insert(key: K, value: V)
      requires Valid()
      modifies this
      ensures Valid() && entries == [(key, value)] + old(entries)
    {
      entries := [(key, value)] + entries;
      len := len + 1;
    }

    /** `get`: the value of the newest entry with this key. */
    function Get(key: K): (r: Option<V>)
      reads this
      ensures r.None? <==> forall i :: 0 <= i < |entries| ==> entries[i].0 != key
      ensures r.Some? ==> exists i :: 0 <= i < |entries| && entries[i] == (key, r.value)
                                     && forall j :: 0 <= j < i ==> entries[j].0 != key
    {
      var found := Find(entries, key);
      if found.Some? then FindFirst(entries, key); found else found
    }

    /** `len`: the count kept beside the list, which is the number of nodes. */
    function Len(): (n: nat)
      reads this
      ensures Valid() ==> n == |entries|
    {
      len
    }

    /** `is_empty`: no node was ever inserted. */
    predicate IsEmpty()
      reads this
    {
      Len() == 0
    }

    /** `iter`: the entries newest first. */
    function Iter(): (r: seq<(K, V)>)
      reads this
      ensures Valid() ==> (|r| == 0 <==> IsEmpty())
    {
      entries
    }
  }

  /** After inserting, `get` of that key gives the new value and every other key reads as before. */
  lemma FindAfterInsert<K, V>(entries: seq<(K, V)>, key: K, value: V, other: K)
    ensures Find([(key, value)] + entries, key) == Some(value)
    ensures other != key ==> Find([(key, value)] + entries, other) == Find(entries, other)
  {
    assert ([(key, value)] + entries)[1..] == entries;
  }

  /** Inserting a key twice keeps both nodes: the length grows each time, and `get` sees the later value. */
  method DuplicatesKept()
  {
    var m := new AtomicMap<int, string>();
    m.Insert(0, "a");
    m.Insert(0, "b");
    assert m.Len() == 2 && m.Iter() == [(0, "b"), (0, "a")];
    FindAfterInsert([(0, "a")], 0, "b", 0);
    assert m.Get(0) == Some("b");
  }
}
