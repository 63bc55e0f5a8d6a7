/**
 * The behaviour the kernel relies on from a `BinaryHeap` ordered so that
 * its top is the earliest deadline: `push` adds an element, `peek` and
 * `pop` see the one with the smallest key. The heap is kept here as a
 * sequence sorted by key; which of several equal keys comes first is left
 * to the insertion (the heap does not promise one either).
 */
module MinQueue {

  /** Keys never decrease along the queue. */
  ghost predicate Sorted<T>(q: seq<T>, key: T -> nat)
  {
    forall i, j :: 0 <= i < j < |q| ==> key(q[i]) <= key(q[j])
  }

  /** `push`: the element joins the queue in key order. */
  function Insert<T>(q: seq<T>, x: T, key: T -> nat): (r: seq<T>)
    requires Sorted(q, key)
    ensures Sorted(r, key)
    ensures multiset(r) == multiset(q) + multiset{x}
    ensures |r| == |q| + 1
  {
    if |q| == 0 then [x]
    else if key(x) < key(q[0]) then [x] + q
    else
      var rest := Insert(q[1..], x, key);
      assert q == [q[0]] + q[1..];
      AboveHead(q, x, rest, key);
      [q[0]] + rest
  }

  lemma AboveHead<T>(q: seq<T>, x: T, rest: seq<T>, key: T -> nat)
    requires Sorted(q, key) && |q| > 0 && key(q[0]) <= key(x)
    requires multiset(rest) == multiset(q[1..]) + multiset{x}
    ensures forall j :: 0 <= j < |rest| ==> key(q[0]) <= key(rest[j])
  {
    forall j | 0 <= j < |rest|
      ensures key(q[0]) <= key(rest[j])
    {
      assert rest[j] in multiset(rest);
      if rest[j] != x {
        assert rest[j] in multiset(q[1..]);
        var k :| 0 <= k < |q[1..]| && q[1..][k] == rest[j];
        assert q[k + 1] == rest[j];
      }
    }
  }

  /** The head of a sorted queue has the smallest key of all its elements. */
  lemma HeadIsMin<T>(q: seq<T>, key: T -> nat)
    requires Sorted(q, key) && |q| > 0
    ensures forall y :: y in q ==> key(q[0]) <= key(y)
  {
  }

  /** Taking the head leaves a sorted queue. */
  lemma TailSorted<T>(q: seq<T>, key: T -> nat)
    requires Sorted(q, key) && |q| > 0
    ensures Sorted(q[1..], key)
    ensures multiset(q) == multiset{q[0]} + multiset(q[1..])
  {
    assert q == [q[0]] + q[1..];
  }
}
