/**
 * Futex wait queues: tasks sleeping on a word's address queue up per
 * address; `wake` releases up to `num` of them, taken from the back of the
 * queue, onto the ready queue. A task is named by a number, and the value
 * of the watched word is read by the caller and passed in.
 */
module Futex {
  import opened Common

  /** `should_cancel`: the wait is abandoned once the word no longer holds `val`. */
  predicate ShouldCancel(current: nat, val: nat)
  {
    current != val
  }

  /**
   * `wait` goes to sleep only while the word still holds `val`; otherwise
   * it returns at once.
   */
  predicate WaitSleeps(current: nat, val: nat)
  {
    !ShouldCancel(current, val)
  }

  /**
   * `pop`: the queue cut to `len - count` (saturating), and the waiters cut
   * off, front to back, as their drops push them to the ready queue.
   */
  function Truncate(q: seq<nat>, count: nat): (r: (seq<nat>, seq<nat>))
    ensures r.0 + r.1 == q
    ensures |r.1| == Min(count, |q|)
  {
    var newLen := if |q| >= count then |q| - count else 0;
    (q[..newLen], q[newLen..])
  }

  /** Waking never loses a task: together the queues hold what they held before. */
  lemma TruncateKeepsTasks(q: seq<nat>, count: nat)
    ensures multiset(Truncate(q, count).0) + multiset(Truncate(q, count).1) == multiset(q)
  {
    var r := Truncate(q, count);
    assert r.0 + r.1 == q;
  }

  /** Waking at most the whole queue empties it; waking nobody changes nothing. */
  lemma TruncateEdges(q: seq<nat>, count: nat)
    ensures count >= |q| ==> Truncate(q, count) == ([], q)
    ensures count == 0 ==> Truncate(q, count) == (q, [])
  {
    assert q[..|q|] == q;
  }

  /** The address-to-queue map (`WAITING`) and the ready queue (`READY`). */
  class Waiters {
    var addrs: map<nat, seq<nat>>
    var ready: seq<nat>

    constructor()
      ensures addrs == map[] && ready == []
    {
      addrs := map[];
      ready := [];
    }

    /** The waiters queued on `addr`; an address never waited on has none. */
    function Queue(addr: nat): seq<nat>
      reads this
    {
      if addr in addrs then addrs[addr] else []
    }

    /**
     * `push`: hands the task back when `unless` holds, else queues it at the
     * back of its address's queue (creating the queue).
     */
    method Push(addr: nat, task: nat, unless: bool) returns (r: Option<nat>)
      modifies this
      ensures unless ==> r == Some(task) && addrs == old(addrs)
      ensures !unless ==> r == None && addrs == old(addrs)[addr := old(Queue(addr)) + [task]]
      ensures ready == old(ready)
    {
      if unless {
        return Some(task);
      }
      addrs := addrs[addr := Queue(addr) + [task]];
      return None;
    }

    /**
     * `pop`: removes up to `count` waiters from the back of `addr`'s queue and
     * readies them; an address without a queue is left alone.
     */
    method Pop(addr: nat, count: nat)
      modifies this
      ensures addr in old(addrs) ==>
        addrs == old(addrs)[addr := Truncate(old(addrs[addr]), count).0]
        && ready == old(ready) + Truncate(old(addrs[addr]), count).1
      ensures addr !in old(addrs) ==> addrs == old(addrs) && ready == old(ready)
    {
      if addr in addrs {
        var (kept, woken) := Truncate(addrs[addr], count);
        addrs := addrs[addr := kept];
        ready := ready + woken;
      }
    }

    /** `wake`. */
    method Wake(addr: nat, num: nat)
      modifies this
      ensures |old(ready)| <= |ready| && ready[..|old(ready)|] == old(ready)
      ensures Queue(addr) + ready[|old(ready)|..] == old(Queue(addr))
      ensures |ready| - |old(ready)| == Min(num, |old(Queue(addr))|)
      ensures forall a :: a != addr ==> Queue(a) == old(Queue(a))
    {
      Pop(addr, num);
    }

    /**
     * `cleanup`, after the waiting task has been switched away: it is queued
     * unless the word changed meanwhile, in which case it is ready again.
     */
    method Cleanup(addr: nat, val: nat, task: nat, current: nat)
      modifies this
      ensures ShouldCancel(current, val) ==> addrs == old(addrs) && ready == old(ready) + [task]
      ensures !ShouldCancel(current, val) ==> Queue(addr) == old(Queue(addr)) + [task] && ready == old(ready)
      ensures forall a :: a != addr ==> Queue(a) == old(Queue(a))
    {
      var cancel := Push(addr, task, ShouldCancel(current, val));
      if cancel.Some? {
        ready := ready + [cancel.value];
      }
    }
  }

  /**
   * `wait`, for the running `task`: `current` is the word when `wait` reads
   * it, `beforeSwitch` the word when the scheduler last checks for a
   * cancel while finding the next task, and `atCleanup` the word when
   * `cleanup` runs after the switch. The result tells whether the task went
   * to sleep.
   */
  method Wait(w: Waiters, addr: nat, val: nat, task: nat, current: nat, beforeSwitch: nat, atCleanup: nat)
    returns (slept: bool)
    modifies w
    ensures slept <==> WaitSleeps(current, val) && WaitSleeps(beforeSwitch, val)
    ensures !slept ==> w.addrs == old(w.addrs) && w.ready == old(w.ready)
    ensures slept && ShouldCancel(atCleanup, val) ==> w.addrs == old(w.addrs) && w.ready == old(w.ready) + [task]
    ensures slept && !ShouldCancel(atCleanup, val) ==>
      w.Queue(addr) == old(w.Queue(addr)) + [task] && w.ready == old(w.ready)
    ensures forall a :: a != addr ==> w.Queue(a) == old(w.Queue(a))
  {
    if ShouldCancel(current, val) {
      return false;
    }
    if ShouldCancel(beforeSwitch, val) {
      return false;
    }
    w.Cleanup(addr, val, task, atCleanup);
    return true;
  }

  /** A task that queued itself and is then woken with its queue's length comes back to the ready queue. */
  method QueuedThenWoken(addr: nat, task: nat, val: nat)
  {
    var w := new Waiters();
    w.Cleanup(addr, val, task, val);
    assert w.Queue(addr) == [task];
    w.Wake(addr, 1);
    assert w.ready == [task] && w.Queue(addr) == [];
  }
}
