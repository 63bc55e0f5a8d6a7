/**
 * Sleep wake-ups: every sleeping task leaves a `TimerWaker` (its deadline
 * and its waker) in one heap, ordered in reverse so that the top is the
 * earliest deadline; each timer interrupt wakes at most one of them. The
 * current instant is a parameter and a waker is named by a number.
 */
module Timer {
  import opened Common
  import MinQueue

  /** A sleeping task's deadline (in nanoseconds) and the waker to call. */
  datatype TimerWaker = TimerWaker(deadline: nat, waker: nat)

  datatype Ordering = Less | Equal | Greater

  /** `u64::cmp`. */
  function Compare(a: nat, b: nat): (o: Ordering)
    ensures o == Less <==> a < b
    ensures o == Equal <==> a == b
    ensures o == Greater <==> a > b
  {
    if a < b then Less else if a == b then Equal else Greater
  }

  /** `eq`: two entries are equal when their deadlines are, whatever their wakers. */
  predicate Eq(a: TimerWaker, b: TimerWaker)
  {
    a.deadline == b.deadline
  }

  /** `cmp`: the deadlines compared the other way round. */
  function Cmp(a: TimerWaker, b: TimerWaker): (o: Ordering)
    ensures o == Greater <==> a.deadline < b.deadline
    ensures o == Less <==> a.deadline > b.deadline
    ensures o == Equal <==> Eq(a, b)
  {
    Compare(b.deadline, a.deadline)
  }

  /** The reversed order is a total order: swapping the arguments swaps the answer. */
  lemma CmpAntisymmetric(a: TimerWaker, b: TimerWaker)
    ensures Cmp(a, b) == Greater <==> Cmp(b, a) == Less
    ensures Cmp(a, b) == Equal <==> Cmp(b, a) == Equal
  {
  }

  function Deadline(t: TimerWaker): nat { t.deadline }

  /** A max-heap under `Cmp` has the earliest deadline at its top. */
  lemma TopIsEarliest(heap: seq<TimerWaker>)
    requires MinQueue.Sorted(heap, Deadline) && |heap| > 0
    ensures forall t :: t in heap ==> Cmp(heap[0], t) != Less
  {
    MinQueue.HeadIsMin(heap, Deadline);
  }

  /** What one timer interrupt did. */
  datatype Wake = NotYet | Woke(waker: nat) | NoTimers

  /** The heap of sleeping tasks (`TIMER_DEADLINES`). */
  class TimerDeadlines {
    var heap: seq<TimerWaker>

    ghost predicate Valid()
      reads this
    {
      MinQueue.Sorted(heap, Deadline)
    }

    constructor()
      ensures Valid() && heap == []
    {
      heap := [];
    }

    /** A task going to sleep until `deadline`. */
    method Push(t: TimerWaker)
      requires Valid()
      modifies this
      ensures Valid()
      ensures heap == MinQueue.Insert(old(heap), t, Deadline)
    {
      heap := MinQueue.Insert(heap, t, Deadline);
    }

    /**
     * `provide_sleep_wake`: while the earliest deadline is still ahead
     * nothing happens; otherwise the earliest entry is removed and its waker
     * called; an empty heap only produces a warning.
     */
    method ProvideSleepWake(now: nat) returns (w: Wake)
      requires Valid()
      modifies this
      ensures Valid()
      ensures old(heap) == [] ==> w == NoTimers && heap == []
      ensures old(heap) != [] && now < old(heap)[0].deadline ==> w == NotYet && heap == old(heap)
      ensures old(heap) != [] && now >= old(heap)[0].deadline ==>
                (w == Woke(old(heap)[0].waker) && heap == old(heap)[1..])
    {
      if |heap| > 0 {
        var top := heap[0];
        if now < top.deadline {
          return NotYet;
        }
      }
      if |heap| > 0 {
        var top := heap[0];
        MinQueue.TailSorted(heap, Deadline);
        heap := heap[1..];
        return Woke(top.waker);
      }
      return NoTimers;
    }
  }

  /**
   * One wake-up: the entry woken is due and no entry left behind is due
   * earlier; nothing is woken while every deadline is ahead.
   */
  lemma WakeOrder(heap: seq<TimerWaker>, now: nat)
    requires MinQueue.Sorted(heap, Deadline) && |heap| > 0
    ensures now >= heap[0].deadline ==> forall t :: t in heap[1..] ==> heap[0].deadline <= t.deadline
    ensures now < heap[0].deadline ==> forall t :: t in heap ==> now < t.deadline
  {
    MinQueue.HeadIsMin(heap, Deadline);
  }
}
