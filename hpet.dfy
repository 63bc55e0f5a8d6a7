/**
 * HPET timers: each comparator fires once at `current`, and later deadlines
 * wait in a min-heap; `sleep_until` reschedules the comparator and `update`
 * (run on every interrupt) moves to the next deadline. Times are main
 * counter ticks; the current counter value `now` is a parameter. Also the
 * conversions between ticks and nanoseconds, given the counter period in
 * femtoseconds.
 */
module Hpet {
  import opened Common
  import MinQueue
  import Prefix

  function Id(x: nat): nat { x }

  /** A comparator's scheduling state: the armed deadline, the waiting ones, and its interrupt enable bit. */
  datatype TimerState = TimerState(current: nat, deadlines: seq<nat>, intEnable: bool)

  /**
   * `sleep_until`: enables the interrupt, then
   *   a later `current` is pushed back and `deadline` armed;
   *   a pending earlier `current` stays armed and `deadline` waits;
   *   an expired `current` is replaced by a future `deadline`;
   *   a `deadline` already past is dropped.
   */
  function AfterSleepUntil(t: TimerState, deadline: nat, now: nat): (r: TimerState)
    requires MinQueue.Sorted(t.deadlines, Id)
    ensures MinQueue.Sorted(r.deadlines, Id) && r.intEnable
  {
    if t.current > deadline then
      TimerState(deadline, MinQueue.Insert(t.deadlines, t.current, Id), true)
    else if t.current > now then
      TimerState(t.current, MinQueue.Insert(t.deadlines, deadline, Id), true)
    else if deadline > now then
      TimerState(deadline, t.deadlines, true)
    else
      t.(intEnable := true)
  }

  /**
   * `update`: once `current` has passed, the earliest waiting deadline is
   * armed, or the interrupt is disabled when none is left.
   */
  function AfterUpdate(t: TimerState, now: nat): (r: TimerState)
    requires MinQueue.Sorted(t.deadlines, Id)
    ensures MinQueue.Sorted(r.deadlines, Id)
  {
    if t.current > now then t
    else if |t.deadlines| == 0 then t.(intEnable := false)
    else
      MinQueue.TailSorted(t.deadlines, Id);
      TimerState(t.deadlines[0], t.deadlines[1..], t.intEnable)
  }

  /** All deadlines the timer still knows, armed or waiting. */
  function Known(t: TimerState): multiset<nat>
  {
    multiset(t.deadlines) + multiset{t.current}
  }

  /**
   * After `sleep_until`, a future deadline is known to the timer; the armed
   * deadline is never later than the new one when the old armed one was
   * later or expired; and no known deadline is lost unless it had expired.
   */
  lemma SleepUntilKeepsDeadlines(t: TimerState, deadline: nat, now: nat)
    requires MinQueue.Sorted(t.deadlines, Id)
    ensures var r := AfterSleepUntil(t, deadline, now);
      deadline > now ==> deadline in Known(r)
    ensures var r := AfterSleepUntil(t, deadline, now);
      (t.current > deadline || (t.current <= now && deadline > now)) ==> r.current == deadline
    ensures var r := AfterSleepUntil(t, deadline, now);
      t.current > now ==> Known(r) == Known(t) + multiset{deadline}
    ensures var r := AfterSleepUntil(t, deadline, now);
      t.current <= now && deadline > now ==> Known(r) == Known(t) - multiset{t.current} + multiset{deadline}
  {
  }

  /** The deadline `update` arms is the earliest one waiting, and it leaves the rest waiting. */
  lemma UpdateArmsEarliest(t: TimerState, now: nat)
    requires MinQueue.Sorted(t.deadlines, Id) && t.current <= now && |t.deadlines| > 0
    ensures var r := AfterUpdate(t, now);
      (forall d :: d in r.deadlines ==> r.current <= d)
      && Known(r) == Known(t) - multiset{t.current}
  {
    MinQueue.HeadIsMin(t.deadlines, Id);
    MinQueue.TailSorted(t.deadlines, Id);
  }

  /** `update` leaves a pending timer alone and disables an expired one with nothing waiting. */
  lemma UpdateIdle(t: TimerState, now: nat)
    requires MinQueue.Sorted(t.deadlines, Id)
    ensures t.current > now ==> AfterUpdate(t, now) == t
    ensures t.current <= now && |t.deadlines| == 0 ==> !AfterUpdate(t, now).intEnable && AfterUpdate(t, now).current == t.current
  {
  }

  /** One HPET comparator (`TimerN`); `comparator` is its comparator register. */
  class TimerN {
    var current: nat
    var deadlines: seq<nat>
    var intEnable: bool
    var comparator: nat

    ghost predicate Valid()
      reads this
    {
      MinQueue.Sorted(deadlines, Id) && comparator == current
    }

    function State(): TimerState
      reads this
    {
      TimerState(current, deadlines, intEnable)
    }

    /** A timer after `init`: interrupts off, comparator 0, nothing waiting. */
    constructor()
      ensures Valid() && State() == TimerState(0, [], false)
    {
      current, deadlines, intEnable, comparator := 0, [], false, 0;
    }

    /** `set_current`: the armed deadline and the comparator register together. */
    method SetCurrent(new_: nat)
      modifies this
      ensures current == new_ && comparator == new_
      ensures deadlines == old(deadlines) && intEnable == old(intEnable)
    {
      current := new_;
      comparator := new_;
    }

    method SleepUntil(deadline: nat, now: nat)
      requires Valid()
      modifies this
      ensures Valid() && State() == AfterSleepUntil(old(State()), deadline, now)
    {
      intEnable := true;
      var cur: nat := current;
      if cur > deadline {
        deadlines := MinQueue.Insert<nat>(deadlines, cur, Id);
        SetCurrent(deadline);
      } else if cur > now {
        deadlines := MinQueue.Insert<nat>(deadlines, deadline, Id);
      } else if deadline > now {
        SetCurrent(deadline);
      }
    }

    method Update(now: nat)
      requires Valid()
      modifies this
      ensures Valid() && State() == AfterUpdate(old(State()), now)
    {
      var cur: nat := current;
      if cur <= now {
        if |deadlines| == 0 {
          intEnable := false;
          return;
        }
        var next: nat := deadlines[0];
        MinQueue.TailSorted(deadlines, Id);
        deadlines := deadlines[1..];
        SetCurrent(next);
      }
    }
  }

  const U64_MOD: nat := 0x1_0000_0000_0000_0000
  const I64_MOD: nat := 0x1_0000_0000_0000_0000

  /** `nanos_to_ticks_u`: nanoseconds times 10^6 over the period, cut to 64 bits. */
  function NanosToTicks(nanos: nat, period: nat): (t: nat)
    requires 0 < period
    ensures t < U64_MOD
  {
    (nanos * 1_000_000 / period) % U64_MOD
  }

  /** `ticks_to_nanos_u`: ticks times the period over 10^6, cut to 64 bits. */
  function TicksToNanos(ticks: nat, period: nat): (n: nat)
    requires 0 < period
    ensures n < U64_MOD
  {
    (ticks * period / 1_000_000) % U64_MOD
  }

  /** Converting nanoseconds to ticks and back never gives more than was put in. */
  lemma NanosRoundTrip(nanos: nat, period: nat)
    requires 0 < period && nanos * 1_000_000 / period < U64_MOD
    ensures TicksToNanos(NanosToTicks(nanos, period), period) <= nanos
  {
    var x := nanos * 1_000_000;
    var t := x / period;
    ModSmall(t, U64_MOD);
    assert NanosToTicks(nanos, period) == t;
    DivMulLe(x, period);
    DivMonotone(t * period, x, 1_000_000);
    Prefix.DivUnique(x, 1_000_000, nanos, 0);
    ModLe(t * period / 1_000_000, U64_MOD);
  }

  lemma ModSmall(x: nat, m: nat)
    requires x < m
    ensures x % m == x
  {
  }

  lemma ModLe(x: nat, m: nat)
    requires 0 < m
    ensures x % m <= x
  {
  }

  lemma DivMulLe(x: nat, d: nat)
    requires 0 < d
    ensures x / d * d <= x
  {
  }

  lemma DivMonotone(x: nat, y: nat, d: nat)
    requires 0 < d && x <= y
    ensures x / d <= y / d
  {
    if x / d > y / d {
      Prefix.MulLeft(d, y / d + 1, x / d);
      Prefix.MulDistrib(d, y / d, 1);
      assert false;
    }
  }

  /** Integer division truncating toward zero, as Rust's `/` on `i128`. */
  function TruncDiv(a: int, b: int): int
    requires b != 0
  {
    if (a >= 0) == (b > 0) then (if a >= 0 then a / b else (-a) / (-b))
    else -((if a >= 0 then a else -a) / (if b > 0 then b else -b))
  }

  /** The two's-complement wrap of an `i128` cast to `i64`. */
  function WrapI64(x: int): (r: int)
    ensures -0x8000_0000_0000_0000 <= r < 0x8000_0000_0000_0000
  {
    var m := x % I64_MOD;
    if m >= 0x8000_0000_0000_0000 then m - I64_MOD else m
  }

  /** `nanos_to_ticks_i`: the result is an `i64`. */
  function NanosToTicksSigned(nanos: int, period: nat): (t: int)
    requires 0 < period
    ensures -0x8000_0000_0000_0000 <= t < 0x8000_0000_0000_0000
  {
    WrapI64(TruncDiv(nanos * 1_000_000, period))
  }

  /** `ticks_to_nanos_i`: the result is an `i64`. */
  function TicksToNanosSigned(ticks: int, period: nat): (n: int)
    requires 0 < period
    ensures -0x8000_0000_0000_0000 <= n < 0x8000_0000_0000_0000
  {
    WrapI64(TruncDiv(ticks * period, 1_000_000))
  }

  /** Truncating division is odd in its dividend. */
  lemma TruncDivOdd(a: int, b: int)
    requires b != 0
    ensures TruncDiv(-a, b) == -TruncDiv(a, b)
  {
  }

  /** For a non-negative input the signed conversion agrees with the unsigned one while nothing wraps. */
  lemma SignedMatchesUnsigned(nanos: nat, period: nat)
    requires 0 < period && nanos * 1_000_000 / period < 0x8000_0000_0000_0000
    ensures NanosToTicksSigned(nanos, period) == NanosToTicks(nanos, period)
  {
    var q: nat := nanos * 1_000_000 / period;
    assert TruncDiv(nanos * 1_000_000, period) == q;
    WrapNonNegative(q);
    ModSmall(q, U64_MOD);
  }

  /** A negative input converts to the negated ticks of its magnitude while nothing wraps. */
  lemma SignedNegative(nanos: nat, period: nat)
    requires 0 < period && nanos * 1_000_000 / period < 0x8000_0000_0000_0000
    ensures NanosToTicksSigned(-(nanos as int), period) == -(NanosToTicksSigned(nanos, period))
  {
    var n: int := nanos;
    var q: nat := nanos * 1_000_000 / period;
    assert TruncDiv(n * 1_000_000, period) == q;
    assert (-n) * 1_000_000 == -(n * 1_000_000);
    TruncDivOdd(n * 1_000_000, period);
    WrapNonNegative(q);
    WrapNegative(q);
  }

  /** For non-negative ticks the signed conversion agrees with the unsigned one while nothing wraps. */
  lemma TicksSignedMatchesUnsigned(ticks: nat, period: nat)
    requires 0 < period && ticks * period / 1_000_000 < 0x8000_0000_0000_0000
    ensures TicksToNanosSigned(ticks, period) == TicksToNanos(ticks, period)
  {
    var q: nat := ticks * period / 1_000_000;
    assert TruncDiv(ticks * period, 1_000_000) == q;
    WrapNonNegative(q);
    ModSmall(q, U64_MOD);
  }

  /** Negative ticks convert to the negated nanoseconds of their magnitude while nothing wraps. */
  lemma TicksSignedNegative(ticks: nat, period: nat)
    requires 0 < period && ticks * period / 1_000_000 < 0x8000_0000_0000_0000
    ensures TicksToNanosSigned(-(ticks as int), period) == -(TicksToNanosSigned(ticks, period))
  {
    var n: int := ticks;
    var q: nat := ticks * period / 1_000_000;
    assert TruncDiv(n * period, 1_000_000) == q;
    assert (-n) * period == -(n * period);
    TruncDivOdd(n * period, 1_000_000);
    WrapNonNegative(q);
    WrapNegative(q);
  }

  lemma WrapNonNegative(q: nat)
    requires q < 0x8000_0000_0000_0000
    ensures WrapI64(q) == q
  {
  }

  lemma WrapNegative(q: nat)
    requires q <= 0x8000_0000_0000_0000
    ensures WrapI64(-(q as int)) == -(q as int)
  {
    if q > 0 {
      var n: int := q;
      assert -n == (I64_MOD as int) * (-1) + (I64_MOD - q);
    }
  }

  /** `femtos`: period times counter. */
  function Femtos(period: nat, counter: nat): nat
  {
    period * counter
  }

  function Picos(period: nat, counter: nat): nat { Femtos(period, counter) / 1_000 }
  function Nanos(period: nat, counter: nat): nat { Picos(period, counter) / 1_000 }
  function Micros(period: nat, counter: nat): nat { Nanos(period, counter) / 1_000 }

  /** `millis`: micros over 1000, cast to `u64`. */
  function Millis(period: nat, counter: nat): (m: nat)
    ensures m < U64_MOD
  {
    (Micros(period, counter) / 1_000) % U64_MOD
  }

  function Seconds(period: nat, counter: nat): nat { Millis(period, counter) / 1_000 }
  function Minutes(period: nat, counter: nat): nat { Millis(period, counter) / 60 }

  /**
   * The successive divisions are one division each: nanoseconds are
   * femtoseconds over 10^6, and for a 32-bit period and 64-bit counter the
   * `u64` cast in `millis` cuts nothing.
   */
  lemma TimeUnits(period: nat, counter: nat)
    requires period <= U32_MAX && counter <= U64_MAX
    ensures Nanos(period, counter) == Femtos(period, counter) / 1_000_000
    ensures Micros(period, counter) == Femtos(period, counter) / 1_000_000_000
    ensures Millis(period, counter) == Femtos(period, counter) / 1_000_000_000_000
  {
    var f := Femtos(period, counter);
    Prefix.DivDiv(f, 1_000, 1_000);
    Prefix.DivDiv(f, 1_000_000, 1_000);
    Prefix.DivDiv(f, 1_000_000_000, 1_000);
    assert f <= U32_MAX * U64_MAX by {
      Prefix.MulLeft(period, counter, U64_MAX);
      Prefix.MulLeft(U64_MAX, period, U32_MAX);
    }
    DivMonotone(f, U32_MAX * U64_MAX, 1_000_000_000_000);
  }

  /** `freq`: 10^15 over the period, cast to `u32`. */
  function Freq(period: nat): nat
    requires 0 < period
  {
    (1_000_000_000_000_000 / period) % 0x1_0000_0000
  }

  /** The standard 10 MHz period (100 ns = 10^8 fs) gives 10^7 Hz. */
  lemma FreqExample()
    ensures Freq(100_000_000) == 10_000_000
  {
  }

  /** `nanos_to_deadline`: the current counter plus the ticks of `nanos`. */
  function NanosToDeadline(counter: nat, nanos: nat, period: nat): (d: nat)
    requires 0 < period
    ensures counter <= d
  {
    counter + NanosToTicks(nanos, period)
  }
}
