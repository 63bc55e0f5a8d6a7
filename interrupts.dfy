/**
 * The interrupt handler table: one slot per vector 0x20..=0xFF, each with a
 * `free` flag and a handler (named by a number; 0 is the default handler
 * that does nothing). A driver either claims a given vector or asks for
 * any free one it can use.
 */
module Interrupts {
  import opened Common

  const INT_COUNT: nat := 0x100 - 0x20
  const DEFAULT_HANDLER: nat := 0

  /** `handler(irq)`: the slot of vector `irq`. */
  function Slot(irq: u8): (i: nat)
    requires irq >= 0x20
    ensures i < INT_COUNT && i + 0x20 == irq as nat
  {
    irq as nat - 0x20
  }

  /**
   * The vector `set_any_interrupt_handler` claims, given the free flags
   * before the search: the first from `irq` on that the caller can use and
   * whose slot is free.
   */
  function FirstFree(canUse: u8 -> bool, free: seq<bool>, irq: nat): (r: Option<u8>)
    requires |free| == INT_COUNT && 0x20 <= irq <= 0x100
    ensures r.Some? ==> irq <= r.value as nat < 0x100 && canUse(r.value) && free[Slot(r.value)]
    ensures r.Some? ==> forall j: u8 :: irq <= j as nat < r.value as nat ==> !(canUse(j) && free[Slot(j)])
    ensures r.None? ==> forall j: u8 :: irq <= j as nat ==> !(canUse(j) && free[Slot(j)])
    decreases 0x100 - irq
  {
    if irq == 0x100 then None
    else if canUse(irq as u8) && free[irq - 0x20] then Some(irq as u8)
    else FirstFree(canUse, free, irq + 1)
  }

  /** `INT_HANDLERS`. */
  class IntHandlers {
    const free: array<bool>
    const handlers: array<nat>

    ghost predicate Valid()
      reads this
    {
      free.Length == INT_COUNT && handlers.Length == INT_COUNT
    }

    /** A slot nobody has claimed still holds the default handler. */
    ghost predicate FreeSlotsDefault()
      requires Valid()
      reads this, free, handlers
    {
      forall i :: 0 <= i < INT_COUNT && free[i] ==> handlers[i] == DEFAULT_HANDLER
    }

    /** Every slot free and holding the default handler. */
    constructor()
      ensures Valid() && fresh(free) && fresh(handlers)
      ensures forall i :: 0 <= i < INT_COUNT ==> free[i] && handlers[i] == DEFAULT_HANDLER
      ensures FreeSlotsDefault()
    {
      free := new bool[INT_COUNT](_ => true);
      handlers := new nat[INT_COUNT](_ => DEFAULT_HANDLER);
    }

    /** `store_if_free`: claims a free slot and reports whether it did; a taken slot stays as it is. */
    method StoreIfFree(irq: u8, f: nat) returns (stored: bool)
      requires Valid() && irq >= 0x20
      modifies free, handlers
      ensures stored == old(free[Slot(irq)])
      ensures free[..] == old(free[..])[Slot(irq) := false]
      ensures handlers[..] == if stored then old(handlers[..])[Slot(irq) := f] else old(handlers[..])
      ensures stored ==> Load(irq) == f
      ensures old(FreeSlotsDefault()) ==> FreeSlotsDefault()
    {
      var i := Slot(irq);
      stored := free[i];
      free[i] := false;
      if stored {
        handlers[i] := f;
      }
    }

    /** `store` (`set_interrupt_handler`): takes the slot whether or not it was free. */
    method Store(irq: u8, f: nat)
      requires Valid() && irq >= 0x20
      modifies free, handlers
      ensures free[..] == old(free[..])[Slot(irq) := false]
      ensures handlers[..] == old(handlers[..])[Slot(irq) := f]
      ensures Load(irq) == f
      ensures old(FreeSlotsDefault()) ==> FreeSlotsDefault()
    {
      var i := Slot(irq);
      free[i] := false;
      handlers[i] := f;
    }

    /**
     * `interrupt_handler`'s lookup (`IntHandler::load`): the handler stored
     * for `irq`, which is the default handler while the vector is unclaimed.
     */
    function Load(irq: u8): (h: nat)
      requires Valid() && irq >= 0x20
      reads this, free, handlers
      ensures FreeSlotsDefault() && free[Slot(irq)] ==> h == DEFAULT_HANDLER
    {
      handlers[Slot(irq)]
    }

    /**
     * `set_any_interrupt_handler`: tries every vector 0x20..=0xFF in order,
     * skipping those `canUse` refuses, and stops at the first claimed one.
     */
    method SetAny(canUse: u8 -> bool, f: nat) returns (r: Option<u8>)
      requires Valid()
      modifies free, handlers
      ensures r == FirstFree(canUse, old(free[..]), 0x20)
      ensures r.Some? ==> free[..] == old(free[..])[Slot(r.value) := false]
                          && handlers[..] == old(handlers[..])[Slot(r.value) := f]
      ensures r.None? ==> free[..] == old(free[..]) && handlers[..] == old(handlers[..])
      ensures r.Some? ==> Load(r.value) == f
      ensures old(FreeSlotsDefault()) ==> FreeSlotsDefault()
    {
      var irq: nat := 0x20;
      while irq < 0x100
        invariant 0x20 <= irq <= 0x100
        invariant free[..] == old(free[..]) && handlers[..] == old(handlers[..])
        invariant FirstFree(canUse, old(free[..]), 0x20) == FirstFree(canUse, free[..], irq)
      {
        if canUse(irq as u8) {
          var stored := StoreIfFree(irq as u8, f);
          if stored {
            return Some(irq as u8);
          }
        }
        irq := irq + 1;
      }
      return None;
    }
  }

  /** Claiming twice: the second request for the only usable vector finds it taken. */
  method ClaimTwice()
  {
    var t := new IntHandlers();
    var canUse := (irq: u8) => irq == 0x21;
    var a := t.SetAny(canUse, 7);
    assert a == Some(0x21);
    assert t.Load(0x21) == 7;
    var b := t.SetAny(canUse, 8);
    assert b == None;
    assert t.Load(0x21) == 7;
  }
}
