/**
 * The bitmap page frame allocator: one bit per physical page (set = in
 * use); `alloc_at` takes the first run of `count` free pages at or after a
 * starting page by locking page after page and releasing its partial run on
 * a conflict; `alloc` starts from the page after the previous allocation
 * and retries from page 0 before running out of memory. Page contents are
 * one value per page (`ZEROED` for a zero-filled page).
 */
module Pmm {
  import opened Common

  const PAGE_SIZE: nat := 0x1000
  const ZEROED: nat := 0

  /** A run of `count` pages starting at physical address `first`. */
  datatype PageFrame = PageFrame(first: nat, count: nat)

  /** `byte_len`. */
  function ByteLen(f: PageFrame): nat
  {
    f.count * PAGE_SIZE
  }

  /** Pages `p..p + count` are all free. */
  predicate WindowFree(bits: seq<bool>, p: nat, count: nat)
    requires p + count <= |bits|
  {
    forall i :: p <= i < p + count ==> !bits[i]
  }

  /** The first page at or after `from` that starts a free window of `count` pages inside the bitmap. */
  function FirstWindow(bits: seq<bool>, from: nat, count: nat): (r: Option<nat>)
    ensures r.Some? ==> from <= r.value && r.value + count <= |bits| && WindowFree(bits, r.value, count)
    ensures r.Some? ==> forall q :: from <= q < r.value ==> !WindowFree(bits, q, count)
    ensures r.None? ==> forall q :: from <= q && q + count <= |bits| ==> !WindowFree(bits, q, count)
    decreases |bits| - from
  {
    if from + count > |bits| then None
    else if WindowFree(bits, from, count) then Some(from)
    else FirstWindow(bits, from + 1, count)
  }

  /** The bitmap with pages `p..p + n` set to `v`. */
  function SetRange(bits: seq<bool>, p: nat, n: nat, v: bool): (r: seq<bool>)
    ensures |r| == |bits|
  {
    seq(|bits|, i requires 0 <= i < |bits| => if p <= i < p + n then v else bits[i])
  }

  /** Freeing the window an allocation took gives back the bitmap from before it. */
  lemma AllocFreeRestores(bits: seq<bool>, p: nat, n: nat)
    requires p + n <= |bits| && WindowFree(bits, p, n)
    ensures SetRange(SetRange(bits, p, n, true), p, n, false) == bits
  {
    var r := SetRange(SetRange(bits, p, n, true), p, n, false);
    forall i | 0 <= i < |bits|
      ensures r[i] == bits[i]
    {
      if p <= i < p + n {
        assert !bits[i];
      }
    }
  }

  /**
   * A used page at `first + offs`, with every page before it in the window
   * free, rules out every window starting up to it: the search may go on
   * after it.
   */
  lemma {:induction false} SkipConflict(bits: seq<bool>, first: nat, offs: nat, count: nat)
    requires offs < count && first + offs < |bits| && bits[first + offs]
    ensures FirstWindow(bits, first, count) == FirstWindow(bits, first + offs + 1, count)
    decreases offs
  {
    if first + count <= |bits| {
      assert !WindowFree(bits, first, count);
    }
    if offs > 0 {
      SkipConflict(bits, first + 1, offs - 1, count);
    }
  }

  /** `PageFrameAllocator`. */
  class PageFrameAllocator {
    var bits: seq<bool>
    var contents: seq<nat>
    var usable: int
    var used: int
    var total: int
    var lastAllocIndex: nat

    ghost predicate Valid()
      reads this
    {
      |contents| == |bits|
    }

    /** The bitmap as `init` fills it, before the usable regions are freed: every page in use. */
    constructor(pages: nat, memory: seq<nat>, usable: int, total: int)
      requires |memory| == pages
      ensures Valid() && bits == seq(pages, _ => true) && contents == memory
      ensures this.usable == usable && used == usable && this.total == total && lastAllocIndex == 0
    {
      bits := seq(pages, _ => true);
      contents := memory;
      this.usable, used, this.total := usable, usable, total;
      lastAllocIndex := 0;
    }

    /** `bitmap_len`: one bit per page. */
    function BitmapLen(): (n: nat)
      reads this
      ensures n == |bits|
    {
      |bits|
    }

    /** `bitmap.swap(page, v)`: the old bit, or nothing past the end. */
    method Swap(page: nat, v: bool) returns (r: Option<bool>)
      modifies this
      ensures page < |old(bits)| ==> r == Some(old(bits)[page]) && bits == old(bits)[page := v]
      ensures page >= |old(bits)| ==> r == None && bits == old(bits)
      ensures contents == old(contents) && used == old(used) && usable == old(usable)
      ensures total == old(total) && lastAllocIndex == old(lastAllocIndex)
    {
      if page >= |bits| {
        return None;
      }
      r := Some(bits[page]);
      bits := bits[page := v];
    }

    /**
     * `alloc_at`: the page index of the first free window of `count` pages at
     * or after `from`, marked used; nothing changes when there is none.
     */
    method AllocAt(from: nat, count: nat) returns (r: Option<nat>)
      modifies this
      ensures r == FirstWindow(old(bits), from, count)
      ensures r.Some? ==> bits == SetRange(old(bits), r.value, count, true)
      ensures r.None? ==> bits == old(bits)
      ensures contents == old(contents) && used == old(used) && usable == old(usable)
      ensures total == old(total) && lastAllocIndex == old(lastAllocIndex)
    {
      ghost var b := bits;
      var firstPage := from;
      var bitmapLen := |bits|;
      while true
        invariant bits == b && from <= firstPage
        invariant FirstWindow(b, from, count) == FirstWindow(b, firstPage, count)
        invariant contents == old(contents) && used == old(used) && usable == old(usable)
        invariant total == old(total) && lastAllocIndex == old(lastAllocIndex)
        decreases bitmapLen + 1 - firstPage
      {
        if firstPage + count > bitmapLen {
          return None;
        }
        var offs := TryWindow(b, firstPage, count);
        if offs == count {
          return Some(firstPage);
        }
        SkipConflict(b, firstPage, offs, count);
        firstPage := firstPage + offs + 1;
      }
    }

    /**
     * The inner loop of `alloc_at`: swaps in the pages of the window at
     * `first` one by one. At a page that was already used it stops, gives
     * back the pages it took and returns that page's offset; otherwise it
     * returns `count` with the whole window taken.
     */
    method TryWindow(ghost b: seq<bool>, first: nat, count: nat) returns (offs: nat)
      requires bits == b && first + count <= |b|
      modifies this
      ensures offs <= count
      ensures offs == count ==> WindowFree(b, first, count) && bits == SetRange(b, first, count, true)
      ensures offs < count ==> b[first + offs] && bits == b
      ensures contents == old(contents) && used == old(used) && usable == old(usable)
      ensures total == old(total) && lastAllocIndex == old(lastAllocIndex)
    {
      offs := 0;
      while offs < count
        invariant offs <= count && |bits| == |b|
        invariant forall i :: first <= i < first + offs ==> !b[i]
        invariant bits == SetRange(b, first, offs, true)
        invariant contents == old(contents) && used == old(used) && usable == old(usable)
        invariant total == old(total) && lastAllocIndex == old(lastAllocIndex)
      {
        var taken := Swap(first + offs, true);
        if taken.value {
          assert bits == SetRange(b, first, offs, true);
          Release(b, first, offs);
          return;
        }
        assert bits == SetRange(b, first, offs + 1, true);
        offs := offs + 1;
      }
      assert WindowFree(b, first, count);
    }

    /** Unlocks pages `first..first + offs` of a window that met a used page. */
    method Release(ghost b: seq<bool>, first: nat, offs: nat)
      requires first + offs <= |b| && bits == SetRange(b, first, offs, true)
      requires forall i :: first <= i < first + offs ==> !b[i]
      modifies this
      ensures bits == b
      ensures contents == old(contents) && used == old(used) && usable == old(usable)
      ensures total == old(total) && lastAllocIndex == old(lastAllocIndex)
    {
      for o := 0 to offs
        invariant bits == SetRange(b, first + o, offs - o, true)
        invariant contents == old(contents) && used == old(used) && usable == old(usable)
        invariant total == old(total) && lastAllocIndex == old(lastAllocIndex)
      {
        var _ := Swap(first + o, false);
        assert bits == SetRange(b, first + o + 1, offs - o - 1, true);
      }
      assert bits == b;
    }

    /**
     * `alloc`: an empty frame at address 0 for no pages; otherwise a window
     * found from the cursor, or else from page 0 (no window at all panics),
     * zero-filled and counted in `used`, with the cursor moved past it.
     */
    method Alloc(count: nat) returns (f: PageFrame)
      requires Valid()
      requires count != 0 ==> FirstWindow(bits, 0, count).Some?
      modifies this
      ensures Valid()
      ensures count == 0 ==> f == PageFrame(0, 0) && bits == old(bits) && contents == old(contents)
                             && used == old(used) && lastAllocIndex == old(lastAllocIndex)
      ensures count != 0 ==>
        var p := Chosen(old(bits), old(lastAllocIndex), count);
        f == PageFrame(p * PAGE_SIZE, count)
        && bits == SetRange(old(bits), p, count, true)
        && contents == ZeroRange(old(contents), p, count)
        && used == old(used) + count * PAGE_SIZE
        && lastAllocIndex == p + count
      ensures usable == old(usable) && total == old(total)
    {
      if count == 0 {
        return PageFrame(0, 0);
      }
      var from := lastAllocIndex;
      var first := AllocAt(from, count);
      if first.None? {
        lastAllocIndex := 0;
        first := AllocAt(0, count);
      }
      var p := first.value;
      lastAllocIndex := p + count;
      contents := ZeroRange(contents, p, count);
      used := used + count * PAGE_SIZE;
      return PageFrame(p * PAGE_SIZE, count);
    }

    /**
     * `free_no_overwrite`: a null or empty frame is ignored; otherwise every
     * page must be in use (or it panics) and becomes free.
     */
    method FreeNoOverwrite(f: PageFrame)
      requires f.first != 0 && f.count != 0 ==>
        f.first / PAGE_SIZE + f.count <= |bits|
        && forall i :: f.first / PAGE_SIZE <= i < f.first / PAGE_SIZE + f.count ==> bits[i]
      modifies this
      ensures f.first == 0 || f.count == 0 ==> bits == old(bits) && used == old(used)
      ensures f.first != 0 && f.count != 0 ==>
        bits == SetRange(old(bits), f.first / PAGE_SIZE, f.count, false)
        && used == old(used) - f.count * PAGE_SIZE
      ensures contents == old(contents) && usable == old(usable) && total == old(total)
      ensures lastAllocIndex == old(lastAllocIndex)
    {
      if f.first == 0 || f.count == 0 {
        return;
      }
      var page := f.first / PAGE_SIZE;
      ghost var b := bits;
      for p := page to page + f.count
        invariant bits == SetRange(b, page, p - page, false)
        invariant contents == old(contents) && used == old(used) && usable == old(usable)
        invariant total == old(total) && lastAllocIndex == old(lastAllocIndex)
      {
        var was := Swap(p, false);
        assert was == Some(true);
        assert bits == SetRange(b, page, p + 1 - page, false);
      }
      used := used - f.count * PAGE_SIZE;
    }

    /** `free`: the pages zero-filled, then released; a null or empty frame is ignored. */
    method Free(f: PageFrame)
      requires Valid()
      requires f.first != 0 && f.count != 0 ==>
        f.first / PAGE_SIZE + f.count <= |bits|
        && forall i :: f.first / PAGE_SIZE <= i < f.first / PAGE_SIZE + f.count ==> bits[i]
      modifies this
      ensures Valid()
      ensures f.first == 0 || f.count == 0 ==> bits == old(bits) && used == old(used) && contents == old(contents)
      ensures f.first != 0 && f.count != 0 ==>
        bits == SetRange(old(bits), f.first / PAGE_SIZE, f.count, false)
        && contents == ZeroRange(old(contents), f.first / PAGE_SIZE, f.count)
        && used == old(used) - f.count * PAGE_SIZE
      ensures usable == old(usable) && total == old(total) && lastAllocIndex == old(lastAllocIndex)
    {
      if f.first == 0 || f.count == 0 {
        return;
      }
      contents := ZeroRange(contents, f.first / PAGE_SIZE, f.count);
      FreeNoOverwrite(f);
    }
  }

  /** The window `alloc` takes: from the cursor if one is left there, else from page 0. */
  function Chosen(bits: seq<bool>, from: nat, count: nat): nat
    requires FirstWindow(bits, 0, count).Some?
  {
    var r := FirstWindow(bits, from, count);
    if r.Some? then r.value else FirstWindow(bits, 0, count).value
  }

  /** `alloc` takes a free window, and the cursor's window when there is one at or after it. */
  lemma ChosenIsFree(bits: seq<bool>, from: nat, count: nat)
    requires FirstWindow(bits, 0, count).Some?
    ensures var p := Chosen(bits, from, count);
      p + count <= |bits| && WindowFree(bits, p, count)
    ensures FirstWindow(bits, from, count).None? ==> Chosen(bits, from, count) == FirstWindow(bits, 0, count).value
  {
  }

  /** Pages `p..p + n` of memory zero-filled. */
  function ZeroRange(contents: seq<nat>, p: nat, n: nat): (r: seq<nat>)
    ensures |r| == |contents|
  {
    seq(|contents|, i requires 0 <= i < |contents| => if p <= i < p + n then ZEROED else contents[i])
  }

  /**
   * An allocation followed by the free of its frame leaves the bitmap and
   * `used` as they were (for a window away from page 0, whose null address
   * `free` ignores).
   */
  method AllocThenFree(a: PageFrameAllocator, count: nat)
    requires a.Valid() && count != 0 && FirstWindow(a.bits, 0, count).Some?
    requires Chosen(a.bits, a.lastAllocIndex, count) != 0
    modifies a
  {
    var bits, used := a.bits, a.used;
    ChosenIsFree(a.bits, a.lastAllocIndex, count);
    var p := Chosen(a.bits, a.lastAllocIndex, count);
    var f := a.Alloc(count);
    assert f.first / PAGE_SIZE == p;
    a.Free(f);
    AllocFreeRestores(bits, p, count);
    assert a.bits == bits && a.used == used;
  }
}
