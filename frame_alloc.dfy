/**
 * The page frame allocator with copy-on-write reference counts: every
 * usable page has a 16-bit count (0 = free), pages are handed out by a
 * cursor that probes each page at most once, and a fork shares a page
 * until a write fault makes a private copy. Page contents are one value
 * per page (`ZEROED` for a zero-filled page).
 */
module FrameAlloc {
  import opened Common
  import Prefix

  const PAGE_SIZE: nat := 0x1000
  const ZEROED: nat := 0

  /** A physical frame, by address. */
  datatype Frame = Frame(addr: nat)

  function PageIndex(f: Frame): nat
  {
    f.addr / PAGE_SIZE
  }

  /** `Frame::from_idx`. */
  function FromIdx(idx: nat): (f: Frame)
    ensures PageIndex(f) == idx && f.addr % PAGE_SIZE == 0
  {
    Frame(idx * PAGE_SIZE)
  }

  /** `PageInfo::alloc`: succeeds only on a free page, which then has one owner. */
  function PageAlloc(rc: nat): (r: (bool, nat))
    ensures r.0 <==> rc == 0
    ensures r.1 == if rc == 0 then 1 else rc
  {
    if rc == 0 then (true, 1) else (false, rc)
  }

  datatype TooManyRefs = TooManyRefs

  /** `PageInfo::copy`: one more owner, unless the 16-bit count is full. */
  function PageCopy(rc: nat): (r: Result<nat, TooManyRefs>)
    requires rc <= U16_MAX
    ensures r.Ok? <==> rc < U16_MAX
    ensures r.Ok? ==> r.value == rc + 1 && r.value <= U16_MAX
  {
    if rc < U16_MAX then Ok(rc + 1) else Err(TooManyRefs)
  }

  /**
   * `PageInfo::free`: one owner fewer; true when that was the last one. A
   * count of 0 is a double free and panics.
   */
  function PageFree(rc: nat): (r: (bool, nat))
    requires rc != 0
    ensures r.0 <==> rc == 1
    ensures r.1 + 1 == rc
  {
    (rc == 1, rc - 1)
  }

  /** A page just allocated and freed again is free, and its free reports it. */
  lemma AllocThenFree(rc: nat)
    requires rc == 0
    ensures PageAlloc(rc).0
    ensures PageFree(PageAlloc(rc).1) == (true, 0)
  {
  }

  /** Sharing a page and dropping one owner leaves the count as it was, and the page in use. */
  lemma CopyThenFree(rc: nat)
    requires 0 < rc < U16_MAX
    ensures PageFree(PageCopy(rc).value) == (false, rc)
  {
  }

  /** The number of pages in use (count non-zero). */
  function InUse(rc: seq<nat>): nat
  {
    if |rc| == 0 then 0 else InUse(rc[..|rc| - 1]) + (if rc[|rc| - 1] != 0 then 1 else 0)
  }

  /** Changing one count changes the number of pages in use by whether the page was and is in use. */
  lemma {:induction false} InUseUpdate(rc: seq<nat>, i: nat, v: nat)
    requires i < |rc|
    ensures InUse(rc[i := v]) + (if rc[i] != 0 then 1 else 0) == InUse(rc) + (if v != 0 then 1 else 0)
  {
    var n := |rc| - 1;
    if i < n {
      assert rc[i := v][..n] == rc[..n][i := v];
      InUseUpdate(rc[..n], i, v);
    } else {
      assert rc[i := v][..n] == rc[..n];
    }
  }

  /** All pages in use. */
  lemma {:induction false} InUseAll(rc: seq<nat>)
    requires forall i :: 0 <= i < |rc| ==> rc[i] != 0
    ensures InUse(rc) == |rc|
  {
    if |rc| > 0 {
      InUseAll(rc[..|rc| - 1]);
    }
  }

  /** A remainder by `len` of a multiple of `len` plus `j < len` is `j`. */
  lemma ModOfMultiple(m: nat, len: nat, j: nat)
    requires j < len
    ensures (len * m + j) % len == j
  {
    Prefix.DivUnique(len * m + j, len, m, j);
  }

  /** Every page is probed once by `len` consecutive cursor values. */
  lemma ProbesCover(start: nat, len: nat, j: nat)
    requires j < len
    ensures exists k :: start <= k < start + len && k % len == j
  {
    var m := start / len;
    var s := start % len;
    assert start == len * m + s;
    if j >= s {
      ModOfMultiple(m, len, j);
      assert start <= len * m + j < start + len;
    } else {
      ModOfMultiple(m + 1, len, j);
      assert len * (m + 1) + j == len * m + len + j;
      assert start <= len * (m + 1) + j < start + len;
    }
  }

  /** `FrameAllocator`. */
  class FrameAllocator {
    var refCounts: seq<nat>
    var data: seq<nat>
    const firstPage: nat
    var usable: int
    var used: int
    var total: int
    var lastAllocIndex: nat
    /** `used` minus the bytes of the pages in use: what the statistics count besides pages. */
    ghost const base: int

    ghost predicate Valid()
      reads this
    {
      |refCounts| == |data| && 0 < |refCounts|
      && forall i :: 0 <= i < |refCounts| ==> refCounts[i] <= U16_MAX
    }

    /** `used` accounts for exactly the pages in use. */
    ghost predicate Balanced()
      reads this
    {
      used == base + PAGE_SIZE * InUse(refCounts)
    }

    /** Whether `f` is a page this allocator tracks. */
    predicate Tracks(f: Frame)
      reads this
    {
      firstPage <= PageIndex(f) < firstPage + |refCounts|
    }

    function Page(f: Frame): nat
      requires Tracks(f)
      reads this
    {
      PageIndex(f) - firstPage
    }

    /**
     * `init` before the usable regions are handed back: every page marked
     * in use (count 1), `used` equal to `usable`.
     */
    constructor(firstPage: nat, pages: nat, contents: seq<nat>, usable: int, total: int)
      requires 0 < pages && |contents| == pages
      ensures Valid() && Balanced()
      ensures this.firstPage == firstPage && refCounts == seq(pages, _ => 1) && data == contents
      ensures this.usable == usable && used == usable && this.total == total && lastAllocIndex == 0
    {
      this.firstPage := firstPage;
      refCounts := seq(pages, _ => 1);
      data := contents;
      this.usable, used, this.total := usable, usable, total;
      lastAllocIndex := 0;
      base := usable - PAGE_SIZE * pages;
      new;
      InUseAll(refCounts);
    }

    /** `free_mem`: usable bytes not in use. */
    function FreeMem(): (r: nat)
      requires 0 <= used <= usable
      reads this
      ensures r + used == usable
    {
      usable - used
    }

    /** `reserved_mem`: bytes that exist but are not usable. */
    function ReservedMem(): (r: nat)
      requires usable <= total
      reads this
      ensures r + usable == total
    {
      total - usable
    }

    /**
     * `free_no_overwrite`: one owner fewer; only a page that became free
     * lowers `used`. A free page panics (double free).
     */
    method FreeNoOverwrite(f: Frame)
      requires Valid() && Tracks(f) && refCounts[Page(f)] != 0
      modifies this
      ensures |refCounts| == |old(refCounts)|
      ensures Valid()
      ensures refCounts == old(refCounts)[Page(f) := old(refCounts[Page(f)]) - 1]
      ensures used == old(used) - (if old(refCounts[Page(f)]) == 1 then PAGE_SIZE else 0)
      ensures data == old(data) && usable == old(usable) && total == old(total)
      ensures lastAllocIndex == old(lastAllocIndex)
      ensures old(Balanced()) ==> Balanced()
    {
      var page := Page(f);
      InUseUpdate(refCounts, page, refCounts[page] - 1);
      var (nowFree, rc) := PageFree(refCounts[page]);
      refCounts := refCounts[page := rc];
      if nowFree {
        used := used - PAGE_SIZE;
      }
    }

    /** `free`: the page zero-filled, then released. */
    method Free(f: Frame)
      requires Valid() && Tracks(f) && refCounts[Page(f)] != 0
      modifies this
      ensures |refCounts| == |old(refCounts)|
      ensures Valid()
      ensures refCounts == old(refCounts)[Page(f) := old(refCounts[Page(f)]) - 1]
      ensures data == old(data)[Page(f) := ZEROED]
      ensures used == old(used) - (if old(refCounts[Page(f)]) == 1 then PAGE_SIZE else 0)
      ensures usable == old(usable) && total == old(total) && lastAllocIndex == old(lastAllocIndex)
      ensures old(Balanced()) ==> Balanced()
    {
      data := data[Page(f) := ZEROED];
      FreeNoOverwrite(f);
    }

    /**
     * `alloc` as written: tries the pages from the cursor on, cyclically, each
     * at most once, and takes the first free one; without a free page it
     * panics. It does not count the page in `used`.
     */
    method AllocUncounted() returns (f: Frame)
      requires Valid() && exists i :: 0 <= i < |refCounts| && refCounts[i] == 0
      modifies this
      ensures |refCounts| == |old(refCounts)|
      ensures Valid() && Tracks(f) && f == FromIdx(PageIndex(f))
      ensures old(refCounts)[Page(f)] == 0 && refCounts == old(refCounts)[Page(f) := 1]
      ensures old(lastAllocIndex) < lastAllocIndex && Page(f) == (lastAllocIndex - 1) % |refCounts|
      ensures forall k :: old(lastAllocIndex) <= k < lastAllocIndex - 1 ==> refCounts[k % |refCounts|] != 0
      ensures data == old(data) && used == old(used) && usable == old(usable) && total == old(total)
      ensures InUse(refCounts) == old(InUse(refCounts)) + 1
    {
      var len := |refCounts|;
      ghost var start := lastAllocIndex;
      var i := 0;
      while i < len
        invariant 0 <= i <= len && lastAllocIndex == start + i
        invariant refCounts == old(refCounts) && data == old(data)
        invariant used == old(used) && usable == old(usable) && total == old(total)
        invariant forall k :: start <= k < start + i ==> refCounts[k % len] != 0
      {
        var at := lastAllocIndex;
        lastAllocIndex := lastAllocIndex + 1;
        var idx := at % len;
        var (ok, rc) := PageAlloc(refCounts[idx]);
        if ok {
          InUseUpdate(refCounts, idx, rc);
          refCounts := refCounts[idx := rc];
          return FromIdx(firstPage + idx);
        }
        i := i + 1;
      }
      var j :| 0 <= j < len && refCounts[j] == 0;
      ProbesCover(start, len, j);
      assert false;
    }

    /** `alloc` with the page counted in `used`, as `free` expects. */
    method Alloc() returns (f: Frame)
      requires Valid() && exists i :: 0 <= i < |refCounts| && refCounts[i] == 0
      modifies this
      ensures |refCounts| == |old(refCounts)|
      ensures Valid() && Tracks(f) && f == FromIdx(PageIndex(f))
      ensures old(refCounts)[Page(f)] == 0 && refCounts == old(refCounts)[Page(f) := 1]
      ensures old(lastAllocIndex) < lastAllocIndex && Page(f) == (lastAllocIndex - 1) % |refCounts|
      ensures forall k :: old(lastAllocIndex) <= k < lastAllocIndex - 1 ==> refCounts[k % |refCounts|] != 0
      ensures data == old(data) && used == old(used) + PAGE_SIZE && usable == old(usable) && total == old(total)
      ensures old(Balanced()) ==> Balanced()
    {
      f := AllocUncounted();
      used := used + PAGE_SIZE;
    }

    /** `cold_copy_fork`: a fresh page holding the contents of `f`. */
    method ColdCopyFork(f: Frame) returns (copy: Frame)
      requires Valid() && Tracks(f) && exists i :: 0 <= i < |refCounts| && refCounts[i] == 0
      modifies this
      ensures |refCounts| == |old(refCounts)|
      ensures Valid() && Tracks(copy) && old(refCounts)[Page(copy)] == 0
      ensures refCounts == old(refCounts)[Page(copy) := 1]
      ensures data == old(data)[Page(copy) := old(data)[Page(f)]]
      ensures used == old(used) + PAGE_SIZE && usable == old(usable) && total == old(total)
      ensures old(Balanced()) ==> Balanced()
    {
      copy := Alloc();
      data := data[Page(copy) := data[Page(f)]];
    }

    /**
     * `fork`: the same frame with one more owner, or a private copy when the
     * count is full.
     */
    method Fork(f: Frame) returns (r: Frame)
      requires Valid() && Tracks(f) && refCounts[Page(f)] != 0
      requires refCounts[Page(f)] == U16_MAX ==> exists i :: 0 <= i < |refCounts| && refCounts[i] == 0
      modifies this
      ensures |refCounts| == |old(refCounts)|
      ensures Valid() && Tracks(r)
      ensures old(refCounts[Page(f)]) < U16_MAX ==>
        r == f && refCounts == old(refCounts)[Page(f) := old(refCounts[Page(f)]) + 1]
        && data == old(data) && used == old(used)
      ensures old(refCounts[Page(f)]) == U16_MAX ==>
        r != f && old(refCounts)[Page(r)] == 0 && refCounts == old(refCounts)[Page(r) := 1]
        && data == old(data)[Page(r) := old(data)[Page(f)]] && used == old(used) + PAGE_SIZE
      ensures usable == old(usable) && total == old(total)
      ensures old(Balanced()) ==> Balanced()
    {
      var page := Page(f);
      var c := PageCopy(refCounts[page]);
      if c.Err? {
        r := ColdCopyFork(f);
      } else {
        InUseUpdate(refCounts, page, c.value);
        refCounts := refCounts[page := c.value];
        r := f;
      }
    }

    /**
     * `fork_page_fault` (one thread at a time): a free page panics; the only
     * owner keeps the frame; a shared page is copied and loses one owner.
     */
    method ForkPageFault(f: Frame) returns (r: Frame)
      requires Valid() && Tracks(f) && refCounts[Page(f)] != 0
      requires refCounts[Page(f)] >= 2 ==> exists i :: 0 <= i < |refCounts| && refCounts[i] == 0
      modifies this
      ensures |refCounts| == |old(refCounts)|
      ensures Valid() && Tracks(r)
      ensures old(refCounts[Page(f)]) == 1 ==> r == f && refCounts == old(refCounts) && data == old(data) && used == old(used)
      ensures old(refCounts[Page(f)]) >= 2 ==>
        r != f && old(refCounts)[Page(r)] == 0
        && refCounts == old(refCounts)[Page(r) := 1][Page(f) := old(refCounts[Page(f)]) - 1]
        && data == old(data)[Page(r) := old(data)[Page(f)]] && used == old(used) + PAGE_SIZE
      ensures usable == old(usable) && total == old(total)
      ensures old(Balanced()) ==> Balanced()
    {
      var page := Page(f);
      var other := refCounts[page];
      if other == 1 {
        return f;
      }
      r := ColdCopyFork(f);
      InUseUpdate(refCounts, page, other - 1);
      refCounts := refCounts[page := other - 1];
    }
  }

  /**
   * `alloc` followed by `free` of the same page: with the allocator as
   * written, the counts come back to where they were but `used` ends one page
   * lower; with the page counted it comes back too.
   */
  method AllocFreeDrift(a: FrameAllocator)
    requires a.Valid() && exists i :: 0 <= i < |a.refCounts| && a.refCounts[i] == 0
    modifies a
  {
    var counts, used := a.refCounts, a.used;
    var f := a.AllocUncounted();
    a.Free(f);
    assert a.refCounts == counts;
    assert a.used == used - PAGE_SIZE;
  }

  /** With the page counted, an allocation and its free leave `used` unchanged. */
  method AllocFreeBalanced(a: FrameAllocator)
    requires a.Valid() && a.Balanced() && exists i :: 0 <= i < |a.refCounts| && a.refCounts[i] == 0
    modifies a
  {
    var counts, used := a.refCounts, a.used;
    var f := a.Alloc();
    a.Free(f);
    assert a.refCounts == counts && a.used == used && a.Balanced();
  }
}
