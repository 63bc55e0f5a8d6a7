/**
 * The global slab allocator's routing and bookkeeping: thirteen size classes
 * from 8 to 1024 bytes, and "big" allocations above that which take whole
 * pages, with a metadata page in front recording the page count. Two
 * counters track the pages taken from the page allocator (`allocated`) and
 * the bytes handed out (`used`); both are `AtomicUsize` and wrap.
 */
module SlabAlloc {
  import opened Common

  const PAGE: nat := 0x1000
  const WORD: nat := 0x1_0000_0000_0000_0000

  /** The block sizes of the thirteen slabs. */
  const SIZES: seq<nat> := [8, 16, 32, 48, 64, 96, 128, 192, 256, 384, 512, 768, 1024]

  /** The size classes grow strictly and end at 1024. */
  lemma SizesAscending()
    ensures |SIZES| == 13 && SIZES[0] == 8 && SIZES[12] == 1024
    ensures forall i, j :: 0 <= i < j < |SIZES| ==> SIZES[i] < SIZES[j]
  {
  }

  /** `get_slab`: the first (so the smallest) class that holds `size` bytes, with its index. */
  function GetSlab(size: nat): (r: Option<(nat, nat)>)
    ensures r.None? <==> size > 1024
    ensures r.Some? ==> var (idx, cls) := r.value;
      idx < |SIZES| && cls == SIZES[idx] && size <= cls
      && forall j :: 0 <= j < idx ==> SIZES[j] < size
  {
    FindFrom(size, 0)
  }

  /** The search of `get_slab` from index `i` on. */
  function FindFrom(size: nat, i: nat): (r: Option<(nat, nat)>)
    requires i <= |SIZES|
    requires forall j :: 0 <= j < i ==> SIZES[j] < size
    ensures r.None? <==> size > 1024
    ensures r.Some? ==> var (idx, cls) := r.value;
      i <= idx < |SIZES| && cls == SIZES[idx] && size <= cls
      && forall j :: 0 <= j < idx ==> SIZES[j] < size
    decreases |SIZES| - i
  {
    if i == |SIZES| then assert SIZES[12] < size; None
    else if SIZES[i] >= size then Some((i, SIZES[i]))
    else FindFrom(size, i + 1)
  }

  /** `div_ceil(0x1000) + 1`: the pages of a big allocation, metadata page included. */
  function BigPageCount(size: nat): (n: nat)
    ensures 2 <= n || size == 0
    ensures size == 0 ==> n == 1
    ensures size > 0 ==> (n - 1) * PAGE >= size && (n - 2) * PAGE < size
  {
    (size + PAGE - 1) / PAGE + 1
  }

  /** A run of pages: its first address and its length in pages. */
  datatype Pages = Pages(first: nat, len: nat)

  /** Where an allocation request or a free is routed. */
  datatype Route = ToSlab(idx: nat) | Big(pages: Pages)

  function WrapAdd(x: nat, n: nat): (r: nat)
    requires x < WORD
    ensures r < WORD && r == (x + n) % WORD
  {
    (x + n) % WORD
  }

  function WrapSub(x: nat, n: nat): (r: nat)
    requires x < WORD
    ensures r < WORD && r == (x - n) % WORD
  {
    (x - n) % WORD
  }

  /** Subtracting what was added restores a wrapping counter. */
  lemma WrapAddSub(x: nat, n: nat)
    requires x < WORD
    ensures WrapSub(WrapAdd(x, n), n) == x
  {
    var q := (x + n) / WORD;
    assert x + n == q * WORD + WrapAdd(x, n);
    assert WrapAdd(x, n) - n == x - q * WORD;
    ModMultiple(x, q);
  }

  lemma ModMultiple(x: nat, q: int)
    requires x < WORD
    ensures (x - q * WORD) % WORD == x
  {
  }

  /** The global allocator's counters and the big-allocation metadata it has written. */
  class SlabAllocator {
    /** Pages taken from the page allocator. */
    var pagesAllocated: nat
    /** Bytes handed out. */
    var used: nat
    /** The page count recorded in the metadata page at each page address. */
    var bigMeta: map<nat, nat>
    /** The slab index recorded in the header of each slab page (written by the slabs). */
    var slabHeaders: map<nat, nat>

    ghost predicate Valid()
      reads this
    {
      pagesAllocated < WORD && used < WORD
    }

    constructor()
      ensures Valid() && pagesAllocated == 0 && used == 0 && bigMeta == map[] && slabHeaders == map[]
    {
      pagesAllocated, used, bigMeta, slabHeaders := 0, 0, map[], map[];
    }

    /**
     * `alloc`: requests up to 1024 bytes go to the smallest fitting slab,
     * which counts the class size in `used`; when that slab's free list is
     * empty it takes one more page (`refill`, from the page allocator),
     * counts it and writes the slab index into the page header. Larger
     * requests become big allocations on the pages at `first`.
     */
    method Alloc(size: nat, first: nat, refill: Option<nat>) returns (r: Route, ptr: Option<nat>)
      requires Valid() && first % PAGE == 0
      requires refill.Some? ==> refill.value % PAGE == 0
      modifies this
      ensures Valid()
      ensures GetSlab(size).Some? ==> var idx := GetSlab(size).value.0;
        && r == ToSlab(idx) && ptr.None?
        && used == WrapAdd(old(used), SIZES[idx])
        && pagesAllocated == (if refill.Some? then WrapAdd(old(pagesAllocated), 1) else old(pagesAllocated))
        && slabHeaders == (if refill.Some? then old(slabHeaders)[refill.value := idx] else old(slabHeaders))
        && bigMeta == old(bigMeta)
      ensures GetSlab(size).None? ==> (r == Big(Pages(first, BigPageCount(size)))
                                       && ptr == Some(first + PAGE)
                                       && pagesAllocated == WrapAdd(old(pagesAllocated), BigPageCount(size))
                                       && used == WrapAdd(old(used), BigPageCount(size) * PAGE)
                                       && bigMeta == old(bigMeta)[first := BigPageCount(size)]
                                       && slabHeaders == old(slabHeaders))
    {
      var slab := GetSlab(size);
      if slab.Some? {
        var idx := slab.value.0;
        used := WrapAdd(used, SIZES[idx]);
        if refill.Some? {
          pagesAllocated := WrapAdd(pagesAllocated, 1);
          slabHeaders := slabHeaders[refill.value := idx];
        }
        return ToSlab(idx), None;
      }
      var p := BigAlloc(size, first);
      return Big(Pages(first, BigPageCount(size))), Some(p);
    }

    /**
     * `big_alloc`: takes `ceil(size / 4096) + 1` pages at `first`, counts
     * them, writes the page count into the first page and returns the page
     * after it.
     */
    method BigAlloc(size: nat, first: nat) returns (p: nat)
      requires Valid() && first % PAGE == 0
      modifies this
      ensures Valid()
      ensures p == first + PAGE && p % PAGE == 0
      ensures pagesAllocated == WrapAdd(old(pagesAllocated), BigPageCount(size))
      ensures used == WrapAdd(old(used), BigPageCount(size) * PAGE)
      ensures bigMeta == old(bigMeta)[first := BigPageCount(size)]
      ensures slabHeaders == old(slabHeaders)
    {
      var pageCount := BigPageCount(size);
      pagesAllocated := WrapAdd(pagesAllocated, pageCount);
      used := WrapAdd(used, pageCount * PAGE);
      bigMeta := bigMeta[first := pageCount];
      p := first + PAGE;
    }

    /** `big_pages`: the metadata page in front of a big allocation and its page count. */
    function BigPages(alloc: nat): (r: Pages)
      reads this
      requires alloc >= PAGE && alloc - PAGE in bigMeta
      ensures r.first + PAGE == alloc && r.len == bigMeta[alloc - PAGE]
    {
      Pages(alloc - PAGE, bigMeta[alloc - PAGE])
    }

    /**
     * `big_free`: uncounts the pages and bytes of a big allocation and
     * returns the pages for the page allocator.
     */
    method BigFree(alloc: nat) returns (pages: Pages)
      requires Valid() && alloc >= PAGE && alloc - PAGE in bigMeta
      modifies this
      ensures Valid()
      ensures pages == old(BigPages(alloc))
      ensures pagesAllocated == WrapSub(old(pagesAllocated), pages.len)
      ensures used == WrapSub(old(used), pages.len * PAGE)
      ensures bigMeta == old(bigMeta) && slabHeaders == old(slabHeaders)
    {
      pages := BigPages(alloc);
      pagesAllocated := WrapSub(pagesAllocated, pages.len);
      used := WrapSub(used, pages.len * PAGE);
    }

    /** `slab_of`: the slab named by the header of the block's page. */
    function SlabOf(alloc: nat): (idx: nat)
      reads this
      requires alloc - alloc % PAGE in slabHeaders && slabHeaders[alloc - alloc % PAGE] < |SIZES|
      ensures idx < |SIZES|
    {
      slabHeaders[alloc - alloc % PAGE]
    }

    /**
     * `free`: a page-aligned pointer is a big allocation; any other goes back
     * to the slab named in its page header, which uncounts the class size.
     */
    method Free(alloc: nat) returns (r: Route)
      requires Valid()
      requires alloc % PAGE == 0 ==> alloc >= PAGE && alloc - PAGE in bigMeta
      requires alloc % PAGE != 0 ==> (alloc - alloc % PAGE in slabHeaders
                                      && slabHeaders[alloc - alloc % PAGE] < |SIZES|)
      modifies this
      ensures Valid()
      ensures alloc % PAGE == 0 ==> (r == Big(old(BigPages(alloc)))
                                     && pagesAllocated == WrapSub(old(pagesAllocated), r.pages.len)
                                     && used == WrapSub(old(used), r.pages.len * PAGE))
      ensures alloc % PAGE != 0 ==> (r == ToSlab(old(SlabOf(alloc)))
                                     && used == WrapSub(old(used), SIZES[r.idx])
                                     && pagesAllocated == old(pagesAllocated))
      ensures bigMeta == old(bigMeta) && slabHeaders == old(slabHeaders)
    {
      if alloc % PAGE == 0 {
        var pages := BigFree(alloc);
        return Big(pages);
      }
      var idx := SlabOf(alloc);
      used := WrapSub(used, SIZES[idx]);
      return ToSlab(idx);
    }

    /** `size`: the bytes of an allocation, its metadata page included for a big one. */
    function Size(alloc: nat): (n: nat)
      reads this
      requires alloc % PAGE == 0 ==> alloc >= PAGE && alloc - PAGE in bigMeta
      requires alloc % PAGE != 0 ==> (alloc - alloc % PAGE in slabHeaders
                                      && slabHeaders[alloc - alloc % PAGE] < |SIZES|)
      ensures alloc % PAGE == 0 ==> n == bigMeta[alloc - PAGE] * PAGE
      ensures alloc % PAGE != 0 ==> n == SIZES[SlabOf(alloc)]
    {
      if alloc % PAGE == 0 then BigPages(alloc).len * PAGE else SIZES[SlabOf(alloc)]
    }
  }

  /** A big allocation freed again leaves both counters as they were. */
  method BigAllocFree(a: SlabAllocator, size: nat, first: nat)
    requires a.Valid() && first % PAGE == 0
    modifies a
    ensures a.Valid() && a.pagesAllocated == old(a.pagesAllocated) && a.used == old(a.used)
  {
    var p := a.BigAlloc(size, first);
    var pages := a.BigFree(p);
    WrapAddSub(old(a.pagesAllocated), BigPageCount(size));
    WrapAddSub(old(a.used), BigPageCount(size) * PAGE);
  }

  /** A request of `size` bytes is served by a block of at least that size. */
  lemma BigAllocCovers(size: nat)
    requires size > 1024
    ensures (BigPageCount(size) - 1) * PAGE >= size
  {
  }
}
