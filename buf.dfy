/**
 * Splitting a user buffer (a range of virtual addresses) at 4 KiB page
 * boundaries: the page-aligned bounds of the range, the number of pages it
 * touches and the number it covers fully, the pieces it falls into, and the
 * step-by-step page iterator.
 */
module Buf {
  import opened Common

  const PAGE: nat := 0x1000

  function AlignDown(a: nat): (r: nat)
    ensures r <= a < r + PAGE && r % PAGE == 0
  {
    a - a % PAGE
  }

  function AlignUp(a: nat): (r: nat)
    ensures a <= r < a + PAGE && r % PAGE == 0
    ensures a % PAGE == 0 ==> r == a
  {
    if a % PAGE == 0 then a else AlignDown(a) + PAGE
  }

  /** A half-open range of addresses `start..end`. */
  datatype Range = Range(start: nat, end: nat)

  /** A user buffer: where it starts and how many elements it holds. */
  datatype Buffer = Buffer(ptr: nat, len: nat) {
    predicate IsEmpty() { len == 0 }
  }

  datatype PtrRangeInfo = PtrRangeInfo(
    beg: nat, end: nat,
    insideAlignedBeg: nat, insideAlignedEnd: nat,
    alignedBeg: nat, alignedEnd: nat,
    firstPageSize: nat, lastPageSize: nat,
    nFullPages: nat, nPages: nat)

  /**
   * Whether `ptr_range_info` can compute all its differences without going
   * below zero: the range must reach from a page boundary at or after `beg`
   * to one at or before `end`.
   */
  predicate SpansBoundaries(beg: nat, end: nat)
  {
    beg <= end && AlignUp(beg) <= AlignDown(end)
  }

  /**
   * `ptr_range_info` as written: the aligned bounds outside and inside the
   * range, the page counts, and the sizes of the partial first and last
   * pages, where the first is measured up to the INNER END.
   */
  function RangeInfoAsWritten(beg: nat, end: nat): (r: PtrRangeInfo)
    requires SpansBoundaries(beg, end)
    ensures r.alignedBeg <= beg <= r.insideAlignedBeg <= r.insideAlignedEnd <= end <= r.alignedEnd
    ensures r.nPages * PAGE == r.alignedEnd - r.alignedBeg
    ensures r.nFullPages * PAGE == r.insideAlignedEnd - r.insideAlignedBeg
    ensures r.lastPageSize == end - r.insideAlignedEnd
    ensures r.firstPageSize == r.insideAlignedEnd - beg
  {
    var iab, iae := AlignUp(beg), AlignDown(end);
    var ab, ae := AlignDown(beg), AlignUp(end);
    DivExact(iae - iab);
    DivExact(ae - ab);
    PtrRangeInfo(beg, end, iab, iae, ab, ae, iae - beg, end - iae, (iae - iab) / PAGE, (ae - ab) / PAGE)
  }

  /** The same record with the first partial page measured up to the inner start. */
  function RangeInfo(beg: nat, end: nat): (r: PtrRangeInfo)
    requires SpansBoundaries(beg, end)
    ensures r == RangeInfoAsWritten(beg, end).(firstPageSize := AlignUp(beg) - beg)
    ensures r.firstPageSize == 0 <==> beg % PAGE == 0
    ensures r.lastPageSize == 0 <==> end % PAGE == 0
    ensures r.nPages == r.nFullPages + (if beg % PAGE == 0 then 0 else 1) + (if end % PAGE == 0 then 0 else 1)
  {
    var w := RangeInfoAsWritten(beg, end);
    DivExact(w.alignedEnd - w.alignedBeg);
    DivExact(w.insideAlignedEnd - w.insideAlignedBeg);
    var extra := (if beg % PAGE == 0 then 0 else 1) + (if end % PAGE == 0 then 0 else 1);
    assert w.alignedEnd - w.alignedBeg == (w.insideAlignedEnd - w.insideAlignedBeg) + extra * PAGE;
    DivAdd(w.insideAlignedEnd - w.insideAlignedBeg, extra);
    w.(firstPageSize := w.insideAlignedBeg - beg)
  }

  lemma DivExact(x: nat)
    requires x % PAGE == 0
    ensures (x / PAGE) * PAGE == x
  {
  }

  lemma DivAdd(x: nat, k: nat)
    requires x % PAGE == 0
    ensures (x + k * PAGE) / PAGE == x / PAGE + k
  {
  }

  /** The `n` full pages from `base` on, one range each. */
  function FullPages(base: nat, n: nat): (r: seq<Range>)
    ensures |r| == n
    ensures forall i :: 0 <= i < n ==> r[i] == Range(base + i * PAGE, base + i * PAGE + PAGE)
  {
    if n == 0 then [] else FullPages(base, n - 1) + [Range(base + (n - 1) * PAGE, base + (n - 1) * PAGE + PAGE)]
  }

  /** The pieces `page_split_iterator` yields for the record `info`. */
  function Pieces(info: PtrRangeInfo): seq<Range>
  {
    (if info.firstPageSize != 0 then [Range(info.beg, info.insideAlignedBeg)] else [])
    + FullPages(info.insideAlignedBeg, info.nFullPages)
    + (if info.lastPageSize != 0 then [Range(info.insideAlignedEnd, info.end)] else [])
  }

  /** `page_split_iterator` as written. */
  function PageSplitAsWritten(beg: nat, end: nat): (r: seq<Range>)
    requires SpansBoundaries(beg, end)
    ensures beg % PAGE != 0 || beg == AlignDown(end) ==> r == PageSplit(beg, end)
    ensures beg % PAGE == 0 && beg < AlignDown(end) ==> r == [Range(beg, beg)] + PageSplit(beg, end)
  {
    var w := RangeInfoAsWritten(beg, end);
    var rest := FullPages(w.insideAlignedBeg, w.nFullPages)
      + (if w.lastPageSize != 0 then [Range(w.insideAlignedEnd, end)] else []);
    assert Pieces(RangeInfo(beg, end)) == (if AlignUp(beg) - beg != 0 then [Range(beg, w.insideAlignedBeg)] else []) + rest;
    assert Pieces(w) == (if w.firstPageSize != 0 then [Range(beg, w.insideAlignedBeg)] else []) + rest;
    Pieces(w)
  }

  /** The page split with the first partial page measured to the inner start. */
  function PageSplit(beg: nat, end: nat): seq<Range>
    requires SpansBoundaries(beg, end)
  {
    Pieces(RangeInfo(beg, end))
  }

  /** As written, an aligned range of two pages starts with an empty piece. */
  lemma PageSplitEmptyPiece()
    ensures SpansBoundaries(0x1000, 0x3000)
    ensures PageSplitAsWritten(0x1000, 0x3000)[0] == Range(0x1000, 0x1000)
    ensures |PageSplitAsWritten(0x1000, 0x3000)| == 3
  {
    var w := RangeInfoAsWritten(0x1000, 0x3000);
    assert w.firstPageSize == 0x2000 && w.nFullPages == 2 && w.lastPageSize == 0;
  }

  /** Every piece is non-empty and within one page. */
  predicate GoodPiece(p: Range)
  {
    p.start < p.end && AlignDown(p.start) + PAGE >= p.end
  }

  /** The pieces follow each other without gap from `from` to `to`. */
  predicate Tiles(ps: seq<Range>, from: nat, to: nat)
  {
    (|ps| == 0 ==> from == to)
    && (|ps| > 0 ==> ps[0].start == from && ps[|ps| - 1].end == to
                     && forall i :: 0 <= i < |ps| - 1 ==> ps[i].end == ps[i + 1].start)
  }

  lemma TilesConcat(a: seq<Range>, b: seq<Range>, x: nat, y: nat, z: nat)
    requires Tiles(a, x, y) && Tiles(b, y, z)
    ensures Tiles(a + b, x, z)
  {
    if |a| > 0 && |b| > 0 {
      forall i | 0 <= i < |a + b| - 1
        ensures (a + b)[i].end == (a + b)[i + 1].start
      {
        if i == |a| - 1 {
        } else if i < |a| - 1 {
        } else {
          assert (a + b)[i] == b[i - |a|] && (a + b)[i + 1] == b[i - |a| + 1];
        }
      }
    }
  }

  lemma FullPagesTile(base: nat, n: nat)
    requires base % PAGE == 0
    ensures Tiles(FullPages(base, n), base, base + n * PAGE)
    ensures forall i :: 0 <= i < n ==> GoodPiece(FullPages(base, n)[i])
  {
    var r := FullPages(base, n);
    forall i | 0 <= i < n
      ensures GoodPiece(r[i])
    {
      AlignedMultiple(base, i);
    }
  }

  lemma AlignedMultiple(base: nat, i: nat)
    requires base % PAGE == 0
    ensures AlignDown(base + i * PAGE) == base + i * PAGE
  {
  }

  /**
   * With the first partial page measured to the inner start, the pieces are
   * non-empty, each within one page, and tile the range from `beg` to `end`;
   * there is one per page the range touches.
   */
  lemma PageSplitCorrect(beg: nat, end: nat)
    requires SpansBoundaries(beg, end) && beg < end
    ensures Tiles(PageSplit(beg, end), beg, end)
    ensures forall i :: 0 <= i < |PageSplit(beg, end)| ==> GoodPiece(PageSplit(beg, end)[i])
    ensures |PageSplit(beg, end)| == RangeInfo(beg, end).nPages
  {
    var info := RangeInfo(beg, end);
    var head := if info.firstPageSize != 0 then [Range(beg, info.insideAlignedBeg)] else [];
    var mid := FullPages(info.insideAlignedBeg, info.nFullPages);
    var tail := if info.lastPageSize != 0 then [Range(info.insideAlignedEnd, end)] else [];
    assert PageSplit(beg, end) == head + mid + tail;
    FullPagesTile(info.insideAlignedBeg, info.nFullPages);
    assert info.insideAlignedBeg + info.nFullPages * PAGE == info.insideAlignedEnd;
    assert Tiles(head, beg, info.insideAlignedBeg);
    assert Tiles(tail, info.insideAlignedEnd, end);
    TilesConcat(head, mid, beg, info.insideAlignedBeg, info.insideAlignedEnd);
    TilesConcat(head + mid, tail, beg, info.insideAlignedEnd, end);
    forall i | 0 <= i < |head + mid + tail|
      ensures GoodPiece((head + mid + tail)[i])
    {
      if i < |head| {
      } else if i < |head| + |mid| {
        assert (head + mid + tail)[i] == mid[i - |head|];
      } else {
        assert (head + mid + tail)[i] == tail[i - |head| - |mid|];
      }
    }
  }

  /** The step of `PageIter::next` as written: up to the aligned-up start, capped at the end. */
  function StepAsWritten(beg: nat, end: nat): (r: nat)
    ensures beg % PAGE == 0 ==> r == Min(beg, end)
    ensures beg < end && beg % PAGE != 0 ==> r == Step(beg, end)
  {
    Min(AlignUp(beg), end)
  }

  /** As written, the iterator does not move from a page-aligned start. */
  lemma StepStalls()
    ensures StepAsWritten(0x1000, 0x2000) == 0x1000
  {
  }

  /** The step that reaches the next page boundary (or the end) after `beg`. */
  function Step(beg: nat, end: nat): (r: nat)
    requires beg < end
    ensures beg < r <= end
    ensures r == end || r % PAGE == 0
    ensures r - beg <= PAGE
    ensures AlignDown(beg) + PAGE >= r
  {
    Min(AlignDown(beg) + PAGE, end)
  }

  /** `PageIter`: the rest of a range, consumed one page piece at a time. */
  class PageIter {
    var beg: nat
    const end: nat

    ghost predicate Valid()
      reads this
    {
      beg <= end
    }

    constructor(beg: nat, end: nat)
      requires beg <= end
      ensures Valid() && this.beg == beg && this.end == end
    {
      this.beg, this.end := beg, end;
    }

    /** `next` as written: from a page-aligned start it yields an empty piece and stays. */
    method NextAsWritten() returns (r: Option<Range>)
      requires Valid()
      modifies this
      ensures Valid()
      ensures old(beg) == end ==> r.None? && beg == end
      ensures old(beg) < end ==> r == Some(Range(old(beg), beg)) && beg == StepAsWritten(old(beg), end)
    {
      if beg == end {
        return None;
      }
      var nextBeg := beg;
      beg := Min(AlignUp(beg), end);
      return Some(Range(nextBeg, beg));
    }

    /** `next`: the piece from the current start to the next page boundary or the end. */
    method Next() returns (r: Option<Range>)
      requires Valid()
      modifies this
      ensures Valid()
      ensures old(beg) == end ==> r.None? && beg == end
      ensures old(beg) < end ==> r == Some(Range(old(beg), beg)) && beg == Step(old(beg), end)
      ensures old(beg) < end ==> GoodPiece(r.value) && end - beg < end - old(beg)
    {
      if beg == end {
        return None;
      }
      var nextBeg := beg;
      beg := Step(beg, end);
      return Some(Range(nextBeg, beg));
    }
  }

  /** Draining the iterator yields non-empty one-page pieces that tile the range. */
  method Drain(it: PageIter) returns (pieces: seq<Range>)
    requires it.Valid()
    modifies it
    ensures it.Valid() && it.beg == it.end
    ensures Tiles(pieces, old(it.beg), it.end)
    ensures forall i :: 0 <= i < |pieces| ==> GoodPiece(pieces[i])
  {
    pieces := [];
    while it.beg < it.end
      invariant it.Valid()
      invariant Tiles(pieces, old(it.beg), it.beg)
      invariant forall i :: 0 <= i < |pieces| ==> GoodPiece(pieces[i])
      decreases it.end - it.beg
    {
      ghost var b := it.beg;
      var r := it.Next();
      TilesConcat(pieces, [r.value], old(it.beg), b, it.beg);
      pieces := pieces + [r.value];
    }
  }
}
