/**
 * The run-length encoded physical memory map: a list of segments, each a
 * size and a type, laid end to end from address 0; everything past the
 * last segment is reserved. The meaning of a map is the type it gives each
 * address (`TypeAt`); `insert` and `remove` overlay a region with Usable or
 * Reserved, and `alloc` reserves the first usable page.
 */
module Rle {
  import opened Common

  type Pos = n: nat | 0 < n witness 1

  datatype SegmentType = Reserved | Usable

  datatype Segment = Segment(size: Pos, ty: SegmentType)

  datatype Region = Region(addr: nat, size: Pos)

  const PAGE: Pos := 0x1000

  /** The total size of the segments. */
  function Sum(s: seq<Segment>): nat
  {
    if |s| == 0 then 0 else s[0].size + Sum(s[1..])
  }

  /** The type of address `x`: that of the segment covering it, Reserved past the end. */
  function TypeAt(s: seq<Segment>, x: nat): SegmentType
  {
    if |s| == 0 then Reserved
    else if x < s[0].size then s[0].ty
    else TypeAt(s[1..], x - s[0].size)
  }

  lemma {:induction false} SumConcat(a: seq<Segment>, b: seq<Segment>)
    ensures Sum(a + b) == Sum(a) + Sum(b)
  {
    if |a| == 0 {
      assert a + b == b;
    } else {
      assert (a + b)[1..] == a[1..] + b;
      SumConcat(a[1..], b);
    }
  }

  lemma {:induction false} TypeAtConcat(a: seq<Segment>, b: seq<Segment>, x: nat)
    ensures TypeAt(a + b, x) == if x < Sum(a) then TypeAt(a, x) else TypeAt(b, x - Sum(a))
  {
    if |a| == 0 {
      assert a + b == b;
    } else {
      assert (a + b)[1..] == a[1..] + b;
      if x >= a[0].size {
        TypeAtConcat(a[1..], b, x - a[0].size);
      }
    }
  }

  /** Past the end of the map every address is reserved. */
  lemma {:induction false} TypeAtBeyond(s: seq<Segment>, x: nat)
    requires Sum(s) <= x
    ensures TypeAt(s, x) == Reserved
  {
    if |s| > 0 {
      TypeAtBeyond(s[1..], x - s[0].size);
    }
  }

  /** Segment `k` gives its type to the addresses it covers. */
  lemma TypeAtSegment(s: seq<Segment>, k: nat, x: nat)
    requires k < |s| && Sum(s[..k]) <= x < Sum(s[..k]) + s[k].size
    ensures TypeAt(s, x) == s[k].ty
  {
    assert s == s[..k] + ([s[k]] + s[k + 1..]);
    TypeAtConcat(s[..k], [s[k]] + s[k + 1..], x);
    TypeAtConcat([s[k]], s[k + 1..], x - Sum(s[..k]));
    assert [s[k]][1..] == [];
  }

  /** The addresses of the first `k` segments keep their types in the whole map. */
  lemma TypeAtPrefix(s: seq<Segment>, k: nat, x: nat)
    requires k <= |s| && x < Sum(s[..k])
    ensures TypeAt(s[..k], x) == TypeAt(s, x)
  {
    assert s == s[..k] + s[k..];
    TypeAtConcat(s[..k], s[k..], x);
  }

  lemma SumStep(s: seq<Segment>, k: nat)
    requires k < |s|
    ensures Sum(s[..k + 1]) == Sum(s[..k]) + s[k].size
  {
    assert s[..k + 1] == s[..k] + [s[k]];
    SumConcat(s[..k], [s[k]]);
    assert [s[k]][1..] == [];
  }

  /** The map after overlaying addresses `lo..hi` with type `ty`. */
  function Overlaid(s: seq<Segment>, lo: nat, hi: nat, ty: SegmentType, x: nat): SegmentType
  {
    if lo <= x < hi then ty else TypeAt(s, x)
  }

  /** No two neighbours share a type and the map does not end in Reserved. */
  predicate Normal(s: seq<Segment>)
  {
    (forall j :: 0 <= j < |s| - 1 ==> s[j].ty != s[j + 1].ty)
    && (|s| == 0 || s[|s| - 1].ty == Usable)
  }

  /** A segment of `n` bytes, or none for 0 (`NonZero::new`). */
  function Piece(n: nat, ty: SegmentType): (p: seq<Segment>)
    ensures Sum(p) == n
    ensures forall y: nat :: y < n ==> TypeAt(p, y) == ty
  {
    if n > 0 then [Segment(n, ty)] else []
  }

  /**
   * The up to three pieces an overlapped segment at `cur` splits into: its
   * part left of the region, the overlap with the new type, and its part
   * right of the region.
   */
  function SplitPieces(seg: Segment, cur: nat, lo: nat, hi: nat, ty: SegmentType): (p: seq<Segment>)
    requires lo < cur + seg.size && cur < hi && lo < hi
    ensures Sum(p) == seg.size
    ensures forall y: nat :: y < seg.size ==> TypeAt(p, y) == if lo <= cur + y < hi then ty else seg.ty
  {
    var left := if lo >= cur then lo - cur else 0;
    var right := if cur + seg.size >= hi then cur + seg.size - hi else 0;
    var mid := seg.size - left - right;
    var a, b, c := Piece(left, seg.ty), Piece(mid, ty), Piece(right, seg.ty);
    SumConcat(a, b);
    SumConcat(a + b, c);
    forall y: nat | y < seg.size
      ensures TypeAt(a + b + c, y) == if lo <= cur + y < hi then ty else seg.ty
    {
      TypeAtConcat(a + b, c, y);
      if y < left + mid {
        TypeAtConcat(a, b, y);
      }
    }
    a + b + c
  }

  /** Appending the next segment's replacement to a prefix that already has the overlaid meaning keeps that meaning. */
  lemma StepOk(p: seq<Segment>, q: seq<Segment>, b: seq<Segment>, k: nat, lo: nat, hi: nat, ty: SegmentType)
    requires k < |b| && Sum(p) == Sum(b[..k]) && Sum(q) == b[k].size
    requires forall x: nat :: x < Sum(p) ==> TypeAt(p, x) == Overlaid(b, lo, hi, ty, x)
    requires forall y: nat :: y < b[k].size ==> TypeAt(q, y) == if lo <= Sum(p) + y < hi then ty else b[k].ty
    ensures Sum(p + q) == Sum(b[..k + 1])
    ensures forall x: nat :: x < Sum(p + q) ==> TypeAt(p + q, x) == Overlaid(b, lo, hi, ty, x)
  {
    SumConcat(p, q);
    SumStep(b, k);
    forall x: nat | x < Sum(p + q)
      ensures TypeAt(p + q, x) == Overlaid(b, lo, hi, ty, x)
    {
      TypeAtConcat(p, q, x);
      if x >= Sum(p) {
        TypeAtSegment(b, k, x);
      }
    }
  }

  /** `iter_segments`: each segment with the address it starts at, counting from `acc`. */
  function IterSegments(s: seq<Segment>, acc: nat): (r: seq<(Region, SegmentType)>)
    ensures |r| == |s|
    ensures forall j :: 0 <= j < |s| ==> r[j].0.addr == acc + Sum(s[..j]) && r[j].0.size == s[j].size && r[j].1 == s[j].ty
  {
    if |s| == 0 then []
    else
      var rest := IterSegments(s[1..], acc + s[0].size);
      forall j | 1 <= j < |s|
        ensures Sum(s[..j]) == s[0].size + Sum(s[1..][..j - 1])
      {
        assert s[..j][1..] == s[1..][..j - 1];
      }
      [(Region(acc, s[0].size), s[0].ty)] + rest
  }

  /** `iter_usable`: the usable segments' regions, in order. */
  function IterUsable(r: seq<(Region, SegmentType)>): (u: seq<Region>)
    ensures |u| <= |r|
    ensures forall j :: 0 <= j < |u| ==> exists i :: 0 <= i < |r| && r[i] == (u[j], Usable)
    ensures forall i :: 0 <= i < |r| && r[i].1 == Usable ==> r[i].0 in u
  {
    if |r| == 0 then []
    else
      var rest := IterUsable(r[1..]);
      assert forall j :: 0 <= j < |rest| ==> exists i :: 0 <= i < |r[1..]| && r[1..][i] == (rest[j], Usable);
      assert forall i :: 1 <= i < |r| ==> r[i] == r[1..][i - 1];
      if r[0].1 == Usable then
        assert r[0] == (r[0].0, Usable);
        [r[0].0] + rest
      else rest
  }

  /**
   * Filtering distributes over concatenation: the usable regions come out
   * in the order of their segments, each as often as it occurs.
   */
  lemma {:induction false} IterUsableConcat(a: seq<(Region, SegmentType)>, b: seq<(Region, SegmentType)>)
    ensures IterUsable(a + b) == IterUsable(a) + IterUsable(b)
    decreases |a|
  {
    if |a| > 0 {
      assert (a + b)[0] == a[0] && (a + b)[1..] == a[1..] + b;
      IterUsableConcat(a[1..], b);
      if a[0].1 == Usable {
        assert IterUsable(a + b) == [a[0].0] + (IterUsable(a[1..]) + IterUsable(b));
      }
    } else {
      assert a + b == b;
    }
  }

  /** `end_addr`: the end of the last segment, which must be usable (0 for an empty map). */
  function EndAddr(s: seq<Segment>): (e: nat)
    requires |s| == 0 || s[|s| - 1].ty == Usable
    ensures e == Sum(s)
  {
    if |s| == 0 then 0
    else
      var last := IterSegments(s, 0)[|s| - 1].0;
      assert s == s[..|s| - 1] + [s[|s| - 1]];
      SumConcat(s[..|s| - 1], [s[|s| - 1]]);
      assert [s[|s| - 1]][1..] == [];
      last.addr + last.size
  }

  /** `min_usable_addr`: the first segment's size when it is reserved, else 0. */
  function MinUsableAddr(s: seq<Segment>): (a: nat)
    ensures forall x: nat :: x < a ==> TypeAt(s, x) == Reserved
  {
    if |s| == 0 then 0
    else if s[0].ty == Reserved then s[0].size
    else 0
  }

  /** In a normal map, `min_usable_addr` is the lowest usable address. */
  lemma MinUsableIsLowest(s: seq<Segment>)
    requires Normal(s) && |s| > 0
    ensures TypeAt(s, MinUsableAddr(s)) == Usable
    ensures forall x: nat :: x < MinUsableAddr(s) ==> TypeAt(s, x) == Reserved
  {
    if s[0].ty == Reserved {
      assert s[1].ty == Usable;
      assert TypeAt(s[1..], 0) == Usable;
    }
  }

  /** A normal map ends with a usable address: its end is the top of usable memory. */
  lemma NormalEnd(s: seq<Segment>)
    requires Normal(s) && |s| > 0
    ensures TypeAt(s, Sum(s) - 1) == Usable
  {
    var n := |s| - 1;
    assert s == s[..n] + [s[n]] && [s[n]][1..] == [];
    SumConcat(s[..n], [s[n]]);
    TypeAtConcat(s[..n], [s[n]], Sum(s) - 1);
  }

  /** Reserving a region never moves the end of a normal map outwards. */
  lemma RemoveNeverExtends(s: seq<Segment>, t: seq<Segment>, lo: nat, hi: nat)
    requires Normal(t)
    requires forall x: nat :: TypeAt(t, x) == Overlaid(s, lo, hi, Reserved, x)
    ensures Sum(t) <= Sum(s)
  {
    if |t| > 0 {
      NormalEnd(t);
      if Sum(s) <= Sum(t) - 1 {
        TypeAtBeyond(s, Sum(t) - 1);
      }
    }
  }

  /** Adding usable memory ends the map at the region's end or the old end, whichever is later. */
  lemma InsertEnd(s: seq<Segment>, t: seq<Segment>, lo: nat, hi: nat)
    requires Normal(t) && lo < hi
    requires forall x: nat :: TypeAt(t, x) == Overlaid(s, lo, hi, Usable, x)
    ensures hi <= Sum(t) <= Max(Sum(s), hi)
  {
    if Sum(t) < hi {
      TypeAtBeyond(t, hi - 1);
    }
    NormalEnd(t);
    if Sum(s) <= Sum(t) - 1 && hi <= Sum(t) - 1 {
      TypeAtBeyond(s, Sum(t) - 1);
    }
  }

  /** `RleMemory`. */
  class RleMemory {
    var segments: seq<Segment>

    constructor()
      ensures segments == []
    {
      segments := [];
    }

    /**
     * The loop of `insert_segment_at`: walks the segments with the address
     * `cur` each starts at, splitting in place every segment the region
     * overlaps with another type, and stops at the first segment starting at
     * or past the region's end (`cur` then counts that segment too).
     */
    method Walk(lo: nat, hi: nat, ty: SegmentType) returns (cur: nat, ghost broke: bool)
      requires lo < hi
      modifies this
      ensures !broke ==> cur == Sum(old(segments)) && Sum(segments) == cur
      ensures broke ==> cur > hi
      ensures forall x: nat :: (broke || x < cur) ==> TypeAt(segments, x) == Overlaid(old(segments), lo, hi, ty, x)
    {
      ghost var b := segments;
      ghost var k: nat := 0;
      cur := 0;
      broke := false;
      var i: nat := 0;
      while i < |segments|
        invariant k <= |b| && i <= |segments| && segments[i..] == b[k..]
        invariant cur == Sum(b[..k]) == Sum(segments[..i])
        invariant forall x: nat :: x < cur ==> TypeAt(segments[..i], x) == Overlaid(b, lo, hi, ty, x)
        decreases |b| - k
      {
        var seg := segments[i];
        assert seg == b[k] by {
          assert segments[i..][0] == b[k..][0];
        }
        assert segments[i + 1..] == b[k + 1..] by {
          assert segments[i..][1..] == b[k..][1..];
        }
        SumStep(b, k);
        var segEnd := cur + seg.size;
        if lo >= segEnd || (cur < hi && seg.ty == ty) {
          StepOk(segments[..i], [seg], b, k, lo, hi, ty);
          assert segments[..i + 1] == segments[..i] + [seg];
          i := i + 1;
        } else if cur >= hi {
          WalkStopped(segments, i, b, k, lo, hi, ty);
          cur := cur + seg.size;
          broke := true;
          return;
        } else {
          var pieces := SplitPieces(seg, cur, lo, hi, ty);
          StepOk(segments[..i], pieces, b, k, lo, hi, ty);
          ghost var before := segments;
          segments := segments[..i] + pieces + segments[i + 1..];
          assert segments[..i + |pieces|] == before[..i] + pieces by {
            assert segments == (before[..i] + pieces) + before[i + 1..];
          }
          i := i + |pieces|;
        }
        k := k + 1;
        cur := cur + seg.size;
      }
      WalkDone(segments, i, b, k, lo, hi, ty);
    }

    /**
     * `insert_segment_at` before its clean-up: the walk, then for a usable
     * region reaching past the end, reserved padding up to the region and
     * the region's remainder appended.
     */
    method Overlay(region: Region, ty: SegmentType)
      modifies this
      ensures forall x: nat :: TypeAt(segments, x) == Overlaid(old(segments), region.addr, region.addr + region.size, ty, x)
    {
      var lo := region.addr;
      var hi := lo + region.size;
      ghost var b := segments;
      var cur: nat;
      ghost var broke: bool;
      cur, broke := Walk(lo, hi, ty);
      if ty == Usable {
        var start := if lo >= cur then lo else cur;
        if hi > start {
          var padding := if lo >= cur then lo - cur else 0;
          AppendOk(segments, b, cur, lo, hi, padding, start);
          segments := segments + Piece(padding, Reserved) + [Segment(hi - start, Usable)];
          return;
        }
      }
      WalkUntouched(segments, b, cur, broke, lo, hi, ty);
    }

    /** The merge loop of `fixup`: neighbours of one type become one segment. */
    method MergeNeighbours()
      modifies this
      ensures forall x: nat :: TypeAt(segments, x) == TypeAt(old(segments), x)
      ensures Sum(segments) == Sum(old(segments)) && |segments| <= |old(segments)|
      ensures forall j :: 0 <= j < |segments| - 1 ==> segments[j].ty != segments[j + 1].ty
      ensures |old(segments)| > 0 ==> |segments| > 0 && segments[|segments| - 1].ty == old(segments)[|old(segments)| - 1].ty
    {
      var i := 0;
      while i + 1 < |segments|
        invariant forall x: nat :: TypeAt(segments, x) == TypeAt(old(segments), x)
        invariant Sum(segments) == Sum(old(segments)) && |segments| <= |old(segments)|
        invariant |old(segments)| > 0 ==> i < |segments| && segments[|segments| - 1].ty == old(segments)[|old(segments)| - 1].ty
        invariant i == 0 || i < |segments|
        invariant forall j :: 0 <= j < i ==> segments[j].ty != segments[j + 1].ty
        decreases |segments| - i
      {
        var right := segments[i + 1];
        var left := segments[i];
        if left.ty == right.ty {
          var merged := [Segment(left.size + right.size, left.ty)];
          MergePreserves(segments, i);
          ghost var before := segments;
          segments := segments[..i] + merged + segments[i + 2..];
          assert forall j :: 0 <= j < i ==> segments[j] == before[j];
          assert segments[i] == merged[0];
        } else {
          i := i + 1;
        }
      }
    }

    /**
     * `fixup` as intended: neighbours merged first, then a trailing reserved
     * segment dropped, which leaves the map normal.
     */
    method Fixup()
      modifies this
      ensures forall x: nat :: TypeAt(segments, x) == TypeAt(old(segments), x)
      ensures Normal(segments)
    {
      MergeNeighbours();
      if |segments| > 0 && segments[|segments| - 1].ty == Reserved {
        DropTrailingReserved(segments);
        segments := segments[..|segments| - 1];
      }
    }

    /**
     * `fixup` as written: one trailing reserved segment dropped, then
     * neighbours merged; two reserved segments at the end merge into one
     * that stays.
     */
    method FixupAsWritten()
      modifies this
      ensures forall x: nat :: TypeAt(segments, x) == TypeAt(old(segments), x)
      ensures forall j :: 0 <= j < |segments| - 1 ==> segments[j].ty != segments[j + 1].ty
      ensures |old(segments)| > 0 && old(segments)[|old(segments)| - 1].ty == Reserved ==>
                (Sum(segments) == Sum(old(segments)[..|old(segments)| - 1]) && |segments| < |old(segments)|)
    {
      if |segments| > 0 && segments[|segments| - 1].ty == Reserved {
        DropTrailingReserved(segments);
        segments := segments[..|segments| - 1];
      }
      MergeNeighbours();
    }

    /**
     * `insert`: the region becomes usable; nothing else changes meaning.
     * Normality comes from the corrected `fixup`.
     */
    method Insert(region: Region)
      modifies this
      ensures Normal(segments)
      ensures forall x: nat :: TypeAt(segments, x) == Overlaid(old(segments), region.addr, region.addr + region.size, Usable, x)
    {
      Overlay(region, Usable);
      Fixup();
    }

    /**
     * `remove`: the region becomes reserved; nothing else changes meaning.
     * Normality comes from the corrected `fixup`; the one as written can
     * leave a trailing reserved segment.
     */
    method Remove(region: Region)
      modifies this
      ensures Normal(segments)
      ensures forall x: nat :: TypeAt(segments, x) == Overlaid(old(segments), region.addr, region.addr + region.size, Reserved, x)
    {
      Overlay(region, Reserved);
      Fixup();
    }

    /**
     * `alloc`: reserves the first usable page and returns its address; an
     * empty map gives 0 and stays empty. The first usable segment must hold
     * a page.
     */
    method Alloc() returns (addr: nat)
      requires |segments| > 0 && segments[0].ty == Reserved ==> |segments| > 1 && segments[1].ty == Usable
      requires |segments| > 0 ==> (if segments[0].ty == Reserved then segments[1].size else segments[0].size) >= PAGE
      modifies this
      ensures Normal(segments)
      ensures old(segments) == [] ==> addr == 0 && segments == []
      ensures old(segments) != [] ==>
                (addr == MinUsableAddr(old(segments))
                 && forall x: nat :: TypeAt(segments, x) == Overlaid(old(segments), addr, addr + PAGE, Reserved, x))
    {
      if |segments| == 0 {
        return 0;
      }
      var idx := 0;
      addr := 0;
      if segments[0].ty == Reserved {
        addr := segments[0].size;
        idx := 1;
      }
      var first := segments[idx];
      ghost var head, rest := segments[..idx], segments[idx + 1..];
      assert segments == head + [first] + rest;
      assert Sum(head) == addr by {
        if idx == 1 {
          assert head == [segments[0]] && head[1..] == [];
        }
      }
      var left := first.size - PAGE;
      if left != 0 {
        AllocSplitMeaning(head, first, rest, Segment(left, first.ty));
        segments := [Segment(PAGE, Reserved)] + segments[idx := Segment(left, first.ty)];
        assert segments == PAGE_RESERVED + head + [Segment(left, first.ty)] + rest;
      } else {
        AllocWholeMeaning(head, first, rest);
        segments := segments[idx := Segment(PAGE, Reserved)];
        assert segments == head + PAGE_RESERVED + rest;
      }
      Fixup();
    }
  }

  /** A walk stopped before segment `k`, at or past the region's end, leaves the rest as it was. */
  lemma WalkStopped(s: seq<Segment>, i: nat, b: seq<Segment>, k: nat, lo: nat, hi: nat, ty: SegmentType)
    requires k <= |b| && i <= |s| && s[i..] == b[k..]
    requires Sum(s[..i]) == Sum(b[..k]) >= hi
    requires forall x: nat :: x < Sum(s[..i]) ==> TypeAt(s[..i], x) == Overlaid(b, lo, hi, ty, x)
    ensures forall x: nat :: TypeAt(s, x) == Overlaid(b, lo, hi, ty, x)
  {
    assert s == s[..i] + s[i..];
    assert b == b[..k] + b[k..];
    forall x: nat
      ensures TypeAt(s, x) == Overlaid(b, lo, hi, ty, x)
    {
      TypeAtConcat(s[..i], s[i..], x);
      TypeAtConcat(b[..k], b[k..], x);
    }
  }

  /** A walk that went through every segment covers the old map's whole extent. */
  lemma WalkDone(s: seq<Segment>, i: nat, b: seq<Segment>, k: nat, lo: nat, hi: nat, ty: SegmentType)
    requires k <= |b| && i == |s| && s[i..] == b[k..]
    requires Sum(s[..i]) == Sum(b[..k])
    requires forall x: nat :: x < Sum(s[..i]) ==> TypeAt(s[..i], x) == Overlaid(b, lo, hi, ty, x)
    ensures Sum(s) == Sum(b) == Sum(b[..k])
    ensures forall x: nat :: x < Sum(s) ==> TypeAt(s, x) == Overlaid(b, lo, hi, ty, x)
  {
    assert |b[k..]| == 0;
    assert s[..i] == s && b[..k] == b;
  }

  /** Padding and the region's remainder past the end complete a usable overlay. */
  lemma AppendOk(w: seq<Segment>, b: seq<Segment>, cur: nat, lo: nat, hi: nat, padding: nat, start: nat)
    requires cur == Sum(b) == Sum(w)
    requires start == (if lo >= cur then lo else cur) < hi
    requires padding == (if lo >= cur then lo - cur else 0)
    requires forall x: nat :: x < cur ==> TypeAt(w, x) == Overlaid(b, lo, hi, Usable, x)
    ensures forall x: nat :: TypeAt(w + Piece(padding, Reserved) + [Segment(hi - start, Usable)], x) == Overlaid(b, lo, hi, Usable, x)
  {
    var p := Piece(padding, Reserved);
    var u := [Segment(hi - start, Usable)];
    assert u[1..] == [];
    SumConcat(w, p);
    forall x: nat
      ensures TypeAt(w + p + u, x) == Overlaid(b, lo, hi, Usable, x)
    {
      TypeAtConcat(w + p, u, x);
      TypeAtConcat(w, p, x);
      if x >= cur {
        TypeAtBeyond(b, x);
      }
    }
  }

  /** Without a usable remainder past the end, the walk alone is the overlay. */
  lemma WalkUntouched(s: seq<Segment>, b: seq<Segment>, cur: nat, broke: bool, lo: nat, hi: nat, ty: SegmentType)
    requires !broke ==> cur == Sum(b) && Sum(s) == cur
    requires !broke && ty == Usable ==> hi <= (if lo >= cur then lo else cur)
    requires forall x: nat :: (broke || x < cur) ==> TypeAt(s, x) == Overlaid(b, lo, hi, ty, x)
    ensures forall x: nat :: TypeAt(s, x) == Overlaid(b, lo, hi, ty, x)
  {
    forall x: nat
      ensures TypeAt(s, x) == Overlaid(b, lo, hi, ty, x)
    {
      if !broke && x >= cur {
        TypeAtBeyond(s, x);
        TypeAtBeyond(b, x);
      }
    }
  }

  /** Merging neighbours `i` and `i + 1` of one type changes neither the meaning nor the total size. */
  lemma MergePreserves(s: seq<Segment>, i: nat)
    requires i + 1 < |s| && s[i].ty == s[i + 1].ty
    ensures var t := s[..i] + [Segment(s[i].size + s[i + 1].size, s[i].ty)] + s[i + 2..];
      Sum(t) == Sum(s) && forall x: nat :: TypeAt(t, x) == TypeAt(s, x)
  {
    var m := [Segment(s[i].size + s[i + 1].size, s[i].ty)];
    var pair := [s[i], s[i + 1]];
    assert s == s[..i] + pair + s[i + 2..];
    assert pair[1..] == [s[i + 1]] && [s[i + 1]][1..] == [] && m[1..] == [];
    SumConcat(s[..i] + pair, s[i + 2..]);
    SumConcat(s[..i], pair);
    SumConcat(s[..i] + m, s[i + 2..]);
    SumConcat(s[..i], m);
    forall x: nat
      ensures TypeAt(s[..i] + m + s[i + 2..], x) == TypeAt(s, x)
    {
      TypeAtConcat(s[..i] + m, s[i + 2..], x);
      TypeAtConcat(s[..i] + pair, s[i + 2..], x);
      TypeAtConcat(s[..i], m, x);
      TypeAtConcat(s[..i], pair, x);
    }
  }

  /** A reserved last segment means nothing: past the end is reserved anyway. */
  lemma DropTrailingReserved(s: seq<Segment>)
    requires |s| > 0 && s[|s| - 1].ty == Reserved
    ensures forall x: nat :: TypeAt(s[..|s| - 1], x) == TypeAt(s, x)
  {
    var n := |s| - 1;
    assert s == s[..n] + [s[n]];
    forall x: nat
      ensures TypeAt(s[..n], x) == TypeAt(s, x)
    {
      TypeAtConcat(s[..n], [s[n]], x);
      if x >= Sum(s[..n]) {
        TypeAtBeyond(s[..n], x);
        assert [s[n]][1..] == [];
      }
    }
  }

  /** The meaning of a map in three parts: each part covers its own stretch. */
  lemma ThreeParts(pre: seq<Segment>, mid: seq<Segment>, rest: seq<Segment>, x: nat)
    ensures TypeAt(pre + mid + rest, x) ==
      if x < Sum(pre) then TypeAt(pre, x)
      else if x < Sum(pre) + Sum(mid) then TypeAt(mid, x - Sum(pre))
      else TypeAt(rest, x - Sum(pre) - Sum(mid))
  {
    TypeAtConcat(pre + mid, rest, x);
    TypeAtConcat(pre, mid, x);
    SumConcat(pre, mid);
  }

  /** Segments that are all reserved reserve every address. */
  lemma {:induction false} AllReserved(s: seq<Segment>, x: nat)
    requires forall j :: 0 <= j < |s| ==> s[j].ty == Reserved
    ensures TypeAt(s, x) == Reserved
  {
    if |s| > 0 && x >= s[0].size {
      AllReserved(s[1..], x - s[0].size);
    }
  }

  /**
   * The map `alloc` builds before its clean-up, when the first usable
   * segment is larger than a page: a reserved page in front, the usable
   * segment one page shorter; this reserves exactly that segment's first page.
   */
  lemma AllocSplitMeaning(head: seq<Segment>, first: Segment, rest: seq<Segment>, u: Segment)
    requires forall j :: 0 <= j < |head| ==> head[j].ty == Reserved
    requires first.ty == Usable && first.size > PAGE && u == Segment(first.size - PAGE, Usable)
    ensures forall x: nat :: TypeAt(PAGE_RESERVED + head + [u] + rest, x)
                            == Overlaid(head + [first] + rest, Sum(head), Sum(head) + PAGE, Reserved, x)
  {
    var pre := PAGE_RESERVED + head;
    assert PAGE_RESERVED + head + [u] + rest == pre + [u] + rest;
    assert forall j :: 0 <= j < |pre| ==> pre[j].ty == Reserved;
    SumConcat(PAGE_RESERVED, head);
    assert PAGE_RESERVED[1..] == [] && [u][1..] == [] && [first][1..] == [];
    forall x: nat
      ensures TypeAt(pre + [u] + rest, x) == Overlaid(head + [first] + rest, Sum(head), Sum(head) + PAGE, Reserved, x)
    {
      ThreeParts(pre, [u], rest, x);
      ThreeParts(head, [first], rest, x);
      if x < Sum(pre) {
        AllReserved(pre, x);
        AllReserved(head, x);
      }
    }
  }

  /**
   * The map `alloc` builds before its clean-up, when the first usable
   * segment is exactly a page: that segment turns reserved.
   */
  lemma AllocWholeMeaning(head: seq<Segment>, first: Segment, rest: seq<Segment>)
    requires forall j :: 0 <= j < |head| ==> head[j].ty == Reserved
    requires first.size == PAGE
    ensures forall x: nat :: TypeAt(head + PAGE_RESERVED + rest, x)
                            == Overlaid(head + [first] + rest, Sum(head), Sum(head) + PAGE, Reserved, x)
  {
    assert PAGE_RESERVED[1..] == [] && [first][1..] == [];
    forall x: nat
      ensures TypeAt(head + PAGE_RESERVED + rest, x) == Overlaid(head + [first] + rest, Sum(head), Sum(head) + PAGE, Reserved, x)
    {
      ThreeParts(head, PAGE_RESERVED, rest, x);
      ThreeParts(head, [first], rest, x);
    }
  }

  const PAGE_RESERVED: seq<Segment> := [Segment(PAGE, Reserved)]

  /**
   * Removing the usable page behind a reserved page: the walk leaves two
   * reserved segments, and `fixup` as written drops only one, so the map
   * ends in Reserved (where `end_addr` panics); as intended it is empty.
   */
  method RemoveLastUsable()
  {
    var m := new RleMemory();
    m.segments := [Segment(0x1000, Reserved), Segment(0x1000, Reserved)];
    m.FixupAsWritten();
    assert |m.segments| <= 1 && Sum(m.segments) == 0x1000;
    assert m.segments == [m.segments[0]] && m.segments[0].size == 0x1000;
    assert TypeAt(m.segments, 0) == Reserved;
    assert !Normal(m.segments);

    m.segments := [Segment(0x1000, Reserved), Segment(0x1000, Reserved)];
    m.Fixup();
    assert Normal(m.segments);
  }
}
