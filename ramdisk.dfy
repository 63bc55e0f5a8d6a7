/**
 * The in-memory file system's nodes. A `File` keeps its bytes in a list
 * of page frames (each a whole number of 4 KiB pages, zero-filled when
 * allocated) plus a length that may be shorter or longer than the frames;
 * bytes past the frames read as zero. A `Directory` maps names to nodes.
 */
module Ramdisk {
  import opened Common
  import SyscallErr
  import opened VfsDevice

  const PAGE_SIZE: nat := 0x1000

  function Zeros(n: nat): (r: seq<u8>)
    ensures |r| == n && forall i :: 0 <= i < n ==> r[i] == 0
  {
    seq(n, _ => 0)
  }

  lemma ZerosAdd(a: nat, b: nat)
    ensures Zeros(a) + Zeros(b) == Zeros(a + b)
  {
    assert forall i :: 0 <= i < a + b ==> (Zeros(a) + Zeros(b))[i] == 0;
  }

  /** `n.div_ceil(0x1000) * 0x1000`: `n` rounded up to whole pages. */
  function PageRound(n: nat): (r: nat)
    ensures n <= r < n + PAGE_SIZE && r % PAGE_SIZE == 0
  {
    n + (PAGE_SIZE - n % PAGE_SIZE) % PAGE_SIZE
  }

  // ---- Slicing facts, stated once for any element type ---------------------

  lemma SliceSnoc<T>(s: seq<T>, i: nat)
    requires i < |s|
    ensures s[..i + 1] == s[..i] + [s[i]]
  {
  }

  lemma SliceSplit<T>(s: seq<T>, i: nat)
    requires i <= |s|
    ensures s == s[..i] + s[i..]
  {
  }

  lemma SliceAll<T>(s: seq<T>)
    ensures s[..|s|] == s
  {
  }

  lemma SlicePrefix<T>(s: seq<T>, i: nat, j: nat)
    requires i <= j <= |s|
    ensures s[..j][..i] == s[..i]
  {
  }

  lemma ConcatInit<T>(a: seq<T>, b: seq<T>)
    requires |b| > 0
    ensures (a + b)[..|a + b| - 1] == a + b[..|b| - 1]
  {
  }

  lemma ConsConcat<T>(s: seq<T>, tail: seq<T>)
    requires |s| > 0
    ensures s + tail == [s[0]] + (s[1..] + tail)
  {
  }

  lemma UpdateKeeps<T>(s: seq<T>, i: nat, x: T)
    requires i < |s|
    ensures s[i := x][..i] == s[..i] && s[i := x][i + 1..] == s[i + 1..]
  {
  }

  // ---- The frames as one byte string ---------------------------------------

  /** The bytes of the page frames, one frame after another. */
  function Flat(fs: seq<seq<u8>>): seq<u8>
  {
    if |fs| == 0 then [] else Flat(fs[..|fs| - 1]) + fs[|fs| - 1]
  }

  lemma FlatOne(x: seq<u8>)
    ensures Flat([x]) == x
  {
    var one: seq<seq<u8>> := [x];
    assert one[..0] == [];
  }

  lemma {:induction false} FlatConcat(a: seq<seq<u8>>, b: seq<seq<u8>>)
    ensures Flat(a + b) == Flat(a) + Flat(b)
    decreases |b|
  {
    if |b| == 0 {
      assert a + b == a;
    } else {
      ConcatInit(a, b);
      FlatConcat(a, b[..|b| - 1]);
    }
  }

  lemma FlatPrefix(fs: seq<seq<u8>>, i: nat)
    requires i <= |fs|
    ensures Flat(fs) == Flat(fs[..i]) + Flat(fs[i..])
  {
    SliceSplit(fs, i);
    FlatConcat(fs[..i], fs[i..]);
  }

  lemma FlatSnoc(fs: seq<seq<u8>>, x: seq<u8>)
    ensures Flat(fs + [x]) == Flat(fs) + x
  {
    ConcatInit(fs, [x]);
    assert (fs + [x])[..|fs + [x]| - 1] == fs;
  }

  /** `copy_from_slice` into `page[from..]`: `d` replaces that many bytes of the page. */
  function Put(page: seq<u8>, from: nat, d: seq<u8>): (r: seq<u8>)
    requires from + |d| <= |page|
    ensures |r| == |page|
  {
    page[..from] + d + page[from + |d|..]
  }

  /** Replacing part of one byte string inside a longer one is an overwrite. */
  lemma Splice(a: seq<u8>, x: seq<u8>, c: seq<u8>, from: nat, d: seq<u8>)
    requires from + |d| <= |x|
    ensures Overwritten(a + Put(x, from, d) + c, a + x + c, |a| + from, d)
  {
  }

  /** The frames around frame `i`. */
  lemma FlatAround(fs: seq<seq<u8>>, i: nat)
    requires i < |fs|
    ensures Flat(fs) == Flat(fs[..i]) + fs[i] + Flat(fs[i + 1..])
  {
    FlatPrefix(fs, i + 1);
    SliceSnoc(fs, i);
    FlatSnoc(fs[..i], fs[i]);
  }

  /** Writing `d` into frame `i` at `from` overwrites the flat bytes at that frame's start plus `from`. */
  lemma FlatUpdate(fs: seq<seq<u8>>, i: nat, from: nat, d: seq<u8>)
    requires i < |fs| && from + |d| <= |fs[i]|
    ensures Overwritten(Flat(fs[i := Put(fs[i], from, d)]), Flat(fs), |Flat(fs[..i])| + from, d)
  {
    var gs := fs[i := Put(fs[i], from, d)];
    FlatAround(fs, i);
    FlatAround(gs, i);
    UpdateKeeps(fs, i, Put(fs[i], from, d));
    Splice(Flat(fs[..i]), fs[i], Flat(fs[i + 1..]), from, d);
  }

  /**
   * One frame of `File.Write`'s walk: writing the next `k` bytes of `buf`
   * where they belong in frame `i` extends the overwrite by those bytes.
   */
  lemma FrameStep(prev: seq<seq<u8>>, before: seq<seq<u8>>, i: nat, offset: nat, buf: seq<u8>, written: nat, k: nat)
    requires i < |prev| && written + k <= |buf|
    requires |Flat(prev[..i])| <= offset + written && offset + written - |Flat(prev[..i])| + k <= |prev[i]|
    requires written == 0 ==> prev == before
    requires written > 0 ==> Overwritten(Flat(prev), Flat(before), offset, buf[..written])
    ensures var next := prev[i := Put(prev[i], offset + written - |Flat(prev[..i])|, buf[written..written + k])];
            next[..i] == prev[..i]
            && (written + k == 0 ==> next == before)
            && (written + k > 0 ==> Overwritten(Flat(next), Flat(before), offset, buf[..written + k]))
  {
    var from := offset + written - |Flat(prev[..i])|;
    var d := buf[written..written + k];
    var next := prev[i := Put(prev[i], from, d)];
    UpdateKeeps(prev, i, Put(prev[i], from, d));
    FlatUpdate(prev, i, from, d);
    if written == 0 {
      assert buf[..k] == d;
      if k == 0 {
        assert Put(prev[i], from, d) == prev[i];
        assert next == prev;
      }
    } else {
      OverwriteAdjacent(Flat(next), Flat(prev), Flat(before), offset, buf[..written], d);
      assert buf[..written] + d == buf[..written + k];
    }
  }

  /** A zero page appended where nothing is written keeps the frames zero past the old ones. */
  lemma ZeroPageStep(flat: seq<u8>, baseF: seq<u8>)
    requires |baseF| <= |flat| && flat == baseF + Zeros(|flat| - |baseF|)
    ensures flat + Zeros(PAGE_SIZE) == baseF + Zeros(|flat| + PAGE_SIZE - |baseF|)
  {
    ZerosAdd(|flat| - |baseF|, PAGE_SIZE);
  }

  /**
   * One fresh page of `File.Write`: a zero page holding the next `k`
   * bytes of `buf` at `from` extends the overwrite by those bytes.
   */
  lemma PageStep(flat: seq<u8>, baseF: seq<u8>, offset: nat, buf: seq<u8>, written: nat, from: nat, k: nat)
    requires |baseF| <= |flat| && from + k <= PAGE_SIZE && written + k <= |buf| && offset + written == |flat| + from
    requires written == 0 ==> flat == baseF + Zeros(|flat| - |baseF|)
    requires written > 0 ==> Overwritten(flat, baseF + Zeros(|flat| - |baseF|), offset, buf[..written])
    ensures written + k == 0 ==> flat + Put(Zeros(PAGE_SIZE), from, buf[written..written + k]) == baseF + Zeros(|flat| + PAGE_SIZE - |baseF|)
    ensures written + k > 0 ==> Overwritten(flat + Put(Zeros(PAGE_SIZE), from, buf[written..written + k]), baseF + Zeros(|flat| + PAGE_SIZE - |baseF|), offset, buf[..written + k])
  {
    var d := buf[written..written + k];
    var page := Put(Zeros(PAGE_SIZE), from, d);
    var base := baseF + Zeros(|flat| - |baseF|);
    ZerosAdd(|flat| - |baseF|, PAGE_SIZE);
    assert base + Zeros(PAGE_SIZE) == baseF + Zeros(|flat| + PAGE_SIZE - |baseF|);
    Splice(flat, Zeros(PAGE_SIZE), [], from, d);
    assert flat + page + [] == flat + page;
    assert flat + Zeros(PAGE_SIZE) + [] == flat + Zeros(PAGE_SIZE);
    if written == 0 {
      assert buf[..k] == d;
      if k == 0 {
        assert page == Zeros(PAGE_SIZE);
      }
    } else {
      OverwriteGrow(flat, base, Zeros(PAGE_SIZE), offset, buf[..written]);
      OverwriteAdjacent(flat + page, flat + Zeros(PAGE_SIZE), base + Zeros(PAGE_SIZE), offset, buf[..written], d);
      assert buf[..written] + d == buf[..written + k];
    }
  }

  /** Appending the same bytes to both sides keeps an overwrite. */
  lemma OverwriteGrow(a: seq<u8>, b: seq<u8>, z: seq<u8>, at: nat, d: seq<u8>)
    requires Overwritten(a, b, at, d)
    ensures Overwritten(a + z, b + z, at, d)
  {
  }

  /**
   * How many bytes of the frames follow `offset` up to the end of the
   * frame that holds it; none past the last frame.
   */
  function Room(fs: seq<seq<u8>>, offset: nat): (r: nat)
    ensures offset < |Flat(fs)| ==> 0 < r && offset + r <= |Flat(fs)|
    ensures offset >= |Flat(fs)| ==> r == 0
  {
    if |fs| == 0 then 0
    else if offset < |Flat(fs[..|fs| - 1])| then Room(fs[..|fs| - 1], offset)
    else if offset < |Flat(fs)| then |Flat(fs)| - offset
    else 0
  }

  /** The room at an offset inside the first `i` frames is decided by those frames. */
  lemma {:induction false} RoomPrefix(fs: seq<seq<u8>>, i: nat, offset: nat)
    requires i <= |fs| && offset < |Flat(fs[..i])|
    ensures Room(fs, offset) == Room(fs[..i], offset)
    decreases |fs| - i
  {
    if i == |fs| {
      SliceAll(fs);
    } else {
      var init := fs[..|fs| - 1];
      SlicePrefix(fs, i, |fs| - 1);
      FlatPrefix(init, i);
      RoomPrefix(init, i, offset);
    }
  }

  /** `got` holds the `n` bytes of `f` at `offset`. */
  ghost predicate Holds(got: seq<u8>, f: seq<u8>, offset: nat, n: nat)
  {
    n <= |got| && (n > 0 ==> offset + n <= |f|) && forall j :: 0 <= j < n ==> got[j] == f[offset + j]
  }

  /** What a buffer holds from some bytes it still holds when more bytes follow them. */
  lemma HoldsGrow(got: seq<u8>, f: seq<u8>, more: seq<u8>, offset: nat, n: nat)
    requires Holds(got, f, offset, n)
    ensures Holds(got, f + more, offset, n)
  {
  }

  /** Copying `k` bytes of the next frame after the `done` already copied. */
  lemma CopyStep(got: seq<u8>, got': seq<u8>, f: seq<u8>, page: seq<u8>, offset: nat, done: nat, k: nat)
    requires Holds(got, f, offset, done) && |got'| == |got| && done + k <= |got|
    requires |f| <= offset && offset - |f| + k <= |page|
    requires forall j :: done <= j < done + k ==> got'[j] == page[offset - |f| + j - done]
    requires forall j :: 0 <= j < |got| && !(done <= j < done + k) ==> got'[j] == got[j]
    requires done > 0 ==> k == 0
    ensures Holds(got', f + page, offset, done + k)
  {
    if done == 0 {
      assert forall j :: 0 <= j < k ==> got'[j] == (f + page)[offset + j];
    }
  }

  /** `Read`'s count after one more frame, in terms of the frames walked so far. */
  lemma ReadStep(fs: seq<seq<u8>>, i: nat, offset: nat, want: nat, d0: nat, d1: nat)
    requires i < |fs| && d0 < want
    requires d0 == if offset < |Flat(fs[..i])| then Min(want, Room(fs[..i], offset)) else 0
    requires d1 == if |Flat(fs[..i])| <= offset <= |Flat(fs[..i])| + |fs[i]|
                   then d0 + Min(|fs[i]| - (offset - |Flat(fs[..i])|), want - d0) else d0
    ensures Flat(fs[..i + 1]) == Flat(fs[..i]) + fs[i]
    ensures d1 == if offset < |Flat(fs[..i + 1])| then Min(want, Room(fs[..i + 1], offset)) else 0
  {
    SliceSnoc(fs, i);
    FlatSnoc(fs[..i], fs[i]);
    SlicePrefix(fs, i, i + 1);
  }

  /** What a file of `len` bytes over frames with the bytes `f` holds: bytes past the frames are zero. */
  function ContentOf(f: seq<u8>, len: nat): (r: seq<u8>)
    ensures |r| == len
  {
    if len <= |f| then f[..len] else f + Zeros(len - |f|)
  }

  /**
   * How many bytes `read` returns: nothing at an offset past the length,
   * otherwise what is left of the file, at most the buffer, and only as
   * far as the end of the frame holding the offset.
   */
  function ReadCount(fs: seq<seq<u8>>, len: nat, offset: nat, bufLen: nat): (r: nat)
    ensures r <= bufLen
    ensures offset >= len ==> r == 0
    ensures r > 0 ==> offset + r <= len && offset + r <= |Flat(fs)|
  {
    if offset > len then 0 else Min(Min(len - offset, bufLen), Room(fs, offset))
  }

  /** A read inside the file and inside its frames always moves some bytes. */
  lemma ReadProgress(fs: seq<seq<u8>>, len: nat, offset: nat, bufLen: nat)
    requires offset < len && offset < |Flat(fs)| && bufLen > 0
    ensures ReadCount(fs, len, offset, bufLen) > 0
  {
  }

  /** A read that stays inside one frame is not short. */
  lemma ReadInOneFrame(fs: seq<seq<u8>>, len: nat, offset: nat, bufLen: nat)
    requires offset + bufLen <= len && bufLen <= Room(fs, offset)
    ensures ReadCount(fs, len, offset, bufLen) == bufLen
  {
  }

  /** A file's bytes, read back, are the file's content. */
  lemma ContentMatchesFrames(f: seq<u8>, len: nat, j: nat)
    requires j < len && j < |f|
    ensures ContentOf(f, len)[j] == f[j]
  {
  }

  /**
   * A write of `buf` at `offset` (as `File.Write` does it) puts `buf` in
   * the content at `offset` and leaves every other byte below the old
   * length alone.
   */
  lemma WriteContent(oldF: seq<u8>, newF: seq<u8>, oldLen: nat, offset: nat, buf: seq<u8>)
    requires |buf| > 0 && |oldF| <= |newF|
    requires Overwritten(newF, oldF + Zeros(|newF| - |oldF|), offset, buf)
    ensures ContentOf(newF, Max(oldLen, offset + |buf|))[offset..offset + |buf|] == buf
    ensures forall j :: 0 <= j < oldLen && !(offset <= j < offset + |buf|) ==>
              ContentOf(newF, Max(oldLen, offset + |buf|))[j] == ContentOf(oldF, oldLen)[j]
  {
    var c := ContentOf(newF, Max(oldLen, offset + |buf|));
    assert forall j :: offset <= j < offset + |buf| ==> c[j] == buf[j - offset];
  }

  // ---- The write as the source has it ----------------------------------------

  /** Fresh zero-filled pages holding `buf` from the start of the first. */
  function FreshPages(buf: seq<u8>): (r: seq<seq<u8>>)
    ensures forall q :: 0 <= q < |r| ==> |r[q]| == PAGE_SIZE
    decreases |buf|
  {
    if |buf| == 0 then []
    else
      var k := Min(PAGE_SIZE, |buf|);
      [buf[..k] + Zeros(PAGE_SIZE - k)] + FreshPages(buf[k..])
  }

  /**
   * `write`'s page walk as written: the offset inside the pages is never
   * advanced, and once the frames run out the rest of `buf` goes to the
   * start of fresh pages, wherever the offset was.
   */
  function WriteAsWritten(fs: seq<seq<u8>>, pageStart: nat, offset: nat, buf: seq<u8>): (r: seq<seq<u8>>)
    ensures |buf| == 0 ==> r == fs
    ensures |fs| <= |r| && forall q :: 0 <= q < |fs| ==> |r[q]| == |fs[q]|
    ensures forall q :: |fs| <= q < |r| ==> |r[q]| == PAGE_SIZE
    decreases |fs|
  {
    if |buf| == 0 then fs
    else if |fs| == 0 then FreshPages(buf)
    else
      var page := fs[0];
      if pageStart <= offset <= pageStart + |page| then
        var from := offset - pageStart;
        var k := Min(|page| - from, |buf|);
        [page[..from] + buf[..k] + page[from + k..]] + WriteAsWritten(fs[1..], pageStart + |page|, offset, buf[k..])
      else
        [page] + WriteAsWritten(fs[1..], pageStart + |page|, offset, buf)
  }

  /**
   * As written, a write at an offset past the end of the frames leaves
   * every frame as it was and puts the bytes at the start of fresh pages
   * appended after them, whatever the offset.
   */
  lemma {:induction false} WriteBeyondFrames(fs: seq<seq<u8>>, pageStart: nat, offset: nat, buf: seq<u8>)
    requires pageStart + |Flat(fs)| < offset
    ensures WriteAsWritten(fs, pageStart, offset, buf) == fs + FreshPages(buf)
    decreases |fs|
  {
    if |buf| == 0 {
      assert FreshPages(buf) == [];
      assert fs + [] == fs;
    } else if |fs| == 0 {
      assert fs + FreshPages(buf) == FreshPages(buf);
    } else {
      var rest := fs[1..];
      assert |Flat(fs)| == |fs[0]| + |Flat(rest)| by {
        FlatPrefix(fs, 1);
        FlatOne(fs[0]);
        assert fs[..1] == [fs[0]];
      }
      WritePassesFrame(fs, pageStart, offset, buf);
      WriteBeyondFrames(rest, pageStart + |fs[0]|, offset, buf);
      ConsConcat(fs, FreshPages(buf));
    }
  }

  /** As written, a frame that ends before the offset is passed over unchanged. */
  lemma WritePassesFrame(fs: seq<seq<u8>>, pageStart: nat, offset: nat, buf: seq<u8>)
    requires |buf| > 0 && |fs| > 0 && pageStart + |fs[0]| < offset
    ensures WriteAsWritten(fs, pageStart, offset, buf) == [fs[0]] + WriteAsWritten(fs[1..], pageStart + |fs[0]|, offset, buf)
  {
  }

  /**
   * Writing one byte at offset 5 of an empty file: the byte lands at
   * offset 0 of the new page, and the file's byte 5 reads as zero.
   */
  lemma WriteLandsAtPageStart()
    ensures WriteAsWritten([], 0, 5, [1]) == [[1] + Zeros(PAGE_SIZE - 1)]
    ensures ContentOf(Flat(WriteAsWritten([], 0, 5, [1])), 6)[5] == 0
    ensures ContentOf(Flat(WriteAsWritten([], 0, 5, [1])), 6)[0] == 1
  {
    var one: seq<u8> := [1];
    assert one[..1] == one;
    assert one[1..] == [];
    assert FreshPages(one[1..]) == [];
    assert FreshPages(one) == [one + Zeros(PAGE_SIZE - 1)];
    FlatOne([1] + Zeros(PAGE_SIZE - 1));
  }

  // ---- The steps of the page walks -------------------------------------------

  /** What `File.Read`'s walk knows after `i` frames: `done` bytes copied into `got`. */
  ghost predicate ReadInv(fs: seq<seq<u8>>, i: nat, pageStart: nat, offset: nat, want: nat, done: nat, got: seq<u8>)
  {
    i <= |fs| && pageStart == |Flat(fs[..i])| && done <= want
    && done == (if offset < pageStart then Min(want, Room(fs[..i], offset)) else 0)
    && Holds(got, Flat(fs[..i]), offset, done)
  }

  /**
   * One frame of `File.Read`'s walk: `got'` is `got` with the frame's
   * bytes from the offset copied in after the `done` bytes, when the
   * frame holds the offset, and is `got` otherwise.
   */
  lemma ReadWalkStep(fs: seq<seq<u8>>, i: nat, pageStart: nat, offset: nat, want: nat, done: nat, got: seq<u8>, done': nat, got': seq<u8>)
    requires ReadInv(fs, i, pageStart, offset, want, done, got) && i < |fs| && done < want && want <= |got|
    requires |got'| == |got|
    requires pageStart <= offset <= pageStart + |fs[i]| ==>
               done' == done + Min(|fs[i]| - (offset - pageStart), want - done)
               && (forall j :: done <= j < done' ==> got'[j] == fs[i][offset - pageStart + j - done])
               && (forall j :: 0 <= j < |got| && !(done <= j < done') ==> got'[j] == got[j])
    requires !(pageStart <= offset <= pageStart + |fs[i]|) ==> done' == done && got' == got
    ensures ReadInv(fs, i + 1, pageStart + |fs[i]|, offset, want, done', got')
  {
    ReadStep(fs, i, offset, want, done, done');
    if pageStart <= offset <= pageStart + |fs[i]| {
      CopyStep(got, got', Flat(fs[..i]), fs[i], offset, done, done' - done);
    } else {
      HoldsGrow(got, Flat(fs[..i]), fs[i], offset, done);
    }
  }

  /** What `File.Write`'s walk over the existing frames knows after `i` frames. */
  ghost predicate WalkInv(fs: seq<seq<u8>>, before: seq<seq<u8>>, i: nat, pageStart: nat, offset: nat, buf: seq<u8>, written: nat)
  {
    i <= |fs| == |before|
    && (forall q :: 0 <= q < |fs| ==> |fs[q]| == |before[q]|)
    && pageStart == |Flat(fs[..i])| && |Flat(fs)| == |Flat(before)|
    && written <= |buf|
    && (written > 0 ==> offset + written <= pageStart)
    && (written < |buf| ==> offset + written >= pageStart)
    && (written == 0 ==> fs == before)
    && (written > 0 ==> Overwritten(Flat(fs), Flat(before), offset, buf[..written]))
  }

  /** One frame of `File.Write`'s walk keeps what the walk knows. */
  lemma WalkStep(fs: seq<seq<u8>>, before: seq<seq<u8>>, i: nat, pageStart: nat, offset: nat, buf: seq<u8>, written: nat, fs': seq<seq<u8>>, written': nat)
    requires WalkInv(fs, before, i, pageStart, offset, buf, written) && i < |fs| && written < |buf|
    requires pageStart <= offset + written <= pageStart + |fs[i]| ==>
               var k := Min(|fs[i]| - (offset + written - pageStart), |buf| - written);
               fs' == fs[i := Put(fs[i], offset + written - pageStart, buf[written..written + k])] && written' == written + k
    requires !(pageStart <= offset + written <= pageStart + |fs[i]|) ==> fs' == fs && written' == written
    ensures WalkInv(fs', before, i + 1, pageStart + |fs[i]|, offset, buf, written')
  {
    if pageStart <= offset + written <= pageStart + |fs[i]| {
      FrameStep(fs, before, i, offset, buf, written, written' - written);
      UpdateKeeps(fs, i, fs'[i]);
      assert |fs'[i]| == |fs[i]|;
      assert forall q :: 0 <= q < |fs'| ==> |fs'[q]| == |before[q]|;
      assert |Flat(fs')| == |Flat(fs)| by {
        if written' > 0 {
          assert Overwritten(Flat(fs'), Flat(before), offset, buf[..written']);
        }
      }
    }
    assert fs'[..i] == fs[..i];
    SliceSnoc(fs', i);
    FlatSnoc(fs'[..i], fs'[i]);
    assert |Flat(fs'[..i + 1])| == pageStart + |fs[i]|;
  }

  /** What `File.Write` knows while it appends pages: the frames' bytes so far are `flat`. */
  ghost predicate AppendInv(fs: seq<seq<u8>>, before: seq<seq<u8>>, flat: seq<u8>, offset: nat, buf: seq<u8>, written: nat)
  {
    var was := Flat(before);
    |before| <= |fs|
    && (forall q :: 0 <= q < |before| ==> |fs[q]| == |before[q]|)
    && (forall q :: |before| <= q < |fs| ==> |fs[q]| == PAGE_SIZE)
    && (|buf| == 0 ==> fs == before)
    && written <= |buf| && flat == Flat(fs)
    && (written < |buf| ==> offset + written >= |flat|)
    && |was| <= |flat| <= Max(|was|, offset + |buf| + PAGE_SIZE - 1)
    && (written == 0 ==> flat == was + Zeros(|flat| - |was|))
    && (written > 0 ==> Overwritten(flat, was + Zeros(|flat| - |was|), offset, buf[..written]))
  }

  /** One appended page keeps what `File.Write` knows. */
  lemma AppendStep(fs: seq<seq<u8>>, before: seq<seq<u8>>, flat: seq<u8>, offset: nat, buf: seq<u8>, written: nat, page: seq<u8>, written': nat)
    requires AppendInv(fs, before, flat, offset, buf, written) && written < |buf|
    requires offset + written < |flat| + PAGE_SIZE ==>
               var k := Min(PAGE_SIZE - (offset + written - |flat|), |buf| - written);
               page == Put(Zeros(PAGE_SIZE), offset + written - |flat|, buf[written..written + k]) && written' == written + k
    requires offset + written >= |flat| + PAGE_SIZE ==> page == Zeros(PAGE_SIZE) && written' == written
    ensures AppendInv(fs + [page], before, flat + page, offset, buf, written')
  {
    if offset + written < |flat| + PAGE_SIZE {
      PageStep(flat, Flat(before), offset, buf, written, offset + written - |flat|, written' - written);
    } else {
      ZeroPageStep(flat, Flat(before));
    }
    FlatSnoc(fs, page);
  }

  // ---- Nodes ----------------------------------------------------------------

  datatype Node = FileNode(file: File) | DirNode(dir: Directory)

  class File {
    /** The page frames, in file order. */
    var frames: seq<seq<u8>>
    /** The file's length in bytes. */
    var len: nat

    /** What the file holds. */
    function Content(): seq<u8>
      reads this
    {
      ContentOf(Flat(frames), len)
    }

    /**
     * `File::new`: no frames for no bytes, else one frame of whole pages
     * holding the bytes and zeros after them.
     */
    constructor(bytes: seq<u8>)
      ensures Content() == bytes && len == |bytes|
      ensures |bytes| == 0 ==> frames == []
      ensures |bytes| > 0 ==> |frames| == 1 && |frames[0]| == PageRound(|bytes|)
    {
      if |bytes| == 0 {
        frames := [];
      } else {
        frames := [bytes + Zeros(PageRound(|bytes|) - |bytes|)];
        FlatOne(bytes + Zeros(PageRound(|bytes|) - |bytes|));
      }
      len := |bytes|;
    }

    /** `len`. */
    function Len(): (n: nat)
      reads this
      ensures n == |Content()|
    {
      len
    }

    /** `set_len`: only the length changes; the frames stay. */
    method SetLen(n: nat) returns (r: Result<(), SyscallErr.Error>)
      modifies this
      ensures r.Ok? && len == n && frames == old(frames)
      ensures |Content()| == n
      ensures forall j :: 0 <= j < n && j < old(len) ==> Content()[j] == old(Content())[j]
    {
      len := n;
      r := Ok(());
    }

    /**
     * `read` at `offset` into `buf`: the frames are walked with the start
     * of each, and bytes are copied from the frame that holds the offset.
     */
    method Read(offset: nat, buf: array<u8>) returns (r: nat)
      modifies buf
      ensures r == ReadCount(frames, len, offset, buf.Length)
      ensures forall j :: 0 <= j < r ==> buf[j] == Content()[offset + j]
      ensures buf[r..] == old(buf[r..])
    {
      if offset > len {
        return 0;
      }
      var want: nat := Min(len - offset, buf.Length);
      var done: nat := 0;
      var pageStart: nat := 0;
      var i: nat := 0;
      while done < want && i < |frames|
        invariant ReadInv(frames, i, pageStart, offset, want, done, buf[..])
        invariant buf[done..] == old(buf[done..])
        decreases |frames| - i
      {
        var page := frames[i];
        ghost var got, done0 := buf[..], done;
        if pageStart <= offset <= pageStart + |page| {
          var from := offset - pageStart;
          var k := Min(|page| - from, want - done);
          forall j | 0 <= j < k {
            buf[done + j] := page[from + j];
          }
          done := done + k;
        }
        ReadWalkStep(frames, i, pageStart, offset, want, done0, got, done, buf[..]);
        pageStart := pageStart + |page|;
        i := i + 1;
      }
      if done == want && want > 0 {
        RoomPrefix(frames, i, offset);
      }
      if i < |frames| {
        FlatPrefix(frames, i);
        HoldsGrow(buf[..], Flat(frames[..i]), Flat(frames[i..]), offset, done);
      } else {
        SliceAll(frames);
      }
      ReadBytes(offset, buf[..], done);
      r := done;
    }

    /** The bytes a read copied from the frames are the file's content. */
    lemma ReadBytes(offset: nat, got: seq<u8>, n: nat)
      requires n > 0 ==> offset + n <= len
      requires Holds(got, Flat(frames), offset, n)
      ensures forall j :: 0 <= j < n ==> got[j] == Content()[offset + j]
    {
    }

    /**
     * `write` of `buf` at `offset`: the length grows to cover it, the
     * frames are overwritten where they hold the written range, and
     * zero-filled pages are appended until the range is covered. The
     * whole buffer counts as written. (The source's page walk differs:
     * see `WriteAsWritten`.)
     */
    method Write(offset: nat, buf: seq<u8>) returns (r: nat)
      modifies this
      ensures r == |buf| && len == Max(old(len), offset + |buf|)
      ensures |buf| == 0 ==> frames == old(frames)
      ensures |old(frames)| <= |frames|
      ensures forall q :: 0 <= q < |old(frames)| ==> |frames[q]| == |old(frames)[q]|
      ensures forall q :: |old(frames)| <= q < |frames| ==> |frames[q]| == PAGE_SIZE
      ensures |Flat(old(frames))| <= |Flat(frames)| <= Max(|Flat(old(frames))|, offset + |buf| + PAGE_SIZE - 1)
      ensures |buf| > 0 ==> Overwritten(Flat(frames), Flat(old(frames)) + Zeros(|Flat(frames)| - |Flat(old(frames))|), offset, buf)
      ensures |buf| > 0 ==> Content()[offset..offset + |buf|] == buf
      ensures forall j :: 0 <= j < old(len) && !(offset <= j < offset + |buf|) ==> Content()[j] == old(Content())[j]
    {
      ghost var before := frames;
      ghost var oldLen := len;
      len := Max(len, offset + |buf|);
      var written := WriteFrames(offset, buf);
      AppendPages(offset, buf, written, before);
      r := |buf|;
      if |buf| > 0 {
        WriteContent(Flat(before), Flat(frames), oldLen, offset, buf);
      } else {
        assert forall j :: 0 <= j < oldLen ==> Content()[j] == ContentOf(Flat(before), oldLen)[j];
      }
    }

    /**
     * `write`'s walk over the existing frames: each frame that holds part
     * of the written range gets that part of `buf`. Returns how much of
     * `buf` the frames took.
     */
    method WriteFrames(offset: nat, buf: seq<u8>) returns (written: nat)
      modifies this
      ensures len == old(len) && |frames| == |old(frames)|
      ensures forall q :: 0 <= q < |frames| ==> |frames[q]| == |old(frames)[q]|
      ensures written <= |buf|
      ensures written > 0 ==> offset + written <= |Flat(frames)|
      ensures written < |buf| ==> offset + written >= |Flat(frames)|
      ensures written == 0 ==> frames == old(frames)
      ensures written > 0 ==> Overwritten(Flat(frames), Flat(old(frames)), offset, buf[..written])
    {
      ghost var before := frames;
      written := 0;
      var pageStart: nat := 0;
      var i: nat := 0;
      while written < |buf| && i < |frames|
        invariant WalkInv(frames, before, i, pageStart, offset, buf, written) && len == old(len)
        decreases |frames| - i
      {
        ghost var fs, written0 := frames, written;
        var page := frames[i];
        var pos := offset + written;
        if pageStart <= pos <= pageStart + |page| {
          var k := Min(|page| - (pos - pageStart), |buf| - written);
          frames := frames[i := Put(page, pos - pageStart, buf[written..written + k])];
          written := written + k;
        }
        WalkStep(fs, before, i, pageStart, offset, buf, written0, frames, written);
        pageStart := pageStart + |page|;
        i := i + 1;
      }
      if written < |buf| {
        SliceAll(frames);
      } else {
        FlatPrefix(frames, i);
      }
    }

    /**
     * `write` once the frames run out: zero-filled pages are appended,
     * each taking the part of `buf` that falls in it, until all of `buf`
     * is placed.
     */
    method AppendPages(offset: nat, buf: seq<u8>, written0: nat, ghost before: seq<seq<u8>>)
      requires |before| == |frames| && written0 <= |buf|
      requires forall q :: 0 <= q < |frames| ==> |frames[q]| == |before[q]|
      requires written0 > 0 ==> offset + written0 <= |Flat(frames)|
      requires written0 < |buf| ==> offset + written0 >= |Flat(frames)|
      requires written0 == 0 ==> frames == before
      requires written0 > 0 ==> Overwritten(Flat(frames), Flat(before), offset, buf[..written0])
      modifies this
      ensures len == old(len)
      ensures |buf| == 0 ==> frames == before
      ensures |before| <= |frames|
      ensures forall q :: 0 <= q < |before| ==> |frames[q]| == |before[q]|
      ensures forall q :: |before| <= q < |frames| ==> |frames[q]| == PAGE_SIZE
      ensures |Flat(before)| <= |Flat(frames)| <= Max(|Flat(before)|, offset + |buf| + PAGE_SIZE - 1)
      ensures |buf| > 0 ==> Overwritten(Flat(frames), Flat(before) + Zeros(|Flat(frames)| - |Flat(before)|), offset, buf)
    {
      var written: nat := written0;
      var pageStart: nat := |Flat(frames)|;
      ghost var flat := Flat(frames);
      assert Flat(before) + Zeros(0) == Flat(before);
      while written < |buf|
        invariant AppendInv(frames, before, flat, offset, buf, written) && pageStart == |flat| && len == old(len)
        decreases offset + |buf| - pageStart
      {
        var pos := offset + written;
        var page := Zeros(PAGE_SIZE);
        ghost var written1 := written;
        if pos < pageStart + PAGE_SIZE {
          var k := Min(PAGE_SIZE - (pos - pageStart), |buf| - written);
          page := Put(page, pos - pageStart, buf[written..written + k]);
          written := written + k;
        }
        AppendStep(frames, before, flat, offset, buf, written1, page, written);
        frames := frames + [page];
        flat := flat + page;
        pageStart := pageStart + PAGE_SIZE;
      }
      if |buf| > 0 {
        assert buf[..written] == buf;
      }
    }
  }

  class Directory {
    const name: string
    var children: map<string, Node>
    /** Whether the cached list of names (`nodes_cache`) is present. */
    var cached: bool

    /** `Directory::new`: an empty directory without a cached listing. */
    constructor(name: string)
      ensures this.name == name && children == map[] && !cached
    {
      this.name := name;
      children := map[];
      cached := false;
    }

    /** `get_node`: the child of that name, or `NOT_FOUND`. */
    method GetNode(name: string) returns (r: Result<Node, SyscallErr.Error>)
      ensures r.Ok? <==> name in children
      ensures r.Ok? ==> r.value == children[name]
      ensures r.Err? ==> r.error == SyscallErr.NOT_FOUND
    {
      if name in children {
        r := Ok(children[name]);
      } else {
        r := Err(SyscallErr.NOT_FOUND);
      }
    }

    /**
     * `create_node`: a new name is added and the cached listing dropped;
     * an existing name is `ALREADY_EXISTS` and nothing changes.
     */
    method CreateNode(name: string, node: Node) returns (r: Result<(), SyscallErr.Error>)
      modifies this
      ensures name in old(children) ==> r == Err(SyscallErr.ALREADY_EXISTS) && children == old(children) && cached == old(cached)
      ensures name !in old(children) ==> r == Ok(()) && children == old(children)[name := node] && !cached
    {
      if name in children {
        r := Err(SyscallErr.ALREADY_EXISTS);
      } else {
        children := children[name := node];
        cached := false;
        r := Ok(());
      }
    }
  }
}
