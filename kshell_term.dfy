/**
 * The kernel shell's text terminal: a `width` × `height` grid of bytes kept
 * row by row in `buf`, a copy `oldBuf` of what is on screen, and a cursor
 * (column, row). Writing wraps at the right edge, scrolls at the bottom and
 * treats '\n' as a move to the next row's start; `flush` redraws the cells
 * that changed. Drawing glyphs on the framebuffer is left out: the model
 * reports the cell indices that would be redrawn.
 */
module Kshell {
  import opened Common

  const SPACE: u8 := 0x20
  const NEWLINE: u8 := 0x0A
  /** What `old_buf` starts as, so the first flush redraws everything. */
  const UNDRAWN: u8 := 0x3D

  /** The cell of `cursor` in the row-major buffer. */
  function Index(cursor: (nat, nat), width: nat): nat
  {
    cursor.0 + cursor.1 * width
  }

  lemma IndexInBounds(cursor: (nat, nat), width: nat, height: nat)
    requires cursor.0 < width && cursor.1 < height
    ensures Index(cursor, width) < width * height
  {
    assert cursor.1 * width <= (height - 1) * width by {
      MulLe(cursor.1, height - 1, width);
    }
  }

  lemma MulLe(a: nat, b: nat, c: nat)
    requires a <= b
    ensures a * c <= b * c
  {
  }

  /** A row of blanks. */
  function Blank(n: nat): (r: seq<u8>)
    ensures |r| == n && forall i :: 0 <= i < n ==> r[i] == SPACE
  {
    seq(n, _ => SPACE)
  }

  /** The grid after scrolling up one row: every row moves up, the last row is blank. */
  function Scrolled(cells: seq<u8>, width: nat): (r: seq<u8>)
    requires width <= |cells|
    ensures |r| == |cells|
    ensures forall i :: 0 <= i < |cells| - width ==> r[i] == cells[i + width]
    ensures forall i :: |cells| - width <= i < |cells| ==> r[i] == SPACE
  {
    cells[width..] + Blank(width)
  }

  /** `copy_within(w.., 0)`: every cell takes the value `w` cells further on; the last `w` keep theirs. */
  method CopyWithin(a: array<u8>, w: nat)
    requires w <= a.Length
    modifies a
    ensures forall j :: 0 <= j < a.Length - w ==> a[j] == old(a[j + w])
    ensures forall j :: a.Length - w <= j < a.Length ==> a[j] == old(a[j])
  {
    for i := 0 to a.Length - w
      invariant forall j :: 0 <= j < i ==> a[j] == old(a[j + w])
      invariant forall j :: i <= j < a.Length ==> a[j] == old(a[j])
    {
      a[i] := a[i + w];
    }
  }

  /** Blanking the cells from `from` on. */
  method BlankFrom(a: array<u8>, from: nat)
    requires from <= a.Length
    modifies a
    ensures forall j :: 0 <= j < from ==> a[j] == old(a[j])
    ensures forall j :: from <= j < a.Length ==> a[j] == SPACE
  {
    for i := from to a.Length
      invariant forall j :: 0 <= j < from ==> a[j] == old(a[j])
      invariant forall j :: from <= j < i ==> a[j] == SPACE
    {
      a[i] := SPACE;
    }
  }

  /** The screen: cursor and cells. */
  datatype Screen = Screen(cursor: (nat, nat), cells: seq<u8>)

  /** The cursor after wrapping a column past the right edge to the next row. */
  function Wrap(cursor: (nat, nat), width: nat): (nat, nat)
  {
    if cursor.0 >= width then (0, cursor.1 + 1) else cursor
  }

  /** Whether `write_byte` scrolls before it writes. */
  predicate Scrolls(cursor: (nat, nat), width: nat, height: nat)
  {
    Wrap(cursor, width).1 >= height
  }

  /** The cell `write_byte` works on: the wrapped cursor, pinned to the last row after a scroll. */
  function Placed(cursor: (nat, nat), width: nat, height: nat): (p: (nat, nat))
    requires width > 0 && height > 0
    ensures p.0 < width && p.1 < height
    ensures Scrolls(cursor, width, height) ==> p == (Wrap(cursor, width).0, height - 1)
    ensures !Scrolls(cursor, width, height) ==> p == Wrap(cursor, width)
  {
    var c := Wrap(cursor, width);
    if c.1 >= height then (c.0, height - 1) else c
  }

  /** The cells `write_byte` writes into: scrolled when it scrolls. */
  function Base(s: Screen, width: nat, height: nat): seq<u8>
    requires width > 0 && height > 0 && |s.cells| == width * height
  {
    MulLe(1, height, width);
    if Scrolls(s.cursor, width, height) then Scrolled(s.cells, width) else s.cells
  }

  /** `write_byte`. */
  function PutByte(s: Screen, width: nat, height: nat, b: u8): (r: Screen)
    requires width > 0 && height > 0 && |s.cells| == width * height
    ensures |r.cells| == width * height
  {
    MulLe(1, height, width);
    var p := Placed(s.cursor, width, height);
    var cells := Base(s, width, height);
    if b == NEWLINE then Screen((0, p.1 + 1), cells)
    else
      IndexInBounds(p, width, height);
      Screen((p.0 + 1, p.1), cells[Index(p, width) := b])
  }

  /** A byte other than '\n' lands in the placed cell and moves the cursor one column right; no other cell changes. */
  lemma PutByteWrites(s: Screen, width: nat, height: nat, b: u8)
    requires width > 0 && height > 0 && |s.cells| == width * height && b != NEWLINE
    ensures var r := PutByte(s, width, height, b);
            var p := Placed(s.cursor, width, height);
            Index(p, width) < |r.cells| && r.cells[Index(p, width)] == b && r.cursor == (p.0 + 1, p.1)
            && forall i :: 0 <= i < |r.cells| && i != Index(p, width) ==> r.cells[i] == Base(s, width, height)[i]
  {
    var p := Placed(s.cursor, width, height);
    MulLe(1, height, width);
    IndexInBounds(p, width, height);
  }

  /** '\n' moves to column 0 of the row below the placed cell and writes nothing. */
  lemma PutByteNewline(s: Screen, width: nat, height: nat)
    requires width > 0 && height > 0 && |s.cells| == width * height
    ensures var r := PutByte(s, width, height, NEWLINE);
            r.cursor == (0, Placed(s.cursor, width, height).1 + 1) && r.cells == Base(s, width, height)
  {
  }

  /** After any byte the cursor's column is at most `width` and its row at most `height`; after a byte other than '\n' the row is on screen. */
  lemma PutByteCursorBounds(s: Screen, width: nat, height: nat, b: u8)
    requires width > 0 && height > 0 && |s.cells| == width * height
    ensures var r := PutByte(s, width, height, b);
            r.cursor.0 <= width && r.cursor.1 <= height && (b != NEWLINE ==> r.cursor.1 < height)
  {
  }

  /** `write_bytes`: the bytes written one after another. */
  function PutBytes(s: Screen, width: nat, height: nat, bs: seq<u8>): (r: Screen)
    requires width > 0 && height > 0 && |s.cells| == width * height
    ensures |r.cells| == width * height
  {
    if |bs| == 0 then s
    else PutByte(PutBytes(s, width, height, bs[..|bs| - 1]), width, height, bs[|bs| - 1])
  }

  /** A line of at most `width` bytes without '\n', written from the start of an on-screen row, leaves the cursor right after it. */
  lemma {:induction false} WriteLineCursor(s: Screen, width: nat, height: nat, line: seq<u8>)
    requires width > 0 && height > 0 && |s.cells| == width * height
    requires s.cursor.0 == 0 && s.cursor.1 < height && |line| <= width
    requires forall j :: 0 <= j < |line| ==> line[j] != NEWLINE
    ensures PutBytes(s, width, height, line).cursor == (|line|, s.cursor.1)
  {
    if |line| > 0 {
      var n := |line| - 1;
      var prefix := line[..n];
      WriteLineCursor(s, width, height, prefix);
      PutByteWrites(PutBytes(s, width, height, prefix), width, height, line[n]);
    }
  }

  /**
   * Such a line fills its row from the first column and touches no other
   * cell.
   */
  lemma {:induction false} WriteLine(s: Screen, width: nat, height: nat, line: seq<u8>)
    requires width > 0 && height > 0 && |s.cells| == width * height
    requires s.cursor.0 == 0 && s.cursor.1 < height && |line| <= width
    requires forall j :: 0 <= j < |line| ==> line[j] != NEWLINE
    ensures var r := PutBytes(s, width, height, line);
            var row := s.cursor.1 * width;
            (forall j :: 0 <= j < |line| ==> row + j < |r.cells| && r.cells[row + j] == line[j])
            && (forall i :: 0 <= i < |r.cells| && !(row <= i < row + |line|) ==> r.cells[i] == s.cells[i])
  {
    if |line| > 0 {
      var n := |line| - 1;
      var prefix := line[..n];
      WriteLine(s, width, height, prefix);
      WriteLineCursor(s, width, height, prefix);
      var mid := PutBytes(s, width, height, prefix);
      var row := s.cursor.1 * width;
      assert line[..|line|][..n] == prefix;
      assert PutBytes(s, width, height, line) == PutByte(mid, width, height, line[n]);
      assert !Scrolls(mid.cursor, width, height);
      assert Base(mid, width, height) == mid.cells;
      assert Placed(mid.cursor, width, height) == mid.cursor;
      assert Index(mid.cursor, width) == row + n;
      PutByteWrites(mid, width, height, line[n]);
    }
  }

  /** The previous cell of `cursor_prev` as intended: column 0 steps back to the last column of the row above. */
  function Prev(cursor: (nat, nat), width: nat): (nat, nat)
    requires width > 0
  {
    if cursor.0 == 0 then
      if cursor.1 == 0 then cursor else (width - 1, cursor.1 - 1)
    else (cursor.0 - 1, cursor.1)
  }

  /** `cursor_prev` as written: from column 0 it goes to column `width - 1` and then steps back once more. */
  function PrevAsWritten(cursor: (nat, nat), width: nat): (r: (nat, nat))
    requires cursor.0 == 0 && cursor.1 > 0 ==> width >= 2
    ensures width > 0 && !(cursor.0 == 0 && cursor.1 > 0) ==> r == Prev(cursor, width)
    ensures cursor.0 == 0 && cursor.1 > 0 ==> r.0 + 1 == Prev(cursor, width).0 && r.1 == Prev(cursor, width).1
  {
    if cursor.0 == 0 then
      if cursor.1 == 0 then cursor else (width - 1 - 1, cursor.1 - 1)
    else (cursor.0 - 1, cursor.1)
  }

  /** `Prev` is the cell just before the cursor in the buffer, except at the very first cell. */
  lemma PrevIsPreviousCell(cursor: (nat, nat), width: nat)
    requires width > 0
    ensures cursor == (0, 0) ==> Prev(cursor, width) == cursor
    ensures cursor != (0, 0) ==> Index(Prev(cursor, width), width) + 1 == Index(cursor, width)
  {
    if cursor.0 == 0 && cursor.1 > 0 {
      assert cursor.1 * width == (cursor.1 - 1) * width + width;
    }
  }

  /** As written, stepping back from column 0 skips a cell: the last column of the row above. */
  lemma PrevAsWrittenSkipsCell(row: nat, width: nat)
    requires row > 0 && width >= 2
    ensures Index(PrevAsWritten((0, row), width), width) + 2 == Index((0, row), width)
    ensures PrevAsWritten((0, row), width) != Prev((0, row), width)
  {
    assert row * width == (row - 1) * width + width;
  }

  /** `Term`. */
  class Term {
    var cursor: (nat, nat)
    const width: nat
    const height: nat
    const buf: array<u8>
    const oldBuf: array<u8>

    ghost predicate Valid()
      reads this
    {
      width > 0 && height > 0 && buf.Length == width * height && oldBuf.Length == width * height && buf != oldBuf
    }

    function Current(): Screen
      reads this, buf
    {
      Screen(cursor, buf[..])
    }

    /** `Term::new` with the grid size the framebuffer gives: blank cells, none drawn yet. */
    constructor(width: nat, height: nat)
      requires width > 0 && height > 0
      ensures Valid() && fresh(buf) && fresh(oldBuf)
      ensures this.width == width && this.height == height && cursor == (0, 0)
      ensures forall i :: 0 <= i < buf.Length ==> buf[i] == SPACE && oldBuf[i] == UNDRAWN
    {
      this.width, this.height := width, height;
      cursor := (0, 0);
      buf := new u8[width * height](_ => SPACE);
      oldBuf := new u8[width * height](_ => UNDRAWN);
    }

    /** `read_at`. */
    function ReadAt(at: (nat, nat)): u8
      requires Index(at, width) < buf.Length
      reads this, buf
    {
      buf[Index(at, width)]
    }

    /**
     * `flush`: the indices of the cells that differ from what is on screen,
     * in order (these get redrawn), and then the screen copy matches.
     */
    method Flush() returns (updates: seq<nat>)
      requires Valid()
      modifies oldBuf
      ensures oldBuf[..] == buf[..] && forall i :: 0 <= i < oldBuf.Length ==> oldBuf[i] == buf[i]
      ensures forall k :: 0 <= k < |updates| ==> updates[k] < buf.Length && buf[updates[k]] != old(oldBuf[updates[k]])
      ensures forall i :: 0 <= i < buf.Length && buf[i] != old(oldBuf[i]) ==> i in updates
      ensures forall k, l :: 0 <= k < l < |updates| ==> updates[k] < updates[l]
    {
      updates := [];
      var i := 0;
      while i < buf.Length
        invariant 0 <= i <= buf.Length
        invariant forall k :: 0 <= k < |updates| ==> updates[k] < i && buf[updates[k]] != oldBuf[updates[k]]
        invariant forall j :: 0 <= j < i && buf[j] != oldBuf[j] ==> j in updates
        invariant forall k, l :: 0 <= k < l < |updates| ==> updates[k] < updates[l]
      {
        if buf[i] != oldBuf[i] {
          updates := updates + [i];
        }
        i := i + 1;
      }
      i := 0;
      while i < oldBuf.Length
        invariant 0 <= i <= oldBuf.Length
        invariant oldBuf[..i] == buf[..i]
        invariant forall j :: i <= j < oldBuf.Length ==> oldBuf[j] == old(oldBuf[j])
      {
        oldBuf[i] := buf[i];
        i := i + 1;
      }
    }

    /** `cursor_prev`, corrected to land on the previous cell. */
    method CursorPrev()
      requires Valid()
      modifies this
      ensures cursor == Prev(old(cursor), width)
    {
      if cursor.0 == 0 {
        if cursor.1 == 0 {
          return;
        }
        cursor := (width, cursor.1 - 1);
      }
      cursor := (cursor.0 - 1, cursor.1);
    }

    /** `cursor_prev` as written. */
    method CursorPrevAsWritten()
      requires cursor.0 == 0 && cursor.1 > 0 ==> width >= 2
      modifies this
      ensures cursor == PrevAsWritten(old(cursor), width)
    {
      if cursor.0 == 0 {
        if cursor.1 == 0 {
          return;
        }
        cursor := (width - 1, cursor.1 - 1);
      }
      cursor := (cursor.0 - 1, cursor.1);
    }

    /** `copy_within(width.., 0)` and blanking the last row. */
    method ScrollUp()
      requires Valid()
      modifies buf
      ensures buf[..] == Scrolled(old(buf[..]), width)
    {
      MulLe(1, height, width);
      CopyWithin(buf, width);
      BlankFrom(buf, buf.Length - width);
      assert buf[..] == Scrolled(old(buf[..]), width);
    }

    /** `write_byte`. */
    method WriteByte(b: u8)
      requires Valid()
      modifies this, buf
      ensures Current() == PutByte(old(Current()), width, height, b)
    {
      ghost var s := Current();
      if cursor.0 >= width {
        cursor := (0, cursor.1 + 1);
      }
      if cursor.1 >= height {
        cursor := (cursor.0, height - 1);
        ScrollUp();
      }
      assert cursor == Placed(s.cursor, width, height);
      assert buf[..] == Base(s, width, height);
      if b == NEWLINE {
        cursor := (0, cursor.1 + 1);
      } else {
        IndexInBounds(cursor, width, height);
        buf[cursor.0 + cursor.1 * width] := b;
        cursor := (cursor.0 + 1, cursor.1);
      }
    }

    /** `write_bytes`. */
    method WriteBytes(bs: seq<u8>)
      requires Valid()
      modifies this, buf
      ensures Current() == PutBytes(old(Current()), width, height, bs)
    {
      var i := 0;
      while i < |bs|
        invariant 0 <= i <= |bs|
        invariant Current() == PutBytes(old(Current()), width, height, bs[..i])
      {
        assert bs[..i + 1][..i] == bs[..i];
        WriteByte(bs[i]);
        i := i + 1;
      }
      assert bs[..i] == bs;
    }

    /** `clear`: cursor home, every cell blank, and the screen redrawn to match. */
    method Clear() returns (updates: seq<nat>)
      requires Valid()
      modifies this, buf, oldBuf
      ensures cursor == (0, 0)
      ensures forall i :: 0 <= i < buf.Length ==> buf[i] == SPACE && oldBuf[i] == SPACE
    {
      cursor := (0, 0);
      var i := 0;
      while i < buf.Length
        invariant 0 <= i <= buf.Length && cursor == (0, 0)
        invariant forall j :: 0 <= j < i ==> buf[j] == SPACE
      {
        buf[i] := SPACE;
        i := i + 1;
      }
      updates := Flush();
    }
  }

  /** Backspace at column 0 of row 1 in an 80-column terminal: as written it erases column 78 of row 0. */
  method BackspaceAtRowStart() returns (asWritten: (nat, nat), intended: (nat, nat))
    ensures asWritten == (78, 0) && intended == (79, 0)
  {
    var t := new Term(80, 25);
    t.cursor := (0, 1);
    t.CursorPrevAsWritten();
    asWritten := t.cursor;
    t.cursor := (0, 1);
    t.CursorPrev();
    intended := t.cursor;
  }
}
