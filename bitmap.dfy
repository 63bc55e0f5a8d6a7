/**
 * A bitmap over a borrowed byte buffer: bit `n` lives in byte `n / 8` at bit
 * position `n % 8` (least significant first). `Bitmap` reads and writes the
 * bits; `AtomicBitmap` does the same with atomic byte operations, modelled
 * here one call at a time.
 */
module Bitmaps {
  import opened Common

  /** `bp`: byte index, bit index and the one-bit mask of bit `n`. */
  function Bp(n: nat): (r: (nat, nat, bv8))
    ensures r.1 < 8 && n == 8 * r.0 + r.1
    ensures r.2 == Mask(r.1)
  {
    var bit := n % 8;
    (n / 8, bit, 1 << bit)
  }

  /** `1 << bit` as a byte, spelled out per position. */
  function Mask(bit: nat): bv8
    requires bit < 8
  {
    if bit == 0 then 0x01 else if bit == 1 then 0x02 else if bit == 2 then 0x04
    else if bit == 3 then 0x08 else if bit == 4 then 0x10 else if bit == 5 then 0x20
    else if bit == 6 then 0x40 else 0x80
  }

  /** Bit `j` of byte `b`. */
  predicate Bit(b: bv8, j: nat)
    requires j < 8
  {
    b & Mask(j) != 0
  }

  /** The bits of a byte buffer, in index order: the abstract value of a bitmap. */
  function BitsOf(d: seq<bv8>): (bits: seq<bool>)
    ensures |bits| == 8 * |d|
  {
    seq(8 * |d|, m requires 0 <= m < 8 * |d| => Bit(d[m / 8], m % 8))
  }

  /** The byte with bit `bit` replaced by `v` (the source's reset-then-or). */
  function SetBit(b: bv8, bit: nat, v: bool): (r: bv8)
    requires bit < 8
    ensures forall j :: 0 <= j < 8 ==> Bit(r, j) == if j == bit then v else Bit(b, j)
  {
    ShiftedValue(bit, v);
    ByteBits(b, bit, v);
    (b & !Mask(bit)) | ((if v then 1 else 0) as bv8 << bit)
  }

  lemma ShiftedValue(bit: nat, v: bool)
    requires bit < 8
    ensures ((if v then 1 else 0) as bv8 << bit) == if v then Mask(bit) else 0
  {
    if v {
      ShiftIsMask(bit);
    }
  }

  lemma ShiftIsMask(bit: nat)
    requires bit < 8
    ensures (1 as bv8) << bit == Mask(bit)
  {
    if bit == 0 {} else if bit == 1 {} else if bit == 2 {} else if bit == 3 {}
    else if bit == 4 {} else if bit == 5 {} else if bit == 6 {} else { assert Mask(bit) == 0x80; }
  }

  lemma ByteBits(b: bv8, bit: nat, v: bool)
    requires bit < 8
    ensures var r := (b & !Mask(bit)) | (if v then Mask(bit) else 0);
      forall j :: 0 <= j < 8 ==> Bit(r, j) == if j == bit then v else Bit(b, j)
  {
    var r := (b & !Mask(bit)) | (if v then Mask(bit) else 0);
    forall j | 0 <= j < 8
      ensures Bit(r, j) == if j == bit then v else Bit(b, j)
    {
      if j == bit {
      } else {
        assert Mask(j) & Mask(bit) == 0 by {
          MasksDisjoint(j, bit);
        }
      }
    }
  }

  lemma MasksDisjoint(i: nat, j: nat)
    requires i < 8 && j < 8 && i != j
    ensures Mask(i) & Mask(j) == 0
  {
  }

  /** `fetch_or(mask)`: the byte with bit `bit` set. */
  function OrMask(b: bv8, bit: nat): (r: bv8)
    requires bit < 8
    ensures forall j :: 0 <= j < 8 ==> Bit(r, j) == if j == bit then true else Bit(b, j)
  {
    ByteBits(b, bit, true);
    b | Mask(bit)
  }

  /** `fetch_and(!mask)`: the byte with bit `bit` cleared. */
  function AndNotMask(b: bv8, bit: nat): (r: bv8)
    requires bit < 8
    ensures forall j :: 0 <= j < 8 ==> Bit(r, j) == if j == bit then false else Bit(b, j)
  {
    ByteBits(b, bit, false);
    b & !Mask(bit)
  }

  /** Replacing one byte of the buffer replaces exactly its eight bits. */
  lemma BitsOfUpdate(d: seq<bv8>, i: nat, b: bv8, n: nat, v: bool)
    requires i < |d| && n / 8 == i
    requires forall j :: 0 <= j < 8 ==> Bit(b, j) == if j == n % 8 then v else Bit(d[i], j)
    ensures BitsOf(d[i := b]) == BitsOf(d)[n := v]
  {
    var l, r := BitsOf(d[i := b]), BitsOf(d)[n := v];
    forall m | 0 <= m < |l|
      ensures l[m] == r[m]
    {
      if m / 8 == i {
        assert m == 8 * i + m % 8;
      }
    }
  }

  /** A byte that stores `v` in every bit. */
  function FillByte(v: bool): bv8 { if v then 0xFF else 0 }

  lemma FillByteBits(v: bool)
    ensures forall j :: 0 <= j < 8 ==> Bit(FillByte(v), j) == v
  {
  }

  /**
   * The indices whose bit equals `val`, ascending: per byte that is not
   * uniformly `!val` (the source's byte filter), the matching bit positions.
   */
  function Indices(d: seq<bv8>, val: bool): (r: seq<nat>)
    ensures forall k :: 0 <= k < |r| ==> r[k] < 8 * |d|
  {
    if |d| == 0 then []
    else
      var last := d[|d| - 1];
      Indices(d[..|d| - 1], val) + (if last == FillByte(!val) then [] else ByteIndices(last, val, 8 * (|d| - 1), 0))
  }

  /** The positions `j` from `from` on where bit `j` of `b` equals `val`, offset by `base`. */
  function ByteIndices(b: bv8, val: bool, base: nat, from: nat): (r: seq<nat>)
    requires from <= 8
    ensures forall k :: 0 <= k < |r| ==> base + from <= r[k] < base + 8
    ensures forall k, l :: 0 <= k < l < |r| ==> r[k] < r[l]
    decreases 8 - from
  {
    if from == 8 then []
    else if Bit(b, from) == val then [base + from] + ByteIndices(b, val, base, from + 1)
    else ByteIndices(b, val, base, from + 1)
  }

  /** The positions listed are exactly those whose bit equals `val`. */
  lemma {:induction false} ByteIndicesMembers(b: bv8, val: bool, base: nat, from: nat)
    requires from <= 8
    ensures forall m :: m in ByteIndices(b, val, base, from) <==> base + from <= m < base + 8 && Bit(b, m - base) == val
    decreases 8 - from
  {
    if from < 8 {
      ByteIndicesMembers(b, val, base, from + 1);
    }
  }

  predicate Increasing(r: seq<nat>)
  {
    forall k, l :: 0 <= k < l < |r| ==> r[k] < r[l]
  }

  /** The indices are ascending, and an index is listed exactly when its bit equals `val`. */
  lemma IndicesCorrect(d: seq<bv8>, val: bool)
    ensures Increasing(Indices(d, val))
    ensures forall m :: m in Indices(d, val) <==> 0 <= m < 8 * |d| && BitsOf(d)[m] == val
  {
    IndicesIncreasing(d, val);
    IndicesMembers(d, val);
  }

  lemma {:induction false} IndicesIncreasing(d: seq<bv8>, val: bool)
    ensures Increasing(Indices(d, val))
  {
    if |d| > 0 {
      var init, last := d[..|d| - 1], d[|d| - 1];
      IndicesIncreasing(init, val);
      var a := Indices(init, val);
      var b := if last == FillByte(!val) then [] else ByteIndices(last, val, 8 * (|d| - 1), 0);
      assert Indices(d, val) == a + b;
      IncreasingConcat(a, b, 8 * |init|);
    }
  }

  lemma {:induction false} IndicesMembers(d: seq<bv8>, val: bool)
    ensures forall m :: m in Indices(d, val) <==> 0 <= m < 8 * |d| && BitsOf(d)[m] == val
  {
    if |d| > 0 {
      var init, last := d[..|d| - 1], d[|d| - 1];
      IndicesMembers(init, val);
      var a := Indices(init, val);
      var b := if last == FillByte(!val) then [] else ByteIndices(last, val, 8 * (|d| - 1), 0);
      assert Indices(d, val) == a + b;
      FillByteBits(!val);
      ByteIndicesMembers(last, val, 8 * (|d| - 1), 0);
      forall m
        ensures m in a + b <==> 0 <= m < 8 * |d| && BitsOf(d)[m] == val
      {
        BitsOfSplit(d, m);
      }
    }
  }

  /** Two ascending runs, all of the first below all of the second, make one ascending run. */
  lemma IncreasingConcat(a: seq<nat>, b: seq<nat>, bound: nat)
    requires Increasing(a) && Increasing(b)
    requires forall k :: 0 <= k < |a| ==> a[k] < bound
    requires forall k :: 0 <= k < |b| ==> bound <= b[k]
    ensures Increasing(a + b)
  {
  }

  /** A bit of the buffer is a bit of all bytes but the last, or a bit of the last. */
  lemma BitsOfSplit(d: seq<bv8>, m: int)
    requires 0 < |d|
    ensures 0 <= m < 8 * (|d| - 1) ==> BitsOf(d)[m] == BitsOf(d[..|d| - 1])[m]
    ensures 8 * (|d| - 1) <= m < 8 * |d| ==> BitsOf(d)[m] == Bit(d[|d| - 1], m - 8 * (|d| - 1))
  {
    if 8 * (|d| - 1) <= m < 8 * |d| {
      assert m / 8 == |d| - 1;
    }
  }

  /** A bitmap over a mutably borrowed byte buffer. */
  class Bitmap {
    const data: array<bv8>

    constructor(data: array<bv8>)
      ensures this.data == data
    {
      this.data := data;
    }

    /** The number of bits: eight per byte. */
    function Len(): (n: nat)
      reads this
      ensures n == |BitsOf(data[..])|
    {
      data.Length * 8
    }

    predicate IsEmpty()
      reads this
    {
      Len() == 0
    }

    /** Every bit becomes `val`. */
    method Fill(val: bool)
      modifies data
      ensures BitsOf(data[..]) == seq(Len(), _ => val)
    {
      var i := 0;
      while i < data.Length
        invariant i <= data.Length
        invariant forall k :: 0 <= k < i ==> data[k] == FillByte(val)
      {
        data[i] := FillByte(val);
        i := i + 1;
      }
      FillByteBits(val);
      assert forall m :: 0 <= m < Len() ==> BitsOf(data[..])[m] == val;
    }

    /** Bit `n`, or nothing beyond the end. */
    function Get(n: nat): (r: Option<bool>)
      reads this, data
      ensures r.None? <==> n >= Len()
      ensures r.Some? ==> r.value == BitsOf(data[..])[n]
    {
      var (byte, _, mask) := Bp(n);
      if byte < data.Length then Some(data[byte] & mask != 0) else None
    }

    /** Stores `val` at bit `n`; nothing changes beyond the end. */
    method Set(n: nat, val: bool) returns (r: Option<()>)
      modifies data
      ensures r.None? <==> n >= Len()
      ensures r.Some? ==> BitsOf(data[..]) == BitsOf(old(data[..]))[n := val]
      ensures r.None? ==> data[..] == old(data[..])
      ensures r.Some? ==> forall m :: Get(m) == if m == n then Some(val) else old(Get(m))
    {
      var (byte, bit, _) := Bp(n);
      if byte >= data.Length {
        return None;
      }
      var b := SetBit(data[byte], bit, val);
      BitsOfUpdate(data[..], byte, b, n, val);
      data[byte] := b;
      return Some(());
    }

    /** `iter_true`: the indices of the set bits, ascending. */
    function IterTrue(): (r: seq<nat>)
      reads this, data
      ensures Increasing(r)
      ensures forall m :: m in r <==> 0 <= m < Len() && BitsOf(data[..])[m]
    {
      IndicesCorrect(data[..], true);
      Indices(data[..], true)
    }

    /** `iter_false`: the indices of the clear bits, ascending. */
    function IterFalse(): (r: seq<nat>)
      reads this, data
      ensures Increasing(r)
      ensures forall m :: m in r <==> 0 <= m < Len() && !BitsOf(data[..])[m]
    {
      IndicesCorrect(data[..], false);
      Indices(data[..], false)
    }
  }

  /** The same bits behind atomic byte operations, one call at a time. */
  /** `swap` on the bytes: the mask test reads bit `n`, and the stored byte changes bit `n` alone. */
  lemma SwapBits(d: seq<bv8>, n: nat, val: bool)
    requires n / 8 < |d|
    ensures var (byte, bit, mask) := Bp(n);
      BitsOf(d)[n] == (d[byte] & mask != 0)
      && BitsOf(d[byte := if val then OrMask(d[byte], bit) else AndNotMask(d[byte], bit)]) == BitsOf(d)[n := val]
  {
    var (byte, bit, mask) := Bp(n);
    var prev := d[byte];
    assert BitsOf(d)[n] == Bit(prev, bit);
    var b := if val then OrMask(prev, bit) else AndNotMask(prev, bit);
    BitsOfUpdate(d, byte, b, n, val);
  }

  class AtomicBitmap {
    const data: array<bv8>

    constructor(data: array<bv8>)
      ensures this.data == data
    {
      this.data := data;
    }

    function Len(): (n: nat)
      reads this
      ensures n == |BitsOf(data[..])|
    {
      data.Length * 8
    }

    /** Every byte stored as all ones or all zeros. */
    method Fill(val: bool)
      modifies data
      ensures BitsOf(data[..]) == seq(Len(), _ => val)
    {
      for i := 0 to data.Length
        invariant forall k :: 0 <= k < i ==> data[k] == FillByte(val)
      {
        data[i] := FillByte(val);
      }
      FillByteBits(val);
      assert forall m :: 0 <= m < Len() ==> BitsOf(data[..])[m] == val;
    }

    /** `load`: bit `n`, or nothing beyond the end. */
    method Load(n: nat) returns (r: Option<bool>)
      ensures r.None? <==> n >= Len()
      ensures r.Some? ==> r.value == BitsOf(data[..])[n]
    {
      var (byte, _, mask) := Bp(n);
      if byte >= data.Length {
        return None;
      }
      var cur := data[byte];
      return Some(cur & mask != 0);
    }

    /** `store`: `fetch_or` to set the bit, `fetch_and` with the inverted mask to clear it. */
    method Store(n: nat, val: bool) returns (r: Option<()>)
      modifies data
      ensures r.None? <==> n >= Len()
      ensures r.Some? ==> BitsOf(data[..]) == BitsOf(old(data[..]))[n := val]
      ensures r.None? ==> data[..] == old(data[..])
    {
      var _ := Swap(n, val);
      r := if n < Len() then Some(()) else None;
    }

    /** `swap`: stores `val` at bit `n` and returns the bit it held. */
    method Swap(n: nat, val: bool) returns (r: Option<bool>)
      modifies data
      ensures r.None? <==> n >= Len()
      ensures r.Some? ==> r.value == BitsOf(old(data[..]))[n]
      ensures r.Some? ==> BitsOf(data[..]) == BitsOf(old(data[..]))[n := val]
      ensures r.None? ==> data[..] == old(data[..])
    {
      var (byte, bit, mask) := Bp(n);
      if byte >= data.Length {
        return None;
      }
      var prev := data[byte];
      SwapBits(data[..], n, val);
      data[byte] := if val then OrMask(prev, bit) else AndNotMask(prev, bit);
      return Some(prev & mask != 0);
    }
  }

  /** The first test of the source: bits 5, 7, 9, 53 and 79 set in ten zero bytes. */
  method IterTrueExample() returns (past: Option<()>, bits: seq<bool>)
    ensures past.None? && |bits| == 80
    ensures forall m :: 0 <= m < 80 ==> (bits[m] <==> m in {5, 7, 9, 53, 79})
  {
    var a := new bv8[10](_ => 0);
    var bm := new Bitmap(a);
    var r := bm.Set(5, true);
    r := bm.Set(7, true);
    r := bm.Set(9, true);
    r := bm.Set(53, true);
    r := bm.Set(79, true);
    past := bm.Set(89, true);
    bits := BitsOf(a[..]);
  }
}
