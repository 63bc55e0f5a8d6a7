/**
 * The single-producer single-consumer ring buffer: the index bookkeeping of
 * `RingBufMarker` (a read index, a write index and a capacity, where one
 * position always stays unused so that `read == write` means "empty"), the
 * `Slot` runs it hands out, and the element storage written and read through
 * those slots.
 */
module Ring {
  import opened Common

  /** Position `k` of a run that starts at `first` in a ring of `cap` cells. */
  function Pos(first: nat, k: nat, cap: nat): (p: nat)
    requires first + k < 2 * cap
    ensures p < cap
    ensures p == (first + k) % cap
  {
    ModOnce(first + k, cap);
    if first + k < cap then first + k else first + k - cap
  }

  /** Reducing a number below twice the modulus subtracts the modulus at most once. */
  lemma ModOnce(x: int, cap: int)
    requires 0 < cap && 0 <= x < 2 * cap
    ensures x % cap == (if x < cap then x else x - cap)
  {
    var q, r := x / cap, x % cap;
    assert x == q * cap + r && 0 <= r < cap;
  }

  /** `len` consecutive ring positions starting at `first`; the run may wrap. */
  datatype Slot = Slot(first: nat, len: nat) {

    /** Exactly `n` positions from the same start, or nothing when the run is shorter. */
    function Take(n: nat): (r: Option<Slot>)
      ensures r.None? <==> len < n
      ensures r.Some? ==> r.value.first == first && r.value.len == n && r.value.len <= len
    {
      if len < n then None else Some(Slot(first, n))
    }

    /** The same run cut down to at most `n` positions (the source's `min`). */
    function AtMost(n: nat): (r: Slot)
      ensures r.first == first
      ensures r.len <= n && r.len <= len
      ensures r.len == n || r.len == len
    {
      Slot(first, Min(len, n))
    }

    predicate IsEmpty() { len == 0 }

    /**
     * The two pieces of `s` this run covers: one piece when it fits before the
     * end of `s`, else the tail of `s` followed by a prefix of `s`.
     */
    function Slices<T>(s: seq<T>): (r: (seq<T>, seq<T>))
      requires len <= |s| && first <= |s|
      ensures |r.0| + |r.1| == len
      ensures first + len <= |s| <==> r.1 == [] || len == |r.0|
      ensures 0 < |s| ==> forall k :: 0 <= k < len ==> (r.0 + r.1)[k] == s[Pos(first, k, |s|)]
    {
      if first + len <= |s| then (s[first..first + len], [])
      else
        var head := s[first..];
        (head, s[..len - |head|])
    }
  }

  /** The index pair of a ring of `capacity` cells. */
  class RingBufMarker {
    var read: nat
    var write: nat
    const capacity: nat

    ghost predicate Valid()
      reads this
    {
      0 < capacity && read < capacity && write < capacity
    }

    /** A fresh marker; a capacity of zero is refused. */
    constructor (len: nat)
      requires len != 0
      ensures Valid() && capacity == len && read == 0 && write == 0
      ensures FreeSpace() == len - 1 && UsedSpace() == 0
    {
      read, write, capacity := 0, 0, len;
    }

    /** The writable run: from `write` up to one before `read`. */
    function UninitSlot(): (s: Slot)
      requires Valid()
      reads this
      ensures s.first == write && s.len < capacity
      ensures s.len == capacity - 1 - InitSlot().len
    {
      var avail := if write < read then read - write else capacity - write + read;
      Slot(write, avail - 1)
    }

    /** The readable run: from `read` up to `write`. */
    function InitSlot(): (s: Slot)
      requires Valid()
      reads this
      ensures s.first == read && s.len < capacity
      ensures read <= write ==> s.len == write - read
      ensures write < read ==> s.len == capacity - read + write
    {
      var avail := if read <= write then write - read else capacity - read + write;
      Slot(read, avail)
    }

    /** `free_space`: the cells a writer may still fill, always fewer than the capacity. */
    function FreeSpace(): (f: nat)
      requires Valid()
      reads this
      ensures f < capacity
    {
      UninitSlot().len
    }

    /** `used_space`: the cells holding stored elements, always fewer than the capacity. */
    function UsedSpace(): (u: nat)
      requires Valid()
      reads this
      ensures u < capacity
    {
      InitSlot().len
    }

    /** Free and used space always add up to one less than the capacity. */
    lemma SpaceSum()
      requires Valid()
      ensures FreeSpace() + UsedSpace() == capacity - 1
    {
    }

    predicate IsEmpty()
      requires Valid()
      reads this
    {
      UsedSpace() == 0
    }

    /** `count` writable positions, or None when fewer are free. */
    function Acquire(count: nat): (r: Option<Slot>)
      requires Valid()
      reads this
      ensures r.Some? <==> count <= FreeSpace()
      ensures r.Some? ==> r.value == Slot(write, count)
    {
      if capacity < count then None else UninitSlot().Take(count)
    }

    function AcquireUpTo(count: nat): (r: Slot)
      requires Valid()
      reads this
      ensures r == Slot(write, Min(count, FreeSpace()))
    {
      UninitSlot().AtMost(count)
    }

    /** `count` readable positions, or None when fewer are stored. */
    function Consume(count: nat): (r: Option<Slot>)
      requires Valid()
      reads this
      ensures r.Some? <==> count <= UsedSpace()
      ensures r.Some? ==> r.value == Slot(read, count)
    {
      if capacity < count then None else InitSlot().Take(count)
    }

    function ConsumeUpTo(count: nat): (r: Slot)
      requires Valid()
      reads this
      ensures r == Slot(read, Min(count, UsedSpace()))
    {
      InitSlot().AtMost(count)
    }

    /**
     * Publishes an acquired run: the write index moves past it. The source
     * asserts that the run starts at the current write index.
     */
    method Produce(slot: Slot)
      requires Valid()
      requires slot.first == write && slot.len <= FreeSpace()
      modifies this`write
      ensures Valid()
      ensures write == (slot.first + slot.len) % capacity
      ensures UsedSpace() == old(UsedSpace()) + slot.len
      ensures FreeSpace() == old(FreeSpace()) - slot.len
    {
      write := (slot.first + slot.len) % capacity;
      ModOnce(slot.first + slot.len, capacity);
    }

    /** Hands a consumed run back: the read index moves past it. */
    method Release(slot: Slot)
      requires Valid()
      requires slot.first == read && slot.len <= UsedSpace()
      modifies this`read
      ensures Valid()
      ensures read == (slot.first + slot.len) % capacity
      ensures UsedSpace() == old(UsedSpace()) - slot.len
      ensures FreeSpace() == old(FreeSpace()) + slot.len
    {
      read := (slot.first + slot.len) % capacity;
      ModOnce(slot.first + slot.len, capacity);
    }
  }

  /** The marker's own unit tests, replayed on the model. */
  method MarkerScenario() returns (free: seq<nat>, used: seq<nat>)
    ensures free == [4, 2, 3, 4, 0] && used == [0, 2, 1, 0, 4]
  {
    var m := new RingBufMarker(5);
    free, used := [m.FreeSpace()], [m.UsedSpace()];
    assert m.Consume(3) == None;
    var s := m.Acquire(2);
    m.Produce(s.value);
    free, used := free + [m.FreeSpace()], used + [m.UsedSpace()];
    s := m.Consume(1);
    m.Release(s.value);
    free, used := free + [m.FreeSpace()], used + [m.UsedSpace()];
    s := m.Consume(1);
    m.Release(s.value);
    free, used := free + [m.FreeSpace()], used + [m.UsedSpace()];
    s := m.Acquire(4);
    m.Produce(s.value);
    free, used := free + [m.FreeSpace()], used + [m.UsedSpace()];
  }

  /** A ring buffer: the marker plus the storage its slots index. */
  class RingBuf<T(0)> {
    const marker: RingBufMarker
    const items: array<T>
    /** The stored elements, oldest first. */
    ghost var Contents: seq<T>

    ghost predicate Valid()
      reads this, marker, items
    {
      && marker.Valid()
      && items.Length == marker.capacity
      && |Contents| == marker.UsedSpace()
      && forall k :: 0 <= k < |Contents| ==> Contents[k] == items[Pos(marker.read, k, marker.capacity)]
    }

    constructor (capacity: nat)
      requires capacity != 0
      ensures Valid() && fresh(marker) && fresh(items)
      ensures Contents == [] && marker.capacity == capacity
    {
      marker := new RingBufMarker(capacity);
      items := new T[capacity];
      Contents := [];
    }

    /** Copies as much of `buf` as fits and returns how many elements it stored. */
    method PushSlice(buf: seq<T>) returns (n: nat)
      requires Valid()
      modifies marker`write, items, this`Contents
      ensures Valid()
      ensures n == Min(|buf|, old(marker.FreeSpace()))
      ensures Contents == old(Contents) + buf[..n]
    {
      var slot := marker.AcquireUpTo(|buf|);
      var cap := items.Length;
      WriteRun(buf, slot);
      marker.Produce(slot);
      n := slot.len;
      Contents := Contents + buf[..n];
      forall k | 0 <= k < |Contents|
        ensures Contents[k] == items[Pos(marker.read, k, cap)]
      {
        if k >= |old(Contents)| {
          ReadWriteOffset(marker.read, old(marker.write), cap, k - |old(Contents)|);
        }
      }
    }

    /** Copies the head of `buf` into the free run `slot`, leaving the stored elements intact. */
    method WriteRun(buf: seq<T>, slot: Slot)
      requires Valid() && slot == marker.AcquireUpTo(|buf|)
      modifies items
      ensures Valid()
      ensures forall k :: 0 <= k < slot.len ==> items[Pos(slot.first, k, items.Length)] == buf[k]
    {
      var cap := items.Length;
      var i := 0;
      while i < slot.len
        invariant 0 <= i <= slot.len
        invariant Valid()
        invariant forall k :: 0 <= k < i ==> items[Pos(slot.first, k, cap)] == buf[k]
      {
        items[Pos(slot.first, i, cap)] := buf[i];
        i := i + 1;
        assert forall k :: 0 <= k < |Contents| ==> Pos(marker.read, k, cap) != Pos(slot.first, i - 1, cap) by {
          forall k | 0 <= k < |Contents| ensures Pos(marker.read, k, cap) != Pos(slot.first, i - 1, cap) {
            FreeUsedDisjoint(marker.read, marker.write, cap, k, i - 1);
          }
        }
      }
    }

    /** Moves up to `buf.Length` of the oldest elements into `buf` and returns how many. */
    method PopSlice(buf: array<T>) returns (n: nat)
      requires Valid() && buf != items
      modifies marker`read, buf, this`Contents
      ensures Valid()
      ensures n == Min(buf.Length, |old(Contents)|)
      ensures buf[..n] == old(Contents)[..n]
      ensures buf[n..] == old(buf[n..])
      ensures Contents == old(Contents)[n..]
    {
      var slot := marker.ConsumeUpTo(buf.Length);
      var cap := items.Length;
      ReadRun(buf, slot);
      marker.Release(slot);
      n := slot.len;
      Contents := Contents[n..];
      forall k | 0 <= k < |Contents|
        ensures Contents[k] == items[Pos(marker.read, k, cap)]
      {
        PosShift(old(marker.read), n, k, cap);
      }
    }

    /** Copies the oldest `slot.len` elements, the run `slot`, to the head of `buf`. */
    method ReadRun(buf: array<T>, slot: Slot)
      requires Valid() && buf != items && slot == marker.ConsumeUpTo(buf.Length)
      modifies buf
      ensures slot.len <= |Contents| && slot.len <= buf.Length
      ensures buf[..slot.len] == Contents[..slot.len]
      ensures buf[slot.len..] == old(buf[slot.len..])
    {
      var cap := items.Length;
      var i := 0;
      while i < slot.len
        invariant 0 <= i <= slot.len
        invariant forall k :: 0 <= k < i ==> buf[k] == Contents[k]
        invariant buf[i..] == old(buf[i..])
      {
        buf[i] := items[Pos(slot.first, i, cap)];
        i := i + 1;
      }
    }

    /** Stores one element, or hands it back when the buffer is full. */
    method Push(val: T) returns (r: Result<(), T>)
      requires Valid()
      modifies marker`write, items, this`Contents
      ensures Valid()
      ensures r.Ok? <==> old(marker.FreeSpace()) > 0
      ensures r.Err? ==> r.error == val && Contents == old(Contents)
      ensures r.Ok? ==> Contents == old(Contents) + [val]
    {
      if marker.Acquire(1).None? {
        return Err(val);
      }
      var n := PushSlice([val]);
      return Ok(());
    }

    /** Takes the oldest element, or nothing when the buffer is empty. */
    method Pop() returns (r: Option<T>)
      requires Valid()
      modifies marker`read, this`Contents
      ensures Valid()
      ensures r.None? <==> old(Contents) == []
      ensures r.None? ==> Contents == old(Contents)
      ensures r.Some? ==> r.value == old(Contents)[0] && Contents == old(Contents)[1..]
    {
      var slot := marker.Consume(1);
      if slot.None? {
        return None;
      }
      var item := items[marker.read];
      assert Pos(marker.read, 0, items.Length) == marker.read;
      marker.Release(slot.value);
      Contents := Contents[1..];
      forall k | 0 <= k < |Contents|
        ensures Contents[k] == items[Pos(marker.read, k, items.Length)]
      {
        PosShift(old(marker.read), 1, k, items.Length);
      }
      return Some(item);
    }
  }

  /** A free position and a stored position never coincide. */
  lemma FreeUsedDisjoint(read: nat, write: nat, cap: nat, k: nat, j: nat)
    requires read < cap && write < cap
    requires k < (if read <= write then write - read else cap - read + write)
    requires j < (if write < read then read - write else cap - write + read) - 1
    ensures Pos(read, k, cap) != Pos(write, j, cap)
  {
  }

  /** The `m`-th position after the write index is the `used + m`-th after the read index. */
  lemma ReadWriteOffset(read: nat, write: nat, cap: nat, m: nat)
    requires read < cap && write < cap && m < cap
    requires (if read <= write then write - read else cap - read + write) + m < cap
    ensures Pos(write, m, cap) == Pos(read, (if read <= write then write - read else cap - read + write) + m, cap)
  {
  }

  /** Skipping `n` positions and then `k` more is skipping `n + k`. */
  lemma PosShift(read: nat, n: nat, k: nat, cap: nat)
    requires read < cap && n + k < cap
    ensures Pos(Pos(read, n, cap), k, cap) == Pos(read, n + k, cap)
  {
  }
}
