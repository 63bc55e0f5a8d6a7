/**
 * The per-CPU caches of the slab allocator: a fixed-capacity stack
 * (`StaticVec`) and the `LocalSlab` that keeps freed blocks of one size class
 * in such a stack.
 */
module SlabLocal {
  import opened Common

  /** A stack of at most `capacity` values stored in a fixed array. */
  class StaticVec<T(0)> {
    const inner: array<T>
    var len: nat

    ghost predicate Valid()
      reads this
    {
      len <= inner.Length
    }

    /** The values on the stack, oldest first. */
    function Contents(): (s: seq<T>)
      reads this, inner
      requires Valid()
      ensures |s| == len
    {
      inner[..len]
    }

    function Capacity(): nat
      reads this
    {
      inner.Length
    }

    constructor(capacity: nat)
      ensures Valid() && fresh(inner)
      ensures Capacity() == capacity && Contents() == []
    {
      inner := new T[capacity];
      len := 0;
    }

    /** `push`: refuses (handing the value back) when full, else appends. */
    method Push(val: T) returns (r: Result<(), T>)
      requires Valid()
      modifies this, inner
      ensures Valid()
      ensures r.Err? <==> old(len) == Capacity()
      ensures r.Err? ==> r.error == val && Contents() == old(Contents())
      ensures r.Ok? ==> Contents() == old(Contents()) + [val]
    {
      if len == inner.Length {
        return Err(val);
      }
      ghost var before := Contents();
      len := len + 1;
      inner[len - 1] := val;
      assert inner[..len] == before + [val];
      return Ok(());
    }

    /** `pop`: nothing when empty, else removes and returns the newest value. */
    method Pop() returns (r: Option<T>)
      requires Valid()
      modifies this
      ensures Valid() && inner[..] == old(inner[..])
      ensures r.None? <==> old(len) == 0
      ensures r.Some? ==> (r.value == old(Contents())[old(len) - 1]
                           && Contents() == old(Contents())[..old(len) - 1])
      ensures r.None? ==> Contents() == old(Contents())
    {
      if len == 0 {
        return None;
      }
      len := len - 1;
      return Some(inner[len]);
    }
  }

  /** The number of blocks one local slab caches. */
  const LOCAL_SLAB_CAP: nat := 37

  /** A cache of freed blocks (addresses) of one size class. */
  class LocalSlab {
    const buffer: StaticVec<nat>

    ghost predicate Valid()
      reads this, buffer
    {
      buffer.Valid() && buffer.Capacity() == LOCAL_SLAB_CAP
    }

    constructor()
      ensures Valid() && fresh(buffer) && fresh(buffer.inner) && buffer.Contents() == []
    {
      buffer := new StaticVec(LOCAL_SLAB_CAP);
    }

    /** A cached block, the most recently freed first. */
    method Alloc() returns (r: Option<nat>)
      requires Valid()
      modifies buffer
      ensures Valid()
      ensures r.None? <==> old(buffer.Contents()) == []
      ensures r.Some? ==> [r.value] == old(buffer.Contents())[|old(buffer.Contents())| - 1..]
      ensures r.Some? ==> buffer.Contents() + [r.value] == old(buffer.Contents())
    {
      r := buffer.Pop();
      if r.Some? {
        assert old(buffer.Contents()) == buffer.Contents() + [r.value];
      }
    }

    /** Caches a freed block, or hands it back when the cache is full. */
    method Dealloc(block: nat) returns (r: Result<(), nat>)
      requires Valid()
      modifies buffer, buffer.inner
      ensures Valid()
      ensures r.Err? <==> |old(buffer.Contents())| == LOCAL_SLAB_CAP
      ensures r.Err? ==> r.error == block && buffer.Contents() == old(buffer.Contents())
      ensures r.Ok? ==> buffer.Contents() == old(buffer.Contents()) + [block]
    {
      r := buffer.Push(block);
    }
  }

  /** Last in, first out: a pushed value is the next one popped, and the stack is as before. */
  method PushThenPop<T(0)>(v: StaticVec<T>, x: T) returns (r: Option<T>)
    requires v.Valid() && v.len < v.Capacity()
    modifies v, v.inner
    ensures v.Valid() && r == Some(x) && v.Contents() == old(v.Contents())
  {
    var pushed := v.Push(x);
    r := v.Pop();
  }
}
