/**
 * A byte slice used as a file device: reads and writes copy between the
 * slice and a caller's buffer at an offset and never change its length;
 * `read_exact` and `write_exact` repeat them until the whole buffer has
 * been moved. A device reached through a shared `&'static` reference can
 * be read but not written. The device may report `Interrupted` for a
 * number of calls before it answers; that number belongs to the
 * environment and is a field here.
 */
module VfsDevice {
  import opened Common

  datatype IoError = PermissionDenied | UnexpectedEOF | Interrupted | WriteZero

  /** The trait's default `map_phys`: a plain device cannot be mapped. */
  function MapPhys(minBytes: nat): (r: Result<seq<nat>, IoError>)
    ensures r == Err(PermissionDenied)
  {
    Err(PermissionDenied)
  }

  /** The trait's default `unmap_phys`. */
  function UnmapPhys(): (r: Result<(), IoError>)
    ensures r == Err(PermissionDenied)
  {
    Err(PermissionDenied)
  }

  /**
   * How many bytes a slice of `len` bytes moves at `offset` for a buffer
   * of `want` bytes: what is left after the offset, at most `want`; an
   * offset past the end is an error.
   */
  function Span(len: nat, offset: nat, want: nat): (r: Result<nat, IoError>)
    ensures offset > len <==> r == Err(UnexpectedEOF)
    ensures r.Ok? ==> r.value <= want && offset + r.value <= len
    ensures r.Ok? ==> (r.value == want || offset + r.value == len)
  {
    if offset > len then Err(UnexpectedEOF) else Ok(Min(len - offset, want))
  }

  /**
   * `after` is `before` with `data` written over it at `at`: the bytes in
   * that range are `data`'s, all others are as they were, and the length
   * is the same.
   */
  ghost predicate Overwritten(after: seq<u8>, before: seq<u8>, at: nat, data: seq<u8>)
  {
    |after| == |before| && at + |data| <= |before|
    && (forall j :: 0 <= j < |after| && !(at <= j < at + |data|) ==> after[j] == before[j])
    && (forall j :: at <= j < at + |data| ==> after[j] == data[j - at])
  }

  /** An overwrite is the prefix before `at`, then `data`, then the old rest. */
  lemma OverwrittenIsSplice(after: seq<u8>, before: seq<u8>, at: nat, data: seq<u8>)
    requires Overwritten(after, before, at, data)
    ensures after == before[..at] + data + before[at + |data|..]
  {
    var spliced := before[..at] + data + before[at + |data|..];
    assert |spliced| == |after|;
    assert forall j :: 0 <= j < |after| ==> after[j] == spliced[j];
  }

  /** Two overwrites at adjacent places are one overwrite with the joined data. */
  lemma OverwriteAdjacent(c: seq<u8>, b: seq<u8>, a: seq<u8>, at: nat, d1: seq<u8>, d2: seq<u8>)
    requires Overwritten(b, a, at, d1) && Overwritten(c, b, at + |d1|, d2)
    ensures Overwritten(c, a, at, d1 + d2)
  {
  }

  /** `buf` holds `count` bytes from `bytes` at `offset`, starting at index `from`. */
  ghost predicate Copied(buf: seq<u8>, from: nat, bytes: seq<u8>, offset: nat, count: nat)
  {
    from + count <= |buf| && offset + count <= |bytes|
    && forall j :: from <= j < from + count ==> buf[j] == bytes[offset + j - from]
  }

  class Device {
    /** The slice's bytes. */
    const bytes: array<u8>
    /** Whether the device is reached through a shared `&'static` reference. */
    const shared: bool
    /** How many of the next calls report `Interrupted` before the device answers. */
    var interrupts: nat

    constructor(bytes: array<u8>, shared: bool, interrupts: nat)
      ensures this.bytes == bytes && this.shared == shared && this.interrupts == interrupts
    {
      this.bytes := bytes;
      this.shared := shared;
      this.interrupts := interrupts;
    }

    /** `len`: the slice's length. */
    function Len(): (n: nat)
      ensures n == bytes.Length
    {
      bytes.Length
    }

    /** `set_len`: neither a slice nor a shared reference can be resized. */
    method SetLen(len: nat) returns (r: Result<(), IoError>)
      ensures r == Err(PermissionDenied)
    {
      r := Err(PermissionDenied);
    }

    /**
     * `read` into `buf[from..]`: the bytes at `offset` are copied in, as
     * many as fit and as the slice has after the offset; the rest of
     * `buf` is untouched.
     */
    method Read(offset: nat, buf: array<u8>, from: nat) returns (r: Result<nat, IoError>)
      requires buf != bytes && from <= buf.Length
      modifies this, buf
      ensures old(interrupts) > 0 ==> r == Err(Interrupted) && interrupts == old(interrupts) - 1
      ensures old(interrupts) == 0 ==> interrupts == 0 && r == Span(bytes.Length, offset, buf.Length - from)
      ensures r.Ok? ==> Overwritten(buf[..], old(buf[..]), from, bytes[offset..offset + r.value])
      ensures r.Err? ==> buf[..] == old(buf[..])
    {
      if interrupts > 0 {
        interrupts := interrupts - 1;
        return Err(Interrupted);
      }
      r := Span(bytes.Length, offset, buf.Length - from);
      if r.Err? {
        return;
      }
      var n := r.value;
      var k := 0;
      while k < n
        modifies buf
        invariant 0 <= k <= n
        invariant Overwritten(buf[..], old(buf[..]), from, bytes[offset..offset + k])
      {
        buf[from + k] := bytes[offset + k];
        k := k + 1;
      }
    }

    /**
     * `write` of `data` at `offset`: as many bytes as the slice has room
     * for after the offset are overwritten; the slice never grows. Through
     * a shared reference nothing is written.
     */
    method Write(offset: nat, data: seq<u8>) returns (r: Result<nat, IoError>)
      modifies this, bytes
      ensures shared ==> r == Err(PermissionDenied) && interrupts == old(interrupts)
      ensures !shared && old(interrupts) > 0 ==> r == Err(Interrupted) && interrupts == old(interrupts) - 1
      ensures !shared && old(interrupts) == 0 ==> interrupts == 0 && r == Span(bytes.Length, offset, |data|)
      ensures r.Ok? ==> Overwritten(bytes[..], old(bytes[..]), offset, data[..r.value])
      ensures r.Err? ==> bytes[..] == old(bytes[..])
    {
      if shared {
        return Err(PermissionDenied);
      }
      if interrupts > 0 {
        interrupts := interrupts - 1;
        return Err(Interrupted);
      }
      r := Span(bytes.Length, offset, |data|);
      if r.Err? {
        return;
      }
      var n := r.value;
      var k := 0;
      while k < n
        modifies bytes
        invariant 0 <= k <= n
        invariant Overwritten(bytes[..], old(bytes[..]), offset, data[..k])
      {
        bytes[offset + k] := data[k];
        k := k + 1;
      }
    }

    /**
     * `read_exact`: reads until `buf` is full, retrying interrupted calls.
     * It succeeds exactly when the slice has `buf.Length` bytes at
     * `offset` (or `buf` is empty), and then `buf` holds them; a short
     * read is `UnexpectedEOF`. The interruptions change nothing.
     */
    method ReadExact(offset: nat, buf: array<u8>) returns (r: Result<(), IoError>)
      requires buf != bytes
      modifies this, buf
      ensures r.Ok? <==> buf.Length == 0 || offset + buf.Length <= bytes.Length
      ensures r.Err? ==> r.error == UnexpectedEOF
      ensures r.Ok? ==> buf.Length == 0 || buf[..] == bytes[offset..offset + buf.Length]
    {
      var from := 0;
      var at := offset;
      while from < buf.Length
        invariant 0 <= from <= buf.Length && at == offset + from
        invariant from > 0 ==> Copied(buf[..], 0, bytes[..], offset, from)
        decreases buf.Length - from + interrupts
      {
        var got := Read(at, buf, from);
        if got == Ok(0) {
          break;
        }
        match got
        case Ok(n) =>
          at := at + n;
          from := from + n;
        case Err(e) =>
          if e != Interrupted {
            return Err(e);
          }
      }
      if from < buf.Length {
        return Err(UnexpectedEOF);
      }
      r := Ok(());
      if buf.Length > 0 {
        assert Copied(buf[..], 0, bytes[..], offset, from);
        assert buf[..] == bytes[offset..offset + buf.Length];
      }
    }

    /**
     * `write_exact`: writes until all of `data` is written, retrying
     * interrupted calls. A write that moves nothing is `WriteZero`, and
     * then the part of `data` that fitted has been written. It succeeds
     * exactly when the slice has room for `data` at `offset` (or `data`
     * is empty), and then those bytes are replaced by `data`.
     */
    method WriteExact(offset: nat, data: seq<u8>) returns (r: Result<(), IoError>)
      modifies this, bytes
      ensures r.Ok? <==> |data| == 0 || (!shared && offset + |data| <= bytes.Length)
      ensures r.Err? && shared ==> r.error == PermissionDenied
      ensures r.Err? && !shared ==> r.error == if offset <= bytes.Length then WriteZero else UnexpectedEOF
      ensures r.Ok? && |data| > 0 ==> Overwritten(bytes[..], old(bytes[..]), offset, data)
      ensures r == Err(WriteZero) ==> Overwritten(bytes[..], old(bytes[..]), offset, data[..bytes.Length - offset])
      ensures |data| == 0 || (r.Err? && r.error != WriteZero) ==> bytes[..] == old(bytes[..])
    {
      var from := 0;
      var at := offset;
      while from < |data|
        invariant 0 <= from <= |data| && at == offset + from
        invariant from == 0 ==> bytes[..] == old(bytes[..])
        invariant from > 0 ==> !shared && Overwritten(bytes[..], old(bytes[..]), offset, data[..from])
        decreases |data| - from + interrupts
      {
        ghost var before := bytes[..];
        var put := Write(at, data[from..]);
        match put
        case Ok(n) =>
          if n == 0 {
            return Err(WriteZero);
          }
          WriteStep(bytes[..], before, old(bytes[..]), offset, data, from, n);
          at := at + n;
          from := from + n;
        case Err(e) =>
          if e != Interrupted {
            return Err(e);
          }
      }
      r := Ok(());
      assert data[..from] == data;
    }
  }

  /** One more write in `write_exact`'s loop extends what has been written. */
  lemma WriteStep(c: seq<u8>, b: seq<u8>, a: seq<u8>, offset: nat, data: seq<u8>, from: nat, n: nat)
    requires from + n <= |data|
    requires from == 0 ==> b == a
    requires from > 0 ==> Overwritten(b, a, offset, data[..from])
    requires Overwritten(c, b, offset + from, data[from..][..n])
    ensures Overwritten(c, a, offset, data[..from + n])
  {
    assert data[from..][..n] == data[from..from + n];
    assert data[..from + n] == data[..from] + data[from..from + n];
    if from > 0 {
      OverwriteAdjacent(c, b, a, offset, data[..from], data[from..from + n]);
    }
  }
}
