/**
 * ACPI table helpers: the byte-sum checksum every ACPI table must zero
 * (section 5.2.6 of the ACPI Specification), the cursor that reads packed
 * structures out of a table, and the parsing of the 36-byte System
 * Description Table header. Memory is the byte sequence `mem`; pointers
 * are indices into it.
 */
module Acpi {
  import opened Common
  import StaticStr

  /** The plain sum of the bytes. */
  function Sum(bytes: seq<u8>): nat
  {
    if |bytes| == 0 then 0 else Sum(bytes[..|bytes| - 1]) + bytes[|bytes| - 1]
  }

  /** `checksum_of`: a left fold of wrapping byte additions. */
  function Checksum(bytes: seq<u8>): (c: u8)
    ensures c == Sum(bytes) % 0x100
  {
    if |bytes| == 0 then 0
    else
      var acc := Checksum(bytes[..|bytes| - 1]);
      WrapAddMod(Sum(bytes[..|bytes| - 1]), bytes[|bytes| - 1]);
      (acc + bytes[|bytes| - 1]) % 0x100
  }

  lemma WrapAddMod(s: nat, b: u8)
    ensures (s % 0x100 + b) % 0x100 == (s + b) % 0x100
  {
  }

  /** The concatenation of a sequence of byte strings. */
  function Concat(items: seq<seq<u8>>): seq<u8>
  {
    if |items| == 0 then [] else Concat(items[..|items| - 1]) + items[|items| - 1]
  }

  /** `checksum_of_slice`: the wrapping sum of every element's checksum. */
  function ChecksumOfSlice(items: seq<seq<u8>>): (c: u8)
    ensures c == Checksum(Concat(items))
  {
    if |items| == 0 then 0
    else
      var init := items[..|items| - 1];
      var last := items[|items| - 1];
      var acc := ChecksumOfSlice(init);
      SumConcat(Concat(init), last);
      WrapAddMod(Sum(Concat(init)), Checksum(last));
      ModAddMod(Sum(Concat(init)), Sum(last));
      (acc + Checksum(last)) % 0x100
  }

  lemma {:induction false} SumConcat(a: seq<u8>, b: seq<u8>)
    ensures Sum(a + b) == Sum(a) + Sum(b)
    decreases |b|
  {
    if |b| > 0 {
      assert (a + b)[..|a + b| - 1] == a + b[..|b| - 1];
      SumConcat(a, b[..|b| - 1]);
    } else {
      assert a + b == a;
    }
  }

  lemma ModAddMod(x: nat, y: nat)
    ensures (x + y % 0x100) % 0x100 == (x + y) % 0x100
  {
  }

  /** The byte that brings a checksum of `c` back to zero. */
  function Negated(c: u8): (b: u8)
    ensures (c + b) % 0x100 == 0
  {
    if c == 0 then 0 else 0x100 - c
  }

  /** A table whose bytes include their own negated sum checks to zero. */
  lemma ChecksumCompletes(bytes: seq<u8>)
    ensures Checksum(bytes + [Negated(Checksum(bytes))]) == 0
  {
    ChecksumAppend(bytes, Negated(Checksum(bytes)));
  }

  /** Appending a byte adds it to the checksum, wrapping. */
  lemma ChecksumAppend(bytes: seq<u8>, b: u8)
    ensures Checksum(bytes + [b]) == (Checksum(bytes) + b) % 0x100
  {
    var all := bytes + [b];
    assert all[..|all| - 1] == bytes && all[|all| - 1] == b;
  }

  /** The little-endian `u32` at `b[0..4]`. */
  function U32Le(b: seq<u8>): (v: u32)
    requires |b| == 4
  {
    b[0] as int + 0x100 * (b[1] as int) + 0x1_0000 * (b[2] as int) + 0x100_0000 * (b[3] as int)
  }

  /** The System Description Table header, field by field. */
  datatype RawSdtHeader = RawSdtHeader(
    signature: seq<u8>,
    length: u32,
    revision: u8,
    checksum: u8,
    oemId: seq<u8>,
    oemTableId: seq<u8>,
    oemRevision: u32,
    creatorId: seq<u8>,
    creatorRevision: u32)

  const HEADER_SIZE: nat := 36

  /** The packed `repr(C)` layout of the 36 header bytes. */
  function DecodeHeader(b: seq<u8>): (h: RawSdtHeader)
    requires |b| == HEADER_SIZE
    ensures |h.signature| == 4 && |h.oemId| == 6 && |h.oemTableId| == 8 && |h.creatorId| == 4
  {
    RawSdtHeader(b[0..4], U32Le(b[4..8]), b[8], b[9], b[10..16], b[16..24],
                 U32Le(b[24..28]), b[28..32], U32Le(b[32..36]))
  }

  datatype SdtError =
    | Utf8Error(error: StaticStr.Utf8Error)
    | InvalidSignature
    | InvalidRevision(revision: u8)
    | InvalidChecksum
    | InvalidStructure

  /** The OEMs the kernel recognises. */
  datatype AcpiOem = Bochs | Other(id: seq<u8>)

  /** `From<StaticStr<6>>`: "BOCHS " is Bochs, any other id is kept as is. */
  function OemOf(id: seq<u8>): (r: AcpiOem)
    ensures r == Bochs <==> StaticStr.ZeroLimited(id) == Bytes("BOCHS ")
    ensures r.Other? ==> r.id == id
  {
    if StaticStr.ZeroLimited(id) == Bytes("BOCHS ") then Bochs else Other(id)
  }

  lemma OemExamples()
    ensures OemOf([0x42, 0x4F, 0x43, 0x48, 0x53, 0x20]) == Bochs
    ensures OemOf([0x42, 0x4F, 0x43, 0x48, 0x53, 0x00]).Other?
  {
    var b := [0x42, 0x4F, 0x43, 0x48, 0x53, 0x20];
    StaticStr.ZeroLimitedNoZero(b);
    assert Bytes("BOCHS ") == b;
    var c := [0x42, 0x4F, 0x43, 0x48, 0x53, 0x00];
    assert |StaticStr.ZeroLimited(c)| < 6;
  }

  /**
   * A cursor over the readable bytes `mem`: `next` is the read position and
   * `end` the limit reads may not pass.
   */
  class StructUnpacker {
    const mem: seq<u8>
    var next: nat
    var end: nat

    ghost predicate Valid()
      reads this
    {
      end <= |mem|
    }

    /** `new`: a cursor over `bytes` bytes from `first`; they must be readable. */
    constructor(mem: seq<u8>, first: nat, bytes: nat)
      requires first + bytes <= |mem|
      ensures Valid() && this.mem == mem && next == first && end == first + bytes
    {
      this.mem := mem;
      next := first;
      end := first + bytes;
    }

    /** `extend`: moves the limit on; the bytes up to it must be readable. */
    method Extend(bytes: nat)
      requires Valid() && end + bytes <= |mem|
      modifies this
      ensures Valid() && next == old(next) && end == old(end) + bytes
    {
      end := end + bytes;
    }

    /**
     * `next::<T>` for a `T` of `size` bytes: nothing, and no move, when fewer
     * than `size` bytes are left; else the bytes, moving past them when `inc`.
     */
    method Next(size: nat, inc: bool) returns (r: Option<seq<u8>>)
      requires Valid()
      modifies this
      ensures Valid() && end == old(end)
      ensures r.None? <==> old(next) + size > end
      ensures r.None? ==> next == old(next)
      ensures r.Some? ==> (r.value == mem[old(next)..old(next) + size]
                           && next == if inc then old(next) + size else old(next))
    {
      if next + size > end {
        return None;
      }
      var item := mem[next..next + size];
      if inc {
        Skip(size);
      }
      return Some(item);
    }

    /** `unpack`: `next`, with a missing value reported as `InvalidStructure`. */
    method Unpack(size: nat, inc: bool) returns (r: Result<seq<u8>, SdtError>)
      requires Valid()
      modifies this
      ensures Valid() && end == old(end)
      ensures r.Err? <==> old(next) + size > end
      ensures r.Err? ==> r.error == InvalidStructure && next == old(next)
      ensures r.Ok? ==> r.value == mem[old(next)..old(next) + size]
    {
      var item := Next(size, inc);
      if item.None? {
        return Err(InvalidStructure);
      }
      return Ok(item.value);
    }

    /** `skip`: moves the read position forward by `n`. */
    method Skip(n: nat)
      modifies this
      ensures next == old(next) + n && end == old(end)
    {
      next := next + n;
    }

    /** `backtrack`: moves the read position back by `n`. */
    method Backtrack(n: nat)
      requires n <= next
      modifies this
      ensures next == old(next) - n && end == old(end)
    {
      next := next - n;
    }

    /** `left`: the bytes before the limit, zero once the cursor has passed it. */
    function Left(): (n: nat)
      reads this
      ensures next <= end ==> next + n == end
      ensures next > end ==> n == 0
    {
      if end >= next then end - next else 0
    }
  }

  /** The checks of `parse` that come before the table bytes are summed. */
  function HeaderError(h: RawSdtHeader, signature: Option<seq<u8>>): (r: Option<SdtError>)
    requires |h.oemId| == 6 && |h.oemTableId| == 8 && |h.creatorId| == 4
  {
    var oem := StaticStr.FromUtf8(h.oemId);
    var table := StaticStr.FromUtf8(h.oemTableId);
    var creator := StaticStr.FromUtf8(h.creatorId);
    if oem.Err? then Some(Utf8Error(oem.error))
    else if table.Err? then Some(Utf8Error(table.error))
    else if creator.Err? then Some(Utf8Error(creator.error))
    else if signature.Some? && signature.value != StaticStr.ZeroLimited(h.signature) then Some(InvalidSignature)
    else None
  }

  /** The header at `at`, when 36 bytes are left before `end`. */
  function HeaderAt(mem: seq<u8>, at: nat, end: nat): (h: Option<RawSdtHeader>)
    requires end <= |mem|
    ensures h.Some? ==> |h.value.oemId| == 6 && |h.value.oemTableId| == 8 && |h.value.creatorId| == 4
  {
    if at + HEADER_SIZE > end then None else Some(DecodeHeader(mem[at..at + HEADER_SIZE]))
  }

  /**
   * What `parse` needs of memory: once the header has been read and
   * checked, its `length` bytes from the start are readable, it covers at
   * least the header, and the limit can move on by the rest of the table.
   */
  predicate TableReadable(mem: seq<u8>, at: nat, end: nat, signature: Option<seq<u8>>)
    requires end <= |mem|
  {
    var h := HeaderAt(mem, at, end);
    h.Some? && HeaderError(h.value, signature).None? ==> TableFits(mem, at, end, h.value)
  }

  /** A byte slice seen as a slice of one-byte values. */
  function Singletons(bytes: seq<u8>): (items: seq<seq<u8>>)
    ensures |items| == |bytes|
  {
    seq(|bytes|, i requires 0 <= i < |bytes| => [bytes[i]])
  }

  /** `checksum_of_slice` over bytes is `checksum_of` over the same bytes. */
  lemma {:induction false} ChecksumOfBytes(bytes: seq<u8>)
    ensures Concat(Singletons(bytes)) == bytes
    ensures ChecksumOfSlice(Singletons(bytes)) == Checksum(bytes)
    decreases |bytes|
  {
    if |bytes| > 0 {
      var init := bytes[..|bytes| - 1];
      ChecksumOfBytes(init);
      assert Singletons(bytes)[..|bytes| - 1] == Singletons(init);
      assert bytes == init + [bytes[|bytes| - 1]];
    }
  }

  /** Whether the table behind header `h` at `at` is readable, and the limit can cover it. */
  predicate TableFits(mem: seq<u8>, at: nat, end: nat, h: RawSdtHeader)
  {
    HEADER_SIZE <= h.length && at + h.length <= |mem| && end + h.length - HEADER_SIZE <= |mem|
  }

  /** The last step of `parse`: the cursor now covers the table, whose checksum decides. */
  function ParseTable(mem: seq<u8>, at: nat, end: nat, h: RawSdtHeader): (r: (Result<RawSdtHeader, SdtError>, nat, nat))
    requires TableFits(mem, at, end, h)
    ensures r.0.Ok? <==> Checksum(mem[at..at + h.length]) == 0
    ensures r.0.Ok? ==> r.0.value == h
    ensures r.0.Err? ==> r.0.error == InvalidChecksum
    ensures r.1 == at + HEADER_SIZE && r.2 == end + h.length - HEADER_SIZE
  {
    var end' := end + h.length - HEADER_SIZE;
    if Checksum(mem[at..at + h.length]) != 0 then (Err(InvalidChecksum), at + HEADER_SIZE, end')
    else (Ok(h), at + HEADER_SIZE, end')
  }

  /** The result of `parse` and where it leaves the cursor's position and limit. */
  function Parse(mem: seq<u8>, at: nat, end: nat, signature: Option<seq<u8>>): (r: (Result<RawSdtHeader, SdtError>, nat, nat))
    requires end <= |mem| && TableReadable(mem, at, end, signature)
  {
    match HeaderAt(mem, at, end)
    case None => (Err(InvalidStructure), at, end)
    case Some(h) =>
      match HeaderError(h, signature)
      case Some(e) => (Err(e), at + HEADER_SIZE, end)
      case None => ParseTable(mem, at, end, h)
  }

  /**
   * `RawSdtHeader::parse`: reads the header, rejects ill-formed id strings
   * and a wrong signature, extends the cursor over the whole table and
   * finally rejects a nonzero checksum (after having extended the cursor).
   */
  method ParseHeader(u: StructUnpacker, signature: Option<seq<u8>>) returns (r: Result<RawSdtHeader, SdtError>)
    requires u.Valid() && TableReadable(u.mem, u.next, u.end, signature)
    modifies u
    ensures u.Valid()
    ensures (r, u.next, u.end) == Parse(u.mem, old(u.next), old(u.end), signature)
  {
    var checksumFirst := u.next;
    ghost var end0 := u.end;
    var bytes := u.Next(HEADER_SIZE, true);
    if bytes.None? {
      return Err(InvalidStructure);
    }
    var header := DecodeHeader(bytes.value);
    assert HeaderAt(u.mem, checksumFirst, end0) == Some(header);
    var err := HeaderError(header, signature);
    if err.Some? {
      ParseRejects(u.mem, checksumFirst, end0, signature, header);
      return Err(err.value);
    }
    ParseChecks(u.mem, checksumFirst, end0, signature, header);
    r := CheckTable(u, checksumFirst, header);
  }

  /** The tail of `parse`: sums the table's bytes, extends the cursor over it, then judges the sum. */
  method CheckTable(u: StructUnpacker, first: nat, header: RawSdtHeader) returns (r: Result<RawSdtHeader, SdtError>)
    requires u.Valid() && u.next == first + HEADER_SIZE && TableFits(u.mem, first, u.end, header)
    modifies u
    ensures u.Valid()
    ensures (r, u.next, u.end) == ParseTable(u.mem, first, old(u.end), header)
  {
    var allBytes := u.mem[first..first + header.length];
    var checksum := ChecksumOfSlice(Singletons(allBytes));
    ChecksumOfBytes(allBytes);
    u.Extend(header.length - HEADER_SIZE);
    if checksum != 0 {
      return Err(InvalidChecksum);
    }
    return Ok(header);
  }

  lemma ParseRejects(mem: seq<u8>, at: nat, end: nat, signature: Option<seq<u8>>, h: RawSdtHeader)
    requires end <= |mem| && TableReadable(mem, at, end, signature)
    requires HeaderAt(mem, at, end) == Some(h) && HeaderError(h, signature).Some?
    ensures Parse(mem, at, end, signature) == (Err(HeaderError(h, signature).value), at + HEADER_SIZE, end)
  {
  }

  lemma ParseChecks(mem: seq<u8>, at: nat, end: nat, signature: Option<seq<u8>>, h: RawSdtHeader)
    requires end <= |mem| && TableReadable(mem, at, end, signature)
    requires HeaderAt(mem, at, end) == Some(h) && HeaderError(h, signature).None?
    ensures TableFits(mem, at, end, h)
    ensures Parse(mem, at, end, signature) == ParseTable(mem, at, end, h)
  {
  }

  /** Reading fails with `InvalidStructure`, without moving, exactly when fewer than 36 bytes are left. */
  lemma ParseShortInput(mem: seq<u8>, at: nat, end: nat, signature: Option<seq<u8>>)
    requires end <= |mem| && TableReadable(mem, at, end, signature)
    ensures Parse(mem, at, end, signature).0 == Err(InvalidStructure) <==> at + HEADER_SIZE > end
    ensures at + HEADER_SIZE > end ==> Parse(mem, at, end, signature).1 == at
  {
  }

  /** A header that parses has a matching signature and a table that sums to zero. */
  lemma ParsedTableIsSound(mem: seq<u8>, at: nat, end: nat, signature: Option<seq<u8>>, h: RawSdtHeader)
    requires end <= |mem| && TableReadable(mem, at, end, signature)
    requires Parse(mem, at, end, signature).0 == Ok(h)
    ensures HEADER_SIZE <= h.length && h == DecodeHeader(mem[at..at + HEADER_SIZE])
    ensures signature.Some? ==> StaticStr.ZeroLimited(h.signature) == signature.value
    ensures Checksum(mem[at..at + h.length]) == 0
    ensures StaticStr.FromUtf8(h.oemId).Ok?
  {
    var hd := HeaderAt(mem, at, end).value;
    assert HeaderError(hd, signature).None?;
    assert Parse(mem, at, end, signature) == ParseTable(mem, at, end, hd);
    assert hd == h;
    TableAccepted(mem, at, end, h);
  }

  /** A table that `parse` accepts is the header it read, with a byte sum of zero modulo 256. */
  lemma TableAccepted(mem: seq<u8>, at: nat, end: nat, h: RawSdtHeader)
    requires TableFits(mem, at, end, h) && ParseTable(mem, at, end, h).0.Ok?
    ensures ParseTable(mem, at, end, h).0 == Ok(h)
    ensures Checksum(mem[at..at + h.length]) == 0
  {
  }
}
