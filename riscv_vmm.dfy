/**
 * RISC-V Sv48 address and page-table-entry encoding. A physical address has
 * 52 bits; a virtual address has 48 bits sign-extended from bit 47; an entry
 * keeps the physical page number from bit 10 up and the flags in its low bits.
 * `usize` values are 64-bit words here.
 */
module Riscv64Vmm {
  import opened Common

  type Word = bv64

  /** The flag bits the model knows: present, readable, writable, executable. */
  const PRESENT: bv16 := 1
  const R: bv16 := 2
  const W: bv16 := 4
  const X: bv16 := 8
  const ALL_FLAGS: bv16 := 0xF

  /** `PageTableEntry::new`: the page number of `a` from bit 10, or-ed with the flag bits. */
  function NewEntry(a: Word, f: bv16): Word
  {
    ((a >> 12) << 10) | (f as Word)
  }

  /** `addr`: 44 bits of page number from bit 10, as a page-aligned address. */
  function EntryAddr(e: Word): (a: Word)
    ensures a & 0xFFF == 0 && a >> 56 == 0
  {
    ((e >> 10) & ((1 << 44) - 1)) << 12
  }

  /** `flags`: the low ten bits, keeping only the known flags (`from_bits_truncate`). */
  function EntryFlags(e: Word): (f: bv16)
    ensures f & !ALL_FLAGS == 0
  {
    ((e & ((1 << 10) - 1)) as bv16) & ALL_FLAGS
  }

  /** Known flags only: what a `PageFlags` value can hold. */
  predicate KnownFlags(f: bv16) { f & !ALL_FLAGS == 0 }

  /**
   * Decoding an encoded entry gives back the address aligned down to its
   * page (and cut to 56 bits) and exactly the flags.
   */
  lemma EntryRoundTrip(a: Word, f: bv16)
    requires KnownFlags(f)
    ensures EntryAddr(NewEntry(a, f)) == a & 0x00FF_FFFF_FFFF_F000
    ensures EntryFlags(NewEntry(a, f)) == f
  {
  }

  /** A page-aligned physical address of at most 52 bits survives the round trip unchanged. */
  lemma EntryAddrExact(a: Word, f: bv16)
    requires KnownFlags(f) && a & 0xFFF == 0 && a >> 52 == 0
    ensures EntryAddr(NewEntry(a, f)) == a
  {
  }

  /** A page-table entry, overwritten in place by `set_addr` and `set_flags`. */
  class PageTableEntry {
    var bits: Word

    constructor Empty()
      ensures bits == 0
    {
      bits := 0;
    }

    /** `addr`: the entry's physical page, page aligned and below 2^56. */
    function Addr(): (a: Word)
      reads this
      ensures a & 0xFFF == 0 && a >> 56 == 0
    {
      EntryAddr(bits)
    }

    /** `flags`: only known flags are ever read out of an entry. */
    function Flags(): (f: bv16)
      reads this
      ensures f & !ALL_FLAGS == 0
    {
      EntryFlags(bits)
    }

    /** `set_addr`: re-encodes with the new address and the current flags. */
    method SetAddr(a: Word)
      modifies this
      ensures bits == NewEntry(a, old(Flags()))
      ensures Addr() == a & 0x00FF_FFFF_FFFF_F000 && Flags() == old(Flags())
    {
      EntryRoundTrip(a, Flags());
      bits := NewEntry(a, Flags());
    }

    /** `set_flags`: re-encodes with the current address and the new flags. */
    method SetFlags(f: bv16)
      requires KnownFlags(f)
      modifies this
      ensures bits == NewEntry(old(Addr()), f)
      ensures Addr() == old(Addr()) && Flags() == f
    {
      EntryRoundTrip(Addr(), f);
      EntryAddrStable(bits);
      bits := NewEntry(Addr(), f);
    }
  }

  /** Re-encoding a decoded address changes nothing in it. */
  lemma EntryAddrStable(e: Word)
    ensures EntryAddr(e) & 0x00FF_FFFF_FFFF_F000 == EntryAddr(e)
  {
  }

  const PHYS_MASK: Word := (1 << 52) - 1

  /** `PhysAddr::new_truncate`: the low 52 bits. */
  function PhysNewTruncate(addr: Word): (r: Word)
    ensures r >> 52 == 0 && r & PHYS_MASK == addr & PHYS_MASK
  {
    addr & PHYS_MASK
  }

  /** `PhysAddr::try_from`: accepted iff truncation changes nothing. */
  function PhysTryFrom(addr: Word): (r: Option<Word>)
    ensures r.Some? <==> addr >> 52 == 0
    ensures r.Some? ==> r.value == addr
  {
    if PhysNewTruncate(addr) == addr then Some(addr) else None
  }

  /** `VirtAddr::new_truncate`: bits 0..47 kept and bit 47 copied into bits 48..63. */
  function VirtNewTruncate(addr: Word): (r: Word)
    ensures r & 0xFFFF_FFFF_FFFF == addr & 0xFFFF_FFFF_FFFF
    ensures Canonical(r)
    ensures r & SIGN_BIT == addr & SIGN_BIT
  {
    TruncateCanonical(addr);
    SignExtend(addr)
  }

  /** Bits 0..47 of `addr`, with bit 47 copied into bits 48..63. */
  function SignExtend(addr: Word): Word
  {
    var low := addr & 0xFFFF_FFFF_FFFF;
    if addr & SIGN_BIT != 0 then low | 0xFFFF_0000_0000_0000 else low
  }

  const SIGN_BIT: Word := 0x8000_0000_0000
  const HIGH_BITS: Word := 0xFFFF_8000_0000_0000

  lemma TruncateCanonical(addr: Word)
    ensures var r := SignExtend(addr);
      Canonical(r) && r & 0xFFFF_FFFF_FFFF == addr & 0xFFFF_FFFF_FFFF && r & SIGN_BIT == addr & SIGN_BIT
  {
    if addr & SIGN_BIT != 0 {
      NegativeCanonical(addr);
      NegativeLow(addr);
      NegativeSign(addr);
    } else {
      PositiveCanonical(addr);
      PositiveSign(addr);
      LowLow(addr);
    }
  }

  lemma NegativeCanonical(addr: Word)
    requires addr & SIGN_BIT != 0
    ensures Canonical((addr & 0xFFFF_FFFF_FFFF) | 0xFFFF_0000_0000_0000)
  {
  }

  lemma NegativeLow(addr: Word)
    ensures ((addr & 0xFFFF_FFFF_FFFF) | 0xFFFF_0000_0000_0000) & 0xFFFF_FFFF_FFFF == addr & 0xFFFF_FFFF_FFFF
  {
  }

  lemma NegativeSign(addr: Word)
    requires addr & SIGN_BIT != 0
    ensures ((addr & 0xFFFF_FFFF_FFFF) | 0xFFFF_0000_0000_0000) & SIGN_BIT == addr & SIGN_BIT
  {
  }

  lemma PositiveCanonical(addr: Word)
    requires addr & SIGN_BIT == 0
    ensures Canonical(addr & 0xFFFF_FFFF_FFFF)
  {
  }

  lemma PositiveSign(addr: Word)
    ensures (addr & 0xFFFF_FFFF_FFFF) & SIGN_BIT == addr & SIGN_BIT
  {
  }

  lemma LowLow(addr: Word)
    ensures (addr & 0xFFFF_FFFF_FFFF) & 0xFFFF_FFFF_FFFF == addr & 0xFFFF_FFFF_FFFF
  {
  }

  /** Canonical Sv48 addresses: bits 47..63 all equal. */
  predicate Canonical(addr: Word)
  {
    addr & HIGH_BITS == 0 || addr & HIGH_BITS == HIGH_BITS
  }

  /** A canonical address is its own truncation, and only a canonical one is. */
  lemma TruncateFixesCanonical(addr: Word)
    ensures VirtNewTruncate(addr) == addr <==> Canonical(addr)
  {
    var low := addr & 0xFFFF_FFFF_FFFF;
    if addr & SIGN_BIT != 0 {
      assert VirtNewTruncate(addr) == low | 0xFFFF_0000_0000_0000;
      SignedHigh(addr);
    } else {
      assert VirtNewTruncate(addr) == low;
      UnsignedHigh(addr);
    }
  }

  lemma SignedHigh(addr: Word)
    requires addr & SIGN_BIT != 0
    ensures (addr & 0xFFFF_FFFF_FFFF) | 0xFFFF_0000_0000_0000 == addr <==> addr & HIGH_BITS == HIGH_BITS
  {
  }

  lemma UnsignedHigh(addr: Word)
    requires addr & SIGN_BIT == 0
    ensures addr & 0xFFFF_FFFF_FFFF == addr <==> addr & HIGH_BITS == 0
  {
  }

  /** `VirtAddr::try_from`: accepted iff the address is canonical. */
  function VirtTryFrom(addr: Word): (r: Option<Word>)
    ensures r.Some? <==> Canonical(addr)
    ensures r.Some? ==> r.value == addr
  {
    TruncateFixesCanonical(addr);
    if VirtNewTruncate(addr) == addr then Some(addr) else None
  }

  /** `offset`: the byte within the page. */
  function Offset(addr: Word): (o: Word)
    ensures o < 0x1000
  {
    addr & 0xFFF
  }

  /** `table_indices`: the nine-bit indices of levels 3, 2, 1 and 0. */
  function TableIndices(addr: Word): (r: seq<Word>)
    ensures |r| == 4 && forall i :: 0 <= i < 4 ==> r[i] < 512
  {
    var m: Word := (1 << 9) - 1;
    [(addr >> 39) & m, (addr >> 30) & m, (addr >> 21) & m, (addr >> 12) & m]
  }

  /** The indices and the offset are the address's low 48 bits, taken apart. */
  lemma IndicesReassemble(addr: Word)
    ensures var ix := TableIndices(addr);
      (ix[0] << 39) | (ix[1] << 30) | (ix[2] << 21) | (ix[3] << 12) | Offset(addr) == addr & 0xFFFF_FFFF_FFFF
  {
  }

  predicate IsPowerOfTwo(align: Word)
  {
    align != 0 && align & (align - 1) == 0
  }

  /** `align_down`: clears the bits below `align`. */
  function AlignDown(addr: Word, align: Word): (r: Word)
    requires IsPowerOfTwo(align)
    ensures r <= addr && r & (align - 1) == 0
    ensures addr - r < align
  {
    AlignDownBounds(addr, align);
    addr & !(align - 1)
  }

  lemma AlignDownBounds(addr: Word, align: Word)
    requires IsPowerOfTwo(align)
    ensures addr & !(align - 1) <= addr
    ensures addr - (addr & !(align - 1)) == addr & (align - 1)
    ensures addr & (align - 1) < align
  {
  }

  /** Whether `align_up` can round `addr` up without passing the top of the address space. */
  predicate AlignUpFits(addr: Word, align: Word)
    requires IsPowerOfTwo(align)
  {
    addr & (align - 1) == 0 || addr | (align - 1) != 0xFFFF_FFFF_FFFF_FFFF
  }

  /** `align_up`: unchanged when aligned, else the next multiple of `align`. */
  function AlignUp(addr: Word, align: Word): (r: Word)
    requires IsPowerOfTwo(align) && AlignUpFits(addr, align)
    ensures r & (align - 1) == 0
  {
    if addr & (align - 1) == 0 then addr else NextMultiple(addr, align)
  }

  /** `align_up` never moves down. */
  lemma AlignUpAbove(addr: Word, align: Word)
    requires IsPowerOfTwo(align) && AlignUpFits(addr, align)
    ensures addr <= AlignUp(addr, align)
  {
    if addr & (align - 1) == 0 {
      AlignedStays(addr, align);
    }
  }

  /** `align_up` moves up by less than one `align`. */
  lemma AlignUpClose(addr: Word, align: Word)
    requires IsPowerOfTwo(align) && AlignUpFits(addr, align)
    ensures AlignUp(addr, align) - addr < align
  {
    if addr & (align - 1) == 0 {
      AlignedStays(addr, align);
    }
  }

  lemma AlignedStays(addr: Word, align: Word)
    requires align != 0
    ensures addr <= addr && addr - addr < align
  {
  }

  /** The multiple of `align` above an unaligned `addr`: its low bits set, plus one. */
  function NextMultiple(addr: Word, align: Word): (r: Word)
    requires IsPowerOfTwo(align) && addr & (align - 1) != 0
    requires addr | (align - 1) != 0xFFFF_FFFF_FFFF_FFFF
    ensures addr <= r && r & (align - 1) == 0 && r - addr < align
  {
    UpIsMultiple(addr, align);
    UpAbove(addr, align);
    UpClose(addr, align);
    (addr | (align - 1)) + 1
  }

  lemma UpIsMultiple(addr: Word, align: Word)
    requires IsPowerOfTwo(align) && addr & (align - 1) != 0
    ensures ((addr | (align - 1)) + 1) & (align - 1) == 0
  {
  }

  lemma UpAbove(addr: Word, align: Word)
    requires IsPowerOfTwo(align) && addr & (align - 1) != 0
    requires addr | (align - 1) != 0xFFFF_FFFF_FFFF_FFFF
    ensures addr <= (addr | (align - 1)) + 1
  {
  }

  lemma UpClose(addr: Word, align: Word)
    requires IsPowerOfTwo(align) && addr & (align - 1) != 0
    requires addr | (align - 1) != 0xFFFF_FFFF_FFFF_FFFF
    ensures (addr | (align - 1)) + 1 - addr < align
  {
  }

  /** Rounding down and then up lands on the nearest multiples around `addr`. */
  lemma AlignAround(addr: Word, align: Word)
    requires IsPowerOfTwo(align) && AlignUpFits(addr, align)
    ensures AlignDown(addr, align) <= addr <= AlignUp(addr, align)
    ensures AlignDown(addr, align) == addr <==> addr & (align - 1) == 0
    ensures AlignUp(addr, align) == addr <==> addr & (align - 1) == 0
  {
    AlignUpAbove(addr, align);
  }
}
