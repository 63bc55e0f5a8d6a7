# Hyperion kernel core, modelled in Dafny

This project models the core of Hyperion, a small hobby operating-system kernel written in Rust.
Each Rust file is modelled by one Dafny module in one file. Pure code becomes datatypes, functions and lemmas. Code that updates state in place becomes classes whose methods carry `modifies` clauses, loop invariants and postconditions.

| module (file) | what it models |
|---|---|
| `Common` (`common.dfy`) | `Option`, `Result` and the bounded integer types shared by every module |
| `Ring` (`ring.dfy`) | the single-producer single-consumer ring buffer: its read and write indices, the slots it hands out and the element storage behind them |
| `Pipe` (`pipe.dfy`) | the point-to-point IPC channel: a bounded FIFO with a closed flag for each side |
| `Futex` (`futex.dfy`) | the futex wait queues: `wait`, `wake` and the cleanup after the switch |
| `Timer` (`timer.dfy`) | sleep wake-ups: the heap of sleeping tasks' deadlines, one woken per timer interrupt |
| `MinQueue` (`min_queue.dfy`) | the behaviour the kernel relies on from a `BinaryHeap` whose top is the earliest deadline |
| `FuturesMap` (`futures_map.dfy`) | one segment of the asynchronous hash map: buckets, lookup, insert and growth |
| `AtomicMaps` (`atomic_map.dfy`) | the lock-free map kept as a linked list, where the newest entry for a key wins |
| `SlabAlloc` (`slab_alloc.dfy`) | the global slab allocator's size classes, big allocations and counters |
| `SlabLocal` (`slab_local.dfy`) | the per-CPU caches: the fixed-capacity `StaticVec` and the `LocalSlab` built on it |
| `FrameAlloc` (`frame_alloc.dfy`) | the page frame allocator with copy-on-write reference counts |
| `Pmm` (`pmm.dfy`) | the bitmap page frame allocator |
| `Bitmaps` (`bitmap.dfy`) | the bitmap over a borrowed byte buffer, plain and atomic |
| `Rle` (`rle.dfy`) | the run-length encoded physical memory map |
| `Riscv64Vmm` (`riscv_vmm.dfy`) | RISC-V Sv48 address and page-table-entry encoding |
| `Acpi` (`acpi.dfy`) | ACPI table checksums, the structure unpacker and the table header |
| `Hpet` (`hpet.dfy`) | HPET comparator deadlines and the conversions between ticks and nanoseconds |
| `Interrupts` (`interrupts.dfy`) | the interrupt handler table and its vector allocation |
| `Devicetree` (`devicetree.dfy`) | the flattened devicetree reader, up to the usable physical memory map |
| `Tar` (`tar.dfy`) | the initial file system image read from a tar archive |
| `BootArgs` (`boot_args.dfy`) | the kernel command line |
| `Log` (`log.dfy`) | log verbosity levels, their names and their order |
| `Prefix` (`prefix.dfy`) | human-readable magnitudes with decimal and binary prefixes |
| `Buf` (`buf.dfy`) | splitting a user buffer at page boundaries |
| `CStdlib` (`cstdlib.dfy`) | `abs` and `atoi` of the user-space libc |
| `CString` (`cstring.dfy`) | the C string and memory routines of the user-space libc |
| `StaticStr` (`static_str.dfy`) | the fixed-size, zero-terminated string |
| `Color` (`color.dfy`) | RGB colours and their `#rrggbb` form |
| `EscapeDecode` (`escape_decode.dfy`) | the terminal's escape-sequence decoder |
| `Kshell` (`kshell_term.dfy`) | the kernel shell's text terminal |
| `MouseDecode` (`mouse_decode.dfy`) | the PS/2 mouse packet decoder |
| `Windowing` (`windowing.dfy`) | the line protocol between the window server and its clients |
| `SyscallErr` (`err.dfy`) | syscall error codes and their encoding in one register |
| `LibIo` (`libio.dfy`) | the user-space I/O traits, `BufReader` and `BufWriter` |
| `Paths` (`path.dfy`) | VFS paths and their resolution against a working directory |
| `VfsDevice` (`vfs_device.dfy`) | a byte slice used as a file device |
| `Ramdisk` (`ramdisk.dfy`) | the in-memory file system's files and directories |
| `VfsTree` (`tree.dfy`) | the VFS tree and walks along a path |

Machine-word arithmetic is written out where it matters. That covers wrapping counters, checksums modulo 256 and 64-bit addresses.
Interrupt state, the clock, the devices and the other side of a channel are parameters or fields set by the caller.
Atomics and locks are modelled one call at a time. A Rust panic, `assert` or `unwrap` on a bad input becomes a `requires`. An error return becomes a `Result` or `Option`.

## Model

| member | source | states |
|---|---|---|
| Acpi.Checksum | crates/driver-acpi/src/lib.rs:34-38 | the wrapping u8 fold of the bytes equals their plain sum modulo 256 |
| Acpi.ChecksumOfSlice | crates/driver-acpi/src/lib.rs:43-47 | folding the per-item checksums gives the checksum of all the items' bytes laid end to end |
| Acpi.SumConcat | crates/driver-acpi/src/lib.rs:43-47 | the byte sum splits over concatenation, which is why per-item checksums compose |
| Acpi.ChecksumAppend | crates/driver-acpi/src/lib.rs:37 | one more byte adds to the checksum with wrap-around |
| Acpi.Negated | crates/driver-acpi/src/lib.rs:120-122 | the byte that brings a checksum to zero exists for every checksum |
| Acpi.ChecksumCompletes | crates/driver-acpi/src/lib.rs:120-122 | appending the negated checksum makes any byte string pass the zero-checksum test |
| Acpi.ChecksumOfBytes | crates/driver-acpi/src/lib.rs:115-116 | `checksum_of_slice` over a byte slice is the checksum of those bytes |
| Acpi.DecodeHeader | crates/driver-acpi/src/lib.rs:65-76 | the packed 36-byte header yields fixed-width signature, OEM, table and creator identifiers |
| Acpi.OemOf | crates/driver-acpi/src/lib.rs:134-141 | the OEM is Bochs exactly when the id reads "BOCHS " up to its first zero byte; any other id is kept as is |
| Acpi.OemExamples | crates/driver-acpi/src/lib.rs:134-141 | "BOCHS " is Bochs, while "BOCHS" padded with a zero byte is not |
| Acpi.StructUnpacker.constructor | crates/driver-acpi/src/lib.rs:147-152 | the cursor starts at `first` with the end `bytes` further on |
| Acpi.StructUnpacker.Extend | crates/driver-acpi/src/lib.rs:164-166 | `extend` moves only the end forward |
| Acpi.StructUnpacker.Next | crates/driver-acpi/src/lib.rs:168-185 | reads `size` bytes at the cursor when they end within the limit (advancing only if `inc`), else returns None with the cursor unmoved |
| Acpi.StructUnpacker.Unpack | crates/driver-acpi/src/lib.rs:203-208 | like `next`, but a read past the end is InvalidStructure |
| Acpi.StructUnpacker.Skip | crates/driver-acpi/src/lib.rs:210-212 | the cursor moves forward by `n`, the end stays |
| Acpi.StructUnpacker.Backtrack | crates/driver-acpi/src/lib.rs:214-216 | the cursor moves back by `n`, the end stays |
| Acpi.StructUnpacker.Left | crates/driver-acpi/src/lib.rs:222-224 | the bytes left is the distance to the end, saturating at zero once past it |
| Acpi.ParseHeader | crates/driver-acpi/src/lib.rs:96-125 | `RawSdtHeader::parse` returns, and leaves the cursor and end, as the header parse function says |
| Acpi.CheckTable | crates/driver-acpi/src/lib.rs:114-124 | checksums the whole table, extends the cursor's end by the bytes after the header, and fails with InvalidChecksum on a non-zero sum |
| Acpi.ParseTable | crates/driver-acpi/src/lib.rs:114-124 | the last step of `parse`: Ok with the header exactly when the whole table sums to 0, InvalidChecksum otherwise; either way the limit is extended by the table's extra bytes |
| Acpi.ParseRejects | crates/driver-acpi/src/lib.rs:103-112 | a non-UTF-8 identifier or a wrong signature is reported with the cursor just past the header and the end unchanged |
| Acpi.ParseChecks | crates/driver-acpi/src/lib.rs:114-124 | a header that passes the identifier and signature checks goes on to the checksum over its full length |
| Acpi.ParseShortInput | crates/driver-acpi/src/lib.rs:100-101 | InvalidStructure with the cursor unmoved exactly when fewer than 36 bytes are left |
| Acpi.ParsedTableIsSound | crates/driver-acpi/src/lib.rs:96-125 | an accepted header is the decoded first 36 bytes, at least 36 bytes long, has the asked signature and a valid OEM id, and the table's bytes sum to zero |
| Acpi.TableAccepted | crates/driver-acpi/src/lib.rs:114-124 | when the checksum step accepts, it returns the header it was given and the table's checksum is zero |
| AtomicMaps.Find | crates/atomic-map/src/lib.rs:76-81 | the walk from the head finds nothing exactly when no node has the key |
| AtomicMaps.FindFirst | crates/atomic-map/src/lib.rs:76-81 | a value found belongs to the first node, from the head, with that key |
| AtomicMaps.AtomicMap.constructor | crates/atomic-map/src/lib.rs:33-38 | a new map has no nodes |
| AtomicMaps.AtomicMap.Insert | crates/atomic-map/src/lib.rs:48-72 | the new pair becomes the head, in front of every older node including ones with the same key, and the count grows by one |
| AtomicMaps.AtomicMap.Get | crates/atomic-map/src/lib.rs:76-81 | None exactly when no node has the key; otherwise the value of the newest node with it |
| AtomicMaps.AtomicMap.Len | crates/atomic-map/src/lib.rs:83-85 | the stored count is the number of nodes |
| AtomicMaps.AtomicMap.Iter | crates/atomic-map/src/lib.rs:87-103 | the iteration is empty exactly when `is_empty` holds |
| AtomicMaps.FindAfterInsert | crates/atomic-map/src/lib.rs:48-81 | after `insert`, `get` of that key gives the new value and every other key reads as before |
| Bitmaps.Bp | crates/bitmap/src/lib.rs:183-188 | bit `n` is bit `n % 8` of byte `n / 8`, with the one-bit mask of that position |
| Bitmaps.SetBit | crates/bitmap/src/lib.rs:48-60 | reset-then-or stores `v` in bit `bit` and keeps the byte's other seven bits |
| Bitmaps.OrMask | crates/bitmap/src/lib.rs:145-146 | `fetch_or(mask)` sets exactly the one bit |
| Bitmaps.AndNotMask | crates/bitmap/src/lib.rs:147-148 | `fetch_and(!mask)` clears exactly the one bit |
| Bitmaps.BitsOfUpdate | crates/bitmap/src/lib.rs:48-60 | replacing the byte that holds bit `n` by one that differs only there changes exactly bit `n` of the bitmap |
| Bitmaps.FillByteBits | crates/bitmap/src/lib.rs:36-38 | 0xFF has every bit set and 0 every bit clear |
| Bitmaps.ByteIndices | crates/bitmap/src/lib.rs:67-72 | the indices one byte contributes lie in that byte's range and ascend |
| Bitmaps.ByteIndicesMembers | crates/bitmap/src/lib.rs:67-72 | a byte lists exactly the positions whose bit equals the wanted value |
| Bitmaps.Indices | crates/bitmap/src/lib.rs:62-86 | every listed index is inside the bitmap |
| Bitmaps.IndicesCorrect | crates/bitmap/src/lib.rs:62-86 | the index list ascends, and an index is listed exactly when it is in range and its bit has the wanted value (skipping uniform bytes loses nothing) |
| Bitmaps.IndicesIncreasing | crates/bitmap/src/lib.rs:62-86 | the byte-by-byte index list ascends |
| Bitmaps.IndicesMembers | crates/bitmap/src/lib.rs:62-86 | an index is listed exactly when its bit has the wanted value |
| Bitmaps.BitsOfSplit | crates/bitmap/src/lib.rs:88-91 | the bits of a buffer are the bits of all bytes but the last, then the last byte's eight bits |
| Bitmaps.Bitmap.constructor | crates/bitmap/src/lib.rs:15-19 | wraps the given buffer |
| Bitmaps.Bitmap.Len | crates/bitmap/src/lib.rs:21-24 | the length is the number of bits, 8 per byte |
| Bitmaps.Bitmap.Fill | crates/bitmap/src/lib.rs:36-38 | every bit becomes `val` |
| Bitmaps.Bitmap.Get | crates/bitmap/src/lib.rs:40-46 | None exactly past the end; otherwise bit `n` |
| Bitmaps.Bitmap.Set | crates/bitmap/src/lib.rs:48-60 | None and no change exactly past the end; otherwise bit `n` becomes `val` and no other bit changes, so `get(n)` then reads `val` and `get` of every other index reads what it read before |
| Bitmaps.Bitmap.IterTrue | crates/bitmap/src/lib.rs:62-73 | ascending, and lists exactly the set bits |
| Bitmaps.Bitmap.IterFalse | crates/bitmap/src/lib.rs:75-86 | ascending, and lists exactly the clear bits |
| Bitmaps.IterTrueExample | crates/bitmap/src/lib.rs:200-217 | the source's test: setting bits 5, 7, 9, 53 and 79 of ten zero bytes sets exactly those bits, and setting bit 89 is refused |
| Bitmaps.SwapBits | crates/bitmap/src/lib.rs:154-166 | the old byte's masked bit is bit `n`, and the or/and-not update stores `val` in bit `n` only |
| Bitmaps.AtomicBitmap.constructor | crates/bitmap/src/lib.rs:104-108 | wraps the given buffer |
| Bitmaps.AtomicBitmap.Len | crates/bitmap/src/lib.rs:115-118 | 8 bits per byte |
| Bitmaps.AtomicBitmap.Fill | crates/bitmap/src/lib.rs:125-130 | every bit becomes `val` |
| Bitmaps.AtomicBitmap.Load | crates/bitmap/src/lib.rs:132-138 | None exactly past the end; otherwise bit `n` |
| Bitmaps.AtomicBitmap.Store | crates/bitmap/src/lib.rs:140-152 | None and no change exactly past the end; otherwise bit `n` becomes `val`, nothing else changes |
| Bitmaps.AtomicBitmap.Swap | crates/bitmap/src/lib.rs:154-166 | None exactly past the end; otherwise returns the previous bit `n` and stores `val` there, nothing else changes |
| BootArgs.FirstSep | crates/boot/src/args.rs:26-46 | the split point is the first separator, with none before it; None exactly when the string has no separator |
| BootArgs.Split | crates/boot/src/args.rs:26-45 | `str::split` never yields an empty list of pieces |
| BootArgs.JoinSplit | crates/boot/src/args.rs:45 | the pieces of a split, joined with the separator, give the string back, so no character is lost |
| BootArgs.SplitNoSep | crates/boot/src/args.rs:26 | a string without separators is a single piece |
| BootArgs.SplitAt | crates/boot/src/args.rs:26-45 | a string splits at its first separator into that piece followed by the pieces of the rest |
| BootArgs.FirstSepAt | crates/boot/src/args.rs:34 | the first separator is found right after a prefix without one |
| BootArgs.SplitOnceAt | crates/boot/src/args.rs:33-36 | `split_once('=')` splits at the first `=`, leaving later ones in the value |
| BootArgs.LogValue | crates/boot/src/args.rs:45-69 | one `log=` value keeps the command line and never clears the unrecognised flag |
| BootArgs.LogValues | crates/boot/src/args.rs:45-69 | the values applied in order keep the command line and never clear the unrecognised flag |
| BootArgs.Item | crates/boot/src/args.rs:32-72 | one item keeps the command line and never clears the unrecognised flag |
| BootArgs.Items | crates/boot/src/args.rs:32-73 | the items applied in order keep the command line and never clear the unrecognised flag |
| BootArgs.ApplyLogValues | crates/boot/src/args.rs:45-69 | the inner loop applies each comma-separated value in order |
| BootArgs.ApplyLogValue | crates/boot/src/args.rs:46-68 | one value: `serial=`/`video=` with a known level sets that device, a bare known level sets both, anything else only sets the unrecognised flag |
| BootArgs.Parse | crates/boot/src/args.rs:25-76 | `Arguments::parse` applies the whitespace-separated items in order to the defaults and keeps the command line |
| BootArgs.NameIsPlain | crates/log/src/lib.rs:102-114 | no level name holds white space, a comma or `=` |
| BootArgs.NoSepJoin | crates/boot/src/args.rs:26 | joining separator-free pieces with a non-separator gives a separator-free string |
| BootArgs.ParsedOneItem | crates/boot/src/args.rs:26-32 | a command line without white space is a single item |
| BootArgs.LogItem | crates/boot/src/args.rs:33-45 | `log=VALUES` applies the comma-separated values |
| BootArgs.OneValue | crates/boot/src/args.rs:45 | a value list without a comma is one value |
| BootArgs.TwoValues | crates/boot/src/args.rs:45 | `V1,V2` applies V1 then V2 |
| BootArgs.LevelValue | crates/boot/src/args.rs:61-67 | a bare level name sets both devices to that level |
| BootArgs.LogSetsBoth | crates/boot/src/args.rs:25-76 | `log=LEVEL` gives both devices that level, with nothing unrecognised |
| BootArgs.DeviceValue | crates/boot/src/args.rs:46-60 | `serial=LEVEL` or `video=LEVEL` sets only that device |
| BootArgs.DeviceValuePlain | crates/boot/src/args.rs:46 | a `DEVICE=LEVEL` value holds no white space or comma |
| BootArgs.LogPerDevice | crates/boot/src/args.rs:25-76 | `log=serial=L1,video=L2` sets each device to its own level, with nothing unrecognised |
| BootArgs.TwoDevices | crates/boot/src/args.rs:46-60 | the two device values together set both devices independently |
| BootArgs.TwoValueLine | crates/boot/src/args.rs:25-76 | a line `log=V1,V2` is V1 then V2 applied to the defaults |
| BootArgs.TwoPlainValues | crates/boot/src/args.rs:26 | `log=V1,V2` is one item when the values hold no white space |
| BootArgs.UnknownKey | crates/boot/src/args.rs:71 | an item whose key is not `log` only sets the unrecognised flag |
| BootArgs.LogWithoutValue | crates/boot/src/args.rs:40-43 | `log` without `=` only sets the unrecognised flag |
| BootArgs.UnknownDeviceOrLevel | crates/boot/src/args.rs:47-58 | an unknown device or level in `DEVICE=LEVEL` only sets the unrecognised flag |
| BootArgs.UnknownLevel | crates/boot/src/args.rs:62-65 | an unknown bare level only sets the unrecognised flag |
| BootArgs.EmptyItemIsUnrecognized | crates/boot/src/args.rs:26-71 | an empty command line is one empty item, which is unrecognised |
| BootArgs.UnrecognizedSticks | crates/boot/src/args.rs:32-76 | one unrecognised item anywhere leaves the flag set at the end |
| BootArgs.StickyFrom | crates/boot/src/args.rs:32-76 | the unrecognised flag, once set by an item, stays set after every later item |
| Buf.AlignDown | crates/mem/src/buf.rs:218-220 | the largest page boundary at or below the address |
| Buf.AlignUp | crates/mem/src/buf.rs:217-221 | the smallest page boundary at or above the address; an aligned address is kept |
| Buf.Buffer.IsEmpty | crates/mem/src/buf.rs:115-117 | `is_empty`: the buffer holds no elements |
| Buf.RangeInfoAsWritten | crates/mem/src/buf.rs:213-241 | the outer bounds enclose the inner ones, the page counts are the spans over 4096, the last partial page runs from the inner end, and (as written) the first partial page size runs from `beg` to the inner END |
| Buf.RangeInfo | crates/mem/src/buf.rs:213-241 | with the first partial page measured to the inner start, each partial size is zero exactly when its end of the range is aligned, and the pages touched are the full pages plus one per unaligned end |
| Buf.FullPages | crates/mem/src/buf.rs:259-262 | the `i`-th full page is the 4096 bytes from `base + i * 4096` |
| Buf.PageSplitEmptyPiece | crates/mem/src/buf.rs:223-257 | as written, an aligned two-page range yields an empty first piece, so the pieces outnumber the pages |
| Buf.TilesConcat | crates/mem/src/buf.rs:256-263 | pieces that tile adjacent ranges tile their union when chained |
| Buf.FullPagesTile | crates/mem/src/buf.rs:259-262 | the full pages tile their span with whole pages |
| Buf.AlignedMultiple | crates/mem/src/buf.rs:260 | a full page start is page aligned |
| Buf.PageSplitCorrect | crates/mem/src/buf.rs:244-264 | the corrected split yields non-empty pieces within one page each, in order, covering exactly the range, as many as the pages it touches |
| Buf.PageSplit | crates/mem/src/buf.rs:244-264 | `page_split_iterator` with the corrected first-page size; `PageSplitCorrect` shows its pieces are non-empty, within one page each, and tile the range |
| Buf.StepStalls | crates/mem/src/buf.rs:180-189 | as written, `next` from a page-aligned start does not move |
| Buf.Step | crates/mem/src/buf.rs:186 | the corrected step moves forward, at most one page, to the next page boundary or the end |
| Buf.StepAsWritten | crates/mem/src/buf.rs:180-189 | `next` as written: from a page-aligned start it does not move (it stays at the start, or at the end when that is below it); from any other start below the end it takes the corrected step |
| Buf.PageSplitAsWritten | crates/mem/src/buf.rs:223-257 | `page_split_iterator` as written: from a page-aligned start below the last page boundary it yields one empty piece and then exactly the corrected pieces; in every other case exactly the corrected pieces |
| Buf.PageIter.constructor | crates/mem/src/buf.rs:170-175 | the iterator holds the range to walk |
| Buf.PageIter.NextAsWritten | crates/mem/src/buf.rs:180-189 | `next` as written: None at the end, otherwise the piece up to the aligned-up start capped at the end |
| Buf.PageIter.Next | crates/mem/src/buf.rs:180-189 | the corrected `next`: None at the end, otherwise a non-empty piece within one page, and the rest shrinks |
| Buf.Drain | crates/mem/src/buf.rs:177-189 | running the corrected iterator to the end yields non-empty one-page pieces that tile the range |
| Color.ParseHexChar | crates/color/src/lib.rs:48-54 | '0'..='9' and 'a'..='f' map to 0..15; any other byte is returned unchanged |
| Color.BitOrBound | crates/color/src/lib.rs:57 | the or of two values below 2^k is below 2^k (so the or of two bytes is a byte) |
| Color.BitOrDisjoint | crates/color/src/lib.rs:57 | or-ing a value below 2^k with a multiple of 2^k is their sum |
| Color.HexDigit | crates/color/src/lib.rs:48-54 | a digit 0..15 written as a lower-case hex character |
| Color.ParseHexDigit | crates/color/src/lib.rs:48-54 | parsing a lower-case hex digit gives its value back |
| Color.ParseByteDigits | crates/color/src/lib.rs:56-58 | `parse_byte` reads its FIRST character as the low nibble and the second as the high nibble |
| Color.ParseByte | crates/color/src/lib.rs:56-58 | `parse_byte` on `u8`: when the first character parses to a nibble, the byte is that nibble plus 16 times the low four bits of the second character's value (the shift drops the rest) |
| Color.ShiftedNibbleOr | crates/color/src/lib.rs:57 | or-ing a nibble with a value shifted left by four and cut to a byte is the nibble plus 16 times the value's low nibble |
| Color.NibblesOr | crates/color/src/lib.rs:57 | the or of a low nibble and a shifted nibble is `lo + 16 * hi` |
| Color.FromHexBytes | crates/color/src/lib.rs:35-45 | Some exactly for 6 or 8 bytes, or 7 or 9 starting with '#'; the colour comes from the six characters after the optional '#' |
| Color.FromHexBytes2 | crates/color/src/lib.rs:47-65 | `from_hex_bytes_2`: each channel is `parse_byte` of its two characters; with `FromHexBytes2Swaps` it is pinned down on every lower-case colour |
| Color.SwapNibbles | crates/color/src/lib.rs:56-58 | exchanging the two nibbles of a byte: the high nibble of the result is the low nibble of the input and the other way round |
| Color.FromHexBytes2Swaps | crates/color/src/lib.rs:47-65 | as written, every colour written as lower-case "rrggbb" parses back with the two digits of each channel exchanged |
| Color.AsU32 | crates/color/src/lib.rs:67-70 | the packed value is below 2^24 and holds blue in its low byte, green in the next and red in the third |
| Color.FromU32 | crates/color/src/lib.rs:26-29 | r, g and b are the native-endian (little-endian) bytes 0, 1 and 2 |
| Color.FromAsU32 | crates/color/src/lib.rs:26-29 | `from_u32(as_u32(c))` swaps red and blue |
| Color.NibbleOrderCounterexample | crates/color/src/lib.rs:56-58 | as written, "#141414" parses to 0x41 per channel |
| Color.UpperCaseCounterexample | crates/color/src/lib.rs:48-54 | as written, "#00FFFF" parses to green and blue 0x66 |
| Color.OrOfUpperF | crates/color/src/lib.rs:56-58 | 'F' kept as the byte 0x46, or-ed with itself shifted, gives 0x66 |
| Color.FromHexBytesIntended | crates/color/src/lib.rs:35-58 | the corrected parser: accepts only the lengths and '#' prefix of the source, reads the first digit as the high nibble and both letter cases |
| Color.ToHex | crates/color/src/lib.rs:35-45 | "#" followed by six hex digits |
| Color.PairOfDigits | crates/color/src/lib.rs:56-58 | the corrected pair parser reads back a byte written as two digits |
| Color.IntendedRoundTrip | crates/color/src/lib.rs:35-65 | the corrected parser reads back every colour written as "#rrggbb" |
| Color.IntendedExamples | crates/color/src/lib.rs:35-65 | the corrected parser gives 0x14 per channel for "#141414" and cyan for "#00FFFF" |
| CStdlib.Abs | crates/syscall/src/libc/cstdlib.rs:10-13 | `n.abs()` on a 32-bit int: the magnitude, except that i32::MIN stays i32::MIN (wrapping, as in a release build) |
| CStdlib.Wrap32 | crates/syscall/src/libc/cstdlib.rs:37 | the `c_int` a mathematical integer wraps to: in range, unchanged on values that fit, and differs by a multiple of 2^32 |
| CStdlib.WrapShift | crates/syscall/src/libc/cstdlib.rs:37 | adding any multiple of 2^32 does not change the wrapped value |
| CStdlib.WrapStep | crates/syscall/src/libc/cstdlib.rs:37 | wrapping after every `10 * res + digit` step gives what wrapping the exact value gives |
| CStdlib.WrapNeg | crates/syscall/src/libc/cstdlib.rs:40-44 | the final negation wraps like the steps before it |
| CStdlib.SpaceRun | crates/syscall/src/libc/cstdlib.rs:17-19 | the length of the leading run of whitespace |
| CStdlib.DigitRun | crates/syscall/src/libc/cstdlib.rs:36 | the length of the leading run of digits |
| CStdlib.ValueStep | crates/syscall/src/libc/cstdlib.rs:36-38 | one more digit multiplies the value by ten and adds the digit |
| CStdlib.ValuePrefix | crates/syscall/src/libc/cstdlib.rs:36-38 | a prefix of the digits never has a larger value |
| CStdlib.DigitsStart | crates/syscall/src/libc/cstdlib.rs:17-33 | digits start after the whitespace (and the sign, when there is one) |
| CStdlib.Parts | crates/syscall/src/libc/cstdlib.rs:17-38 | the sign and the run of digits that follows it |
| CStdlib.Atoi | crates/syscall/src/libc/cstdlib.rs:15-44 | skips whitespace, takes an optional sign and the digits after it, and returns their signed value reduced to a 32-bit `c_int` (wrapping, as in a release build); a value that fits comes back exactly |
| CStdlib.SignedStart | crates/syscall/src/libc/cstdlib.rs:17-33 | the loop over whitespace and the sign check end at the first digit position, and report the sign |
| CStdlib.NegatedDigits | crates/syscall/src/libc/cstdlib.rs:35-38 | accumulates the negated value in wrapping 32-bit arithmetic, so -2^31 fits exactly and anything larger wraps as the whole value would |
| CStdlib.DigitsAt | crates/syscall/src/libc/cstdlib.rs:36 | the digit run sits at the digit start and ends at a non-digit (the terminator at the latest) |
| CStdlib.AtoiExamplesSpaces | crates/syscall/src/libc/cstdlib.rs:68-74 | "" gives 0 and "  654  " gives 654 |
| CStdlib.AtoiExampleLetter | crates/syscall/src/libc/cstdlib.rs:75 | " 3d" gives 3 |
| CStdlib.AtoiExamplesSigned | crates/syscall/src/libc/cstdlib.rs:76-78 | "-3d" gives -3, "+3d" gives 3 and "a-3d" gives 0 |
| CString.StrLen | crates/syscall/src/libc/cstring.rs:94-102 | the index of the first NUL: every byte before it is nonzero |
| CString.CIter | crates/syscall/src/libc/cstring.rs:94-102 | `c_str_iter` yields the characters before the first NUL, then exactly one NUL |
| CString.AsciiLower | crates/syscall/src/libc/cstring.rs:60-61 | 'A'..='Z' move up by 0x20, every other byte is unchanged |
| CString.Strncmp | crates/syscall/src/libc/cstring.rs:10-26 | 0 exactly when the first min(num, …) characters (terminators included) agree; otherwise the signed `c_char` difference at the first mismatch |
| CString.Strcmp | crates/syscall/src/libc/cstring.rs:5-8 | 0 exactly when the two strings, terminators included, are equal; otherwise the difference of the signed `c_char`s at the first position where they differ, all earlier bytes being equal |
| CString.Strncasecmp | crates/syscall/src/libc/cstring.rs:50-69 | as `strncmp` on ASCII-lower-cased bytes; `num == 0` gives 0 |
| CString.StrncmpExamples | crates/syscall/src/libc/cstring.rs:37-38 | the source's tests: "a" against "a" gives 0, and "a" against "a1" is negative |
| CString.StrncasecmpExamples | crates/syscall/src/libc/cstring.rs:87 | the source's test: "teSt" against "tEsT" over 4 characters gives 0 |
| CString.Strchr | crates/syscall/src/libc/cstring.rs:104-115 | the first position of the character (as `c_char`), the terminator included; null exactly when it does not occur; NUL finds the terminator |
| CString.Strncpy | crates/syscall/src/libc/cstring.rs:122-140 | copies up to the NUL or `num` bytes, zero-fills the rest of the `num` bytes and writes nothing past them |
| CString.Strnlen | crates/syscall/src/libc/cstring.rs:147-150 | min(size, length of the string) |
| CString.Strlen | crates/syscall/src/libc/cstring.rs:142-145 | the length of the string |
| CString.Memcmp | crates/syscall/src/libc/cstring.rs:198-218 | 0 exactly when the first `count` bytes agree; otherwise the byte difference at the first mismatch |
| CString.Memcpy | crates/syscall/src/libc/cstring.rs:183-196 | the first `count` bytes of `dest` become those of `src`, the rest unchanged |
| CString.Memmove | crates/syscall/src/libc/cstring.rs:220-241 | within one buffer, the destination range receives the old source range even when they overlap; nothing outside it changes |
| CString.Memset | crates/syscall/src/libc/cstring.rs:243-251 | exactly the first `count` bytes become `ch as u8` |
| Devicetree.BeValue | crates/devicetree/src/lib.rs:518-531 | the big-endian value of n bytes is below 256^n |
| Devicetree.BeRoundTrip | crates/devicetree/src/lib.rs:518-531 | decoding the n big-endian bytes of any value below 256^n gives the value back |
| Devicetree.BeBytesOfValue | crates/devicetree/src/lib.rs:518-531 | re-encoding a decoded byte string in the same width gives the bytes back, so decoding is injective per width |
| Devicetree.BeToInt | crates/devicetree/src/lib.rs:518-531 | `be_to_int` succeeds exactly when the slice is at most 8 bytes (the usize size), and then returns its big-endian value, which fits a usize; longer slices hit the `todo!` |
| Devicetree.HeaderRoundTrip | crates/devicetree/src/lib.rs:14-45 | reading the header back from ten big-endian u32 fields gives every field back, whatever follows them |
| Devicetree.ReadHeader | crates/devicetree/src/lib.rs:31-45 | `FdtHeader::read`: field i is the big-endian u32 at bytes 4i..4i+4, so every field fits in 32 bits; HeaderRoundTrip reads back any header written as ten words |
| Devicetree.Read | crates/devicetree/src/lib.rs:151-160 | `Fdt::read` succeeds only with the magic 0xd00dfeed in the header and keeps the blob; it fails only on a short blob or a wrong magic |
| Devicetree.ReadChecksMagic | crates/devicetree/src/lib.rs:151-160 | on a blob holding a header, reading succeeds exactly when its first four bytes are d0 0d fe ed |
| Devicetree.ReservedFrom | crates/devicetree/src/lib.rs:162-180 | walking the memory reservation block fails only by running past the blob |
| Devicetree.ReservedFromShape | crates/devicetree/src/lib.rs:162-180 | a successful walk returns the (address, size) entries read at 16-byte steps, none of them (0, 0), up to the first (0, 0) entry |
| Devicetree.ShapeReservedFrom | crates/devicetree/src/lib.rs:162-180 | every list of non-terminating entries followed by a (0, 0) entry is exactly what the walk returns |
| Devicetree.ReserveMapShape | crates/devicetree/src/lib.rs:162-180 | the walk returns a list exactly when the blob holds that list followed by the (0, 0) terminator (both directions) |
| Devicetree.Align4 | crates/devicetree/src/lib.rs:546-548 | `align` moves an offset to the next multiple of four, by less than four bytes |
| Devicetree.CStrEnd | crates/devicetree/src/lib.rs:539-544 | the end of a C string is a zero byte at or after its start, inside the blob |
| Devicetree.CStrEndFirst | crates/devicetree/src/lib.rs:539-544 | that zero byte is the first one after the start; when there is none, no byte after the start is zero |
| Devicetree.NameOf | crates/devicetree/src/lib.rs:480-495 | a name that is valid UTF-8 is kept as it is (otherwise it becomes `<invalid-utf8>`) |
| Devicetree.Decode | crates/devicetree/src/lib.rs:473-508 | reading one token moves at least one word forward, keeps the cursor word aligned, and an unrecognised code (NOP and END included) ends the stream after one word |
| Devicetree.TokenCodes | crates/devicetree/src/lib.rs:473-508 | code 2 is exactly an EndNode token; a code other than 1, 2 and 3 exactly ends the stream; NOP (4) and END (9) both end it |
| Devicetree.BeginNodeLayout | crates/devicetree/src/lib.rs:480-487 | a BeginNode code followed by a zero-terminated UTF-8 name decodes to that name, with the cursor aligned after the terminator |
| Devicetree.PropLayout | crates/devicetree/src/lib.rs:489-505 | a Prop code, length and name offset followed by the value decode to the name read from the strings block and exactly that value, with the cursor aligned after it |
| Devicetree.PropWords | crates/devicetree/src/lib.rs:489-505 | the same, stated on the decoded words of the token instead of their bytes |
| Devicetree.Skip | crates/devicetree/src/lib.rs:258-268 | skipping a node, when it ends, ends strictly after where it started |
| Devicetree.SkipNested | crates/devicetree/src/lib.rs:258-268 | skipping to depth n + d is skipping to depth n and then d more levels, which is how nested `skip_node` calls compose |
| Devicetree.SkipOverBegin | crates/devicetree/src/lib.rs:258-268 | a BeginNode token raises the depth still to skip by one |
| Devicetree.FromProp | crates/devicetree/src/lib.rs:118-136 | `Property::from_prop` panics exactly on a text property that is not UTF-8 or a cell property that is not 4 bytes; `#address-cells` and `#size-cells` give their big-endian u32 value; any other name is kept as raw bytes |
| Devicetree.RegRoundTrip | crates/devicetree/src/lib.rs:403-420 | splitting the encoding of a list of (address, size) pairs, with 0 to 2 cells each, gives the list back |
| Devicetree.RegEncodes | crates/devicetree/src/lib.rs:403-420 | a `reg` value that splits without a panic is exactly the encoding of the pairs it splits into |
| Devicetree.RegPairsCons | crates/devicetree/src/lib.rs:403-420 | each step of the split takes `address_cells` words of address and `size_cells` words of size from the front |
| Devicetree.DefaultCellsReg | crates/devicetree/src/lib.rs:330-331 | with the default 2 address cells and 1 size cell, a 12-byte `reg` is one pair of an 8-byte address and a 4-byte size |
| Devicetree.SplitReg | crates/devicetree/src/lib.rs:403-420 | the splitting loop returns the pairs of the `reg` specification, or its panic (a short `split_at`, an over-wide integer) or its endless loop with zero cells |
| Devicetree.RegNode | crates/devicetree/src/lib.rs:428-460 | a walk over a memory node, when it ends, ends after where it started |
| Devicetree.RegNodeReportsRegs | crates/devicetree/src/lib.rs:428-460 | a node holding one `reg` property and then its end reports exactly the pairs of that `reg` |
| Devicetree.RootMemory | crates/devicetree/src/lib.rs:329-350 | the walk over the root for memory nodes, when it ends, ends after where it started |
| Devicetree.ReservedMemory | crates/devicetree/src/lib.rs:368-388 | the walk over `/reserved-memory`, when it ends, ends after where it started |
| Devicetree.RootReserved | crates/devicetree/src/lib.rs:352-366 | the walk over the root for `/reserved-memory`, when it ends, ends after where it started |
| Devicetree.PrintWalk | crates/devicetree/src/lib.rs:234-254 | the tree printer, when it ends, ends after where it started |
| Devicetree.StructureParser.FromRaw | crates/devicetree/src/lib.rs:462-467 | a parser over the blob starts at the structure block with the strings block given |
| Devicetree.StructureParser.Clone | crates/devicetree/src/lib.rs:227-231 | a clone is a new parser at the same position over the same blob |
| Devicetree.StructureParser.NextToken | crates/devicetree/src/lib.rs:533-537 | reads the big-endian word at the cursor and moves past it; past the end of the blob nothing is read |
| Devicetree.StructureParser.NextCStr | crates/devicetree/src/lib.rs:539-544 | reads the bytes up to the next zero and moves the cursor to the aligned offset after it |
| Devicetree.StructureParser.NextBeginNode | crates/devicetree/src/lib.rs:480-487 | reads a node name exactly as the token specification decodes it |
| Devicetree.StructureParser.NextProp | crates/devicetree/src/lib.rs:489-505 | reads a property exactly as the token specification decodes it |
| Devicetree.StructureParser.Next | crates/devicetree/src/lib.rs:473-508 | the iterator returns the token and new cursor of the token specification, and fails only on a read past the blob |
| Devicetree.StructureParser.SkipNode | crates/devicetree/src/lib.rs:258-268 | the depth-counting loop ends where the skip specification does, or with its fault |
| Devicetree.StructureParser.ParseRegNode | crates/devicetree/src/lib.rs:428-460 | `parse_memory` and `parse_reserved_memory_entry` report the pairs of every `reg` property up to the node's end, as the walk specification says |
| Devicetree.StructureParser.ParseRootMemory | crates/devicetree/src/lib.rs:329-350 | `parse_root_memory` reports the regions of every `memory@` node under the root, tracking `#address-cells`/`#size-cells` from default 2 and 1 |
| Devicetree.StructureParser.ParseReservedMemory | crates/devicetree/src/lib.rs:368-388 | `parse_reserved_memory` reports the `reg` pairs of every child node with the cell counts the node sets |
| Devicetree.StructureParser.ParseRootReservedMemory | crates/devicetree/src/lib.rs:352-366 | `parse_root_reserved_memory` reports the regions under every `reserved-memory` node of the root and skips every other node |
| Devicetree.StructureParser.PrintTree | crates/devicetree/src/lib.rs:234-254 | the printer consumes the tokens of the tree as the walk specification says (its output is not modelled) |
| Devicetree.CoversAppend | crates/devicetree/src/lib.rs:183-224 | an address is covered by two region lists together exactly when one of them covers it |
| Devicetree.InsertStep | crates/devicetree/src/lib.rs:197-204 | inserting one memory region as usable extends the usable set by exactly that region; an empty region changes nothing |
| Devicetree.RemoveStep | crates/devicetree/src/lib.rs:205-221 | removing one region extends the reserved set by exactly that region; an empty region changes nothing |
| Devicetree.InsertAll | crates/devicetree/src/lib.rs:197-204 | after inserting every memory region, an address is usable exactly when some region covers it |
| Devicetree.RemoveAll | crates/devicetree/src/lib.rs:205-212 | after removing every reserved-memory region, an address is usable exactly when it was and no removed region covers it |
| Devicetree.RemoveReserveMap | crates/devicetree/src/lib.rs:214-221 | removing the reserve-map entries succeeds exactly when the reservation block reads, and then leaves usable only what no entry covers |
| Devicetree.StructureRegions | crates/devicetree/src/lib.rs:183-212 | prints the tree, requires the root node named "", and returns the memory and reserved-memory regions of the memory layout specification, or its fault |
| Devicetree.UsableMemory | crates/devicetree/src/lib.rs:183-224 | `usable_memory` fails exactly when the layout cannot be read; otherwise an address is usable exactly when a memory node covers it and neither a reserved-memory node nor a reserve-map entry does |
| SyscallErr.AsIsize | crates/syscall/src/err.rs:56 | `as isize` keeps the value modulo 2^64 and lands in the signed range |
| SyscallErr.AsUsize | crates/syscall/src/err.rs:68 | `as usize` is the inverse of `as isize` |
| SyscallErr.NegIsize | crates/syscall/src/err.rs:56 | wrapping negation: the negative for every value but isize::MIN, which stays in range |
| SyscallErr.Decode | crates/syscall/src/err.rs:55-63 | an error exactly when the word is above isize::MAX + 1 (its negation is positive), with code 2^64 - word; otherwise the word itself |
| SyscallErr.Encode | crates/syscall/src/err.rs:65-70 | Ok(v) encodes as v; an error encodes as the two's-complement negative of its code |
| SyscallErr.ErrRoundTrip | crates/syscall/src/err.rs:55-70 | decoding an encoded error with code in 1..=isize::MAX gives the error back |
| SyscallErr.OkRoundTrip | crates/syscall/src/err.rs:55-70 | decoding an encoded Ok(v) gives Ok(v) back exactly when v ≤ isize::MAX + 1 |
| SyscallErr.AsStr | crates/syscall/src/err.rs:10-52 | "unknown error" exactly for codes outside 1..=17 |
| SyscallErr.AsStrInjective | crates/syscall/src/err.rs:30-49 | the seventeen known codes have seventeen different names |
| EscapeDecode.Pad | src/term/escape/decode.rs:88-91 | the buffer `clear` hands over is the buffered bytes followed by zeros, 19 bytes in all |
| EscapeDecode.ParseU8 | src/term/escape/decode.rs:95-97 | a colour component parses only from a non-empty piece |
| EscapeDecode.Split | src/term/escape/decode.rs:94 | splitting at ';' always yields at least one piece |
| EscapeDecode.ColorAfterPrefix | src/term/escape/decode.rs:58-63 | once the whole fixed prefix matches, only the bytes after it decide the colour |
| EscapeDecode.ColorAfterDiffers | src/term/escape/decode.rs:58-63 | a sequence that differs from the prefix at some byte does not match that arm |
| EscapeDecode.Step | src/term/escape/decode.rs:35-86 | `next` never buffers more than 18 bytes, and it either buffers the byte and yields None, or empties the buffer and yields a part |
| EscapeDecode.Nothings | src/term/escape/decode.rs:22 | `n` parts that are all None |
| EscapeDecode.NothingsCons | src/term/escape/decode.rs:22 | one more None in front is one more None |
| EscapeDecode.NothingsConcat | src/term/escape/decode.rs:22 | runs of None join |
| EscapeDecode.Feed | src/term/escape/decode.rs:35-86 | feeding bytes one by one yields one part per byte and keeps the buffer within bounds |
| EscapeDecode.FeedFirst | src/term/escape/decode.rs:35-86 | feeding starts with one `next` on the first byte |
| EscapeDecode.FeedOne | src/term/escape/decode.rs:35-86 | feeding one byte is one `next` |
| EscapeDecode.FeedConcat | src/term/escape/decode.rs:35-86 | feeding two chunks in turn is feeding them together |
| EscapeDecode.FeedThen | src/term/escape/decode.rs:35-86 | feeding continues from where the first chunk left the decoder |
| EscapeDecode.FeedLast | src/term/escape/decode.rs:35-86 | the last byte is one more `next` after the others |
| EscapeDecode.IdleByte | src/term/escape/decode.rs:42 | outside a sequence every byte but ESC passes straight through |
| EscapeDecode.FeedBuffered | src/term/escape/decode.rs:80-84 | after ESC [, bytes other than 'm' are only buffered while there is room |
| EscapeDecode.AvoidsConcat | src/term/escape/decode.rs:48 | two byte strings without 'm' joined have no 'm' |
| EscapeDecode.Decimal | src/term/escape/decode.rs:95-97 | a component written in decimal has one to three digits |
| EscapeDecode.ParseDecimal | src/term/escape/decode.rs:95-97 | every u8 written in decimal parses back to itself |
| EscapeDecode.SplitConcat | src/term/escape/decode.rs:94 | a piece without ';' followed by ';' splits off as the first piece |
| EscapeDecode.SplitNone | src/term/escape/decode.rs:94 | bytes without ';' are a single piece |
| EscapeDecode.ParseRgbPart | src/term/escape/decode.rs:93-99 | "r;g;b" in decimal parses back to the colour |
| EscapeDecode.RecogniseColor | src/term/escape/decode.rs:57-66 | a complete foreground or background sequence is recognised as the colour it carries |
| EscapeDecode.MiddleAvoidsM | src/term/escape/decode.rs:48 | no byte between ESC [ and the end of a colour sequence is an 'm' |
| EscapeDecode.ColorSequenceShape | src/term/escape/decode.rs:104-105 | a colour sequence starts with ESC [, ends with its only 'm' and fits the 19-byte buffer |
| EscapeDecode.FeedAfterEsc | src/term/escape/decode.rs:43-84 | after ESC the rest of a started sequence is buffered |
| EscapeDecode.FeedEsc | src/term/escape/decode.rs:37-41 | an ESC from the idle state is buffered and yields None |
| EscapeDecode.FeedStarted | src/term/escape/decode.rs:35-86 | a started sequence without 'm' that fits is buffered whole, yielding None for each byte |
| EscapeDecode.FeedCompleted | src/term/escape/decode.rs:48-74 | a sequence ending in its only 'm' yields None for every byte but the last, which yields its decoding, and the decoder is idle again |
| EscapeDecode.FeedStartedThenM | src/term/escape/decode.rs:48-74 | a buffered sequence completed by 'm' decodes and empties the buffer |
| EscapeDecode.ColorRoundTrip | src/term/escape/decode.rs:35-86 | writing a colour as an escape sequence and feeding it yields that colour at the final 'm' and nothing before |
| EscapeDecode.RecogniseReset | src/term/escape/decode.rs:64 | ESC [ m is a reset |
| EscapeDecode.ColorAfter | src/term/escape/decode.rs:58-63 | a colour is found only when the sequence is longer than the prefix, starts with it and ends in 'm' |
| EscapeDecode.Recognise | src/term/escape/decode.rs:57-66 | the `match` on a complete sequence: something is recognised only in a sequence ending in 'm'; a foreground colour only after the foreground prefix, a background colour only after the background prefix, a reset only for ESC [ m, which is always a reset |
| EscapeDecode.ParseRgb | src/term/escape/decode.rs:93-99 | `parse_rgb_part` gives a colour exactly when there are at least three ';'-separated pieces and the first three each parse as a u8 |
| EscapeDecode.Finish | src/term/escape/decode.rs:48-73 | a sequence completed by 'm' always yields a part: its meaning, or its bytes padded into the fixed buffer when not understood, never a single byte |
| EscapeDecode.RecogniseUnknown | src/term/escape/decode.rs:65 | ESC [ 1 m is not recognised |
| EscapeDecode.FeedReset | src/term/escape/decode.rs:35-86 | ESC [ m fed from idle yields None, None, Reset |
| EscapeDecode.FeedUnknown | src/term/escape/decode.rs:68-73 | an unrecognised sequence is handed back as its zero-padded bytes |
| EscapeDecode.EscapeDecoder.constructor | src/term/escape/decode.rs:28-33 | a new decoder buffers nothing and its buffer is zero |
| EscapeDecode.EscapeDecoder.Clear | src/term/escape/decode.rs:88-91 | `clear` hands over the buffered bytes padded with zeros and leaves an empty, zeroed buffer |
| EscapeDecode.EscapeDecoder.Next | src/term/escape/decode.rs:35-86 | `next` on the buffer array does what the `next` step function says on its contents |
| FrameAlloc.FromIdx | crates/mem/src/frame_alloc.rs:118-124 | `from_idx` and `page_index` are inverse, and frames are page aligned |
| FrameAlloc.PageAlloc | crates/mem/src/frame_alloc.rs:416-422 | `PageInfo::alloc` succeeds exactly at count 0 and sets it to 1; otherwise the count is unchanged |
| FrameAlloc.PageCopy | crates/mem/src/frame_alloc.rs:424-432 | `copy` adds a reference, or fails with TooManyRefs exactly when the u16 count is full |
| FrameAlloc.PageFree | crates/mem/src/frame_alloc.rs:434-441 | `free` (count ≥ 1; 0 panics as a double free) drops one reference and says true exactly when it was the last |
| FrameAlloc.AllocThenFree | crates/mem/src/frame_alloc.rs:416-441 | a page allocated from count 0 is free again after one `free` |
| FrameAlloc.CopyThenFree | crates/mem/src/frame_alloc.rs:424-441 | a `copy` followed by a `free` restores the count and does not report the page free |
| FrameAlloc.InUseUpdate | crates/mem/src/frame_alloc.rs:412-414 | changing one page's count changes the number of pages in use by at most that page |
| FrameAlloc.InUseAll | crates/mem/src/frame_alloc.rs:341-345 | with every page at count 1 all pages are in use |
| FrameAlloc.ProbesCover | crates/mem/src/frame_alloc.rs:300-305 | `len` consecutive probe positions modulo `len` visit every page |
| FrameAlloc.FrameAllocator.constructor | crates/mem/src/frame_alloc.rs:321-358 | the state `init` builds before handing pages back: every page at count 1, `used == usable`, `last_alloc_index` 0 |
| FrameAlloc.FrameAllocator.FreeMem | crates/mem/src/frame_alloc.rs:164-167 | free memory plus used memory is usable memory |
| FrameAlloc.FrameAllocator.ReservedMem | crates/mem/src/frame_alloc.rs:169-172 | reserved memory plus usable memory is total memory |
| FrameAlloc.FrameAllocator.FreeNoOverwrite | crates/mem/src/frame_alloc.rs:195-203 | drops one reference to the page and lowers `used` by a page exactly when the page became free; data untouched |
| FrameAlloc.FrameAllocator.Free | crates/mem/src/frame_alloc.rs:187-193 | zeroes the page's data, then frees it as `free_no_overwrite` does |
| FrameAlloc.FrameAllocator.AllocUncounted | crates/mem/src/frame_alloc.rs:296-319 | `alloc` as written: probes from `last_alloc_index` on, takes the first page at count 0 (every page probed before it was in use) and leaves `used` unchanged |
| FrameAlloc.FrameAllocator.Alloc | crates/mem/src/frame_alloc.rs:296-319 | the corrected `alloc`: as written, and `used` grows by one page, so the statistics stay balanced |
| FrameAlloc.FrameAllocator.ColdCopyFork | crates/mem/src/frame_alloc.rs:221-234 | allocates a fresh page (count 0 → 1) and copies the frame's data into it; `used` grows by one page because it calls the corrected `alloc` (as written, `used` would stay) |
| FrameAlloc.FrameAllocator.Fork | crates/mem/src/frame_alloc.rs:205-219 | below the u16 limit, shares the frame (one more reference, `used` unchanged); at the limit returns a fresh copy through `cold_copy_fork`, with `used` one page higher through the corrected `alloc` (as written, `used` would stay) |
| FrameAlloc.FrameAllocator.ForkPageFault | crates/mem/src/frame_alloc.rs:236-294 | count 1 keeps the frame; count ≥ 2 returns a fresh copy of the data and drops one reference to the original, with `used` one page higher through the corrected `alloc` (as written, `used` would stay); count 0 is excluded: it panics |
| Futex.Truncate | crates/scheduler/src/futex.rs:88-95 | `pop` splits a queue into the waiters kept and the waiters woken, which together are the old queue in order; exactly min(count, length) are woken (the subtraction saturates) |
| Futex.ShouldCancel | crates/scheduler/src/futex.rs:55-57 | `should_cancel`: the wait is abandoned exactly when the word no longer holds `val`; `Waiters.Cleanup` and `Wait` state their two outcomes by it |
| Futex.TruncateKeepsTasks | crates/scheduler/src/futex.rs:88-95 | waking loses and invents no task: kept and woken waiters together are the old queue as a multiset |
| Futex.TruncateEdges | crates/scheduler/src/futex.rs:88-95 | a count of at least the queue's length wakes everyone; a count of zero wakes nobody |
| Futex.Waiters.constructor | crates/scheduler/src/futex.rs:61-74 | the table starts with no address and nothing ready |
| Futex.Waiters.Push | crates/scheduler/src/futex.rs:76-86 | when `unless` holds the task is handed back and no queue changes; otherwise it is appended to its address's queue (created if missing) and nothing is handed back |
| Futex.Waiters.Pop | crates/scheduler/src/futex.rs:88-95 | removes up to `count` waiters from the back of the address's queue and, as each is dropped, appends it to the ready queue; an address without a queue changes nothing |
| Futex.Waiters.Wake | crates/scheduler/src/futex.rs:34-39 | the ready queue only grows, by the waiters cut from the back of `addr`'s queue, min(num, length) of them; every other queue is unchanged |
| Futex.Waiters.Cleanup | crates/scheduler/src/futex.rs:41-57 | after the switch the task is queued on its address unless the word no longer holds `val`, in which case it goes straight back to the ready queue; other queues are unchanged |
| Futex.Wait | crates/scheduler/src/futex.rs:17-32 | `wait` sleeps only when the word holds `val` both when read and when the scheduler checks for a cancel; otherwise it returns at once and nothing changes; a sleeping task ends up queued or ready as `cleanup` decides |
| FuturesMap.SegmentId | crates/futures/src/map.rs:306-308 | `segment_id` names one of the 32 segments |
| FuturesMap.BucketId | crates/futures/src/map.rs:310-312 | `bucket_id` names one of the segment's buckets |
| FuturesMap.HashSplits | crates/futures/src/map.rs:306-312 | the bits above the segment mask and the segment bits together give the whole hash back, so the two ids use disjoint parts of it |
| FuturesMap.SegmentBitsDoNotMove | crates/futures/src/map.rs:306-312 | hashes that differ only in their segment bits land in the same bucket |
| FuturesMap.EmptyBucket | crates/futures/src/map.rs:197-204 | a new bucket holds no item |
| FuturesMap.Lookup | crates/futures/src/map.rs:228-241 | a key's lookup in a list of items finds an item with that key, and finds none exactly when no item has the key |
| FuturesMap.FindSlow | crates/futures/src/map.rs:237-241 | `find_slow` returns the first position in the collision list whose key matches, and none when no key matches |
| FuturesMap.BucketFindIsLookup | crates/futures/src/map.rs:228-235 | in a bucket whose keys are distinct, `find` (head item first, then the list) is the lookup of the key among the drained items |
| FuturesMap.BucketInsertSpec | crates/futures/src/map.rs:206-226 | `Bucket::insert` puts the item in place of the one with its key, or adds it when none has the key, keeping keys distinct, and returns the replaced item or none |
| FuturesMap.InsertAtHead | crates/futures/src/map.rs:207-232 | an item whose key matches the head item replaces it and returns it |
| FuturesMap.ReplaceInList | crates/futures/src/map.rs:216-222 | an item whose key matches a collision-list entry swaps into that slot and returns the old entry |
| FuturesMap.AppendToList | crates/futures/src/map.rs:216-226 | an item with a new colliding key is pushed to the back of the list and nothing is returned |
| FuturesMap.DrainAll | crates/futures/src/map.rs:243-245 | draining a segment yields only items drained from its buckets |
| FuturesMap.DrainAllHolds | crates/futures/src/map.rs:243-245 | and every item of every bucket is yielded |
| FuturesMap.NextPowerOfTwo | crates/futures/src/map.rs:165 | `next_power_of_two` is the least power of two not below its argument |
| FuturesMap.ResizeDoubles | crates/futures/src/map.rs:163-176 | growing a segment of n buckets, n a power of two, doubles it to 2n; an empty segment gets one bucket |
| FuturesMap.Segment.constructor | crates/futures/src/map.rs:130-136 | a new segment has no buckets and no items |
| FuturesMap.Segment.Find | crates/futures/src/map.rs:178-183 | an empty segment finds nothing; a key not stored is not found; a stored key looked up with its hash gives its item; whatever is found is the item stored under the key |
| FuturesMap.Segment.Insert | crates/futures/src/map.rs:144-152 | `insert` first grows the segment to (len + 1).next_power_of_two() buckets when count * 100 >= len * 75, so the first insert always grows it, then stores the item, returning the item it replaced; the count grows only for a new key |
| FuturesMap.Segment.InsertNoResize | crates/futures/src/map.rs:154-160 | the item is stored in place of the one with its key, which is returned; the number of buckets is unchanged |
| FuturesMap.Segment.Resize | crates/futures/src/map.rs:162-176 | growing keeps every item and the count and sets the bucket count to (len + 1).next_power_of_two() |
| FuturesMap.InsertStored | crates/futures/src/map.rs:154-160 | inserting into the bucket the hash picks keeps every item in its own bucket, stores the new item under its key and counts a new key once |
| FuturesMap.DrainedItems | crates/futures/src/map.rs:173-175 | draining a valid segment yields exactly the stored items, each under its own key |
| FuturesMap.RefillDone | crates/futures/src/map.rs:173-175 | re-inserting every drained item rebuilds exactly the old contents |
| Hpet.AfterSleepUntil | crates/driver-acpi/src/hpet.rs:303-325 | `sleep_until` always enables the interrupt and keeps the waiting deadlines a min-heap |
| Hpet.AfterUpdate | crates/driver-acpi/src/hpet.rs:378-391 | `update` keeps the waiting deadlines a min-heap |
| Hpet.SleepUntilKeepsDeadlines | crates/driver-acpi/src/hpet.rs:303-325 | a future deadline is always kept; the new deadline is armed when it is earlier than the armed one or the armed one has passed; no deadline is lost except an expired armed one |
| Hpet.UpdateArmsEarliest | crates/driver-acpi/src/hpet.rs:378-391 | once the armed deadline has passed, the earliest waiting deadline is armed and the others keep waiting |
| Hpet.UpdateIdle | crates/driver-acpi/src/hpet.rs:378-391 | a still-pending timer is left alone; an expired timer with nothing waiting gets its interrupt disabled |
| Hpet.TimerN.constructor | crates/driver-acpi/src/hpet.rs:327-333 | after `init` the interrupt is off, the comparator is 0 and nothing waits |
| Hpet.TimerN.SetCurrent | crates/driver-acpi/src/hpet.rs:373-376 | the armed deadline and the comparator register change together |
| Hpet.TimerN.SleepUntil | crates/driver-acpi/src/hpet.rs:303-325 | the timer's new state is the `sleep_until` transition of its old state, and the comparator matches the armed deadline |
| Hpet.TimerN.Update | crates/driver-acpi/src/hpet.rs:378-391 | the timer's new state is the `update` transition of its old state, and the comparator matches the armed deadline |
| Hpet.NanosRoundTrip | crates/driver-acpi/src/hpet.rs:154-164 | nanoseconds converted to ticks and back never grow, while the tick count fits in 64 bits |
| Hpet.NanosToTicks | crates/driver-acpi/src/hpet.rs:154-156 | `nanos_to_ticks_u`: the `as u64` cast keeps the tick count below 2^64; `NanosRoundTrip` relates it to `ticks_to_nanos_u` |
| Hpet.TicksToNanos | crates/driver-acpi/src/hpet.rs:162-164 | `ticks_to_nanos_u`: the `as u64` cast keeps the result below 2^64; converting ticks back never exceeds the nanoseconds put in |
| Hpet.WrapI64 | crates/driver-acpi/src/hpet.rs:158-168 | the `as i64` cast always lands in the signed 64-bit range |
| Hpet.TruncDivOdd | crates/driver-acpi/src/hpet.rs:158-160 | Rust's truncating division commutes with negation |
| Hpet.SignedMatchesUnsigned | crates/driver-acpi/src/hpet.rs:154-160 | the signed conversion agrees with the unsigned one on non-negative inputs that fit |
| Hpet.SignedNegative | crates/driver-acpi/src/hpet.rs:158-160 | the signed conversion of a negative duration is the negation of the positive one |
| Hpet.NanosToTicksSigned | crates/driver-acpi/src/hpet.rs:158-160 | `nanos_to_ticks_i`: the `as i64` cast keeps the result in the signed 64-bit range; `SignedMatchesUnsigned` and `SignedNegative` relate it to the unsigned conversion |
| Hpet.TicksToNanosSigned | crates/driver-acpi/src/hpet.rs:166-168 | `ticks_to_nanos_i`: the `as i64` cast keeps the result in the signed 64-bit range |
| Hpet.TicksSignedMatchesUnsigned | crates/driver-acpi/src/hpet.rs:162-168 | the signed tick conversion agrees with `ticks_to_nanos_u` on non-negative ticks that fit |
| Hpet.TicksSignedNegative | crates/driver-acpi/src/hpet.rs:166-168 | the signed tick conversion of negative ticks is the negation of that of their magnitude |
| Hpet.TimeUnits | crates/driver-acpi/src/hpet.rs:208-231 | the chained divisions are single divisions of the femtosecond count, and the `u64` cast in `millis` cuts nothing for a 32-bit period and 64-bit counter |
| Hpet.Millis | crates/driver-acpi/src/hpet.rs:228-231 | `millis`: the `as u64` cast keeps the result below 2^64; `TimeUnits` shows it is femtoseconds over 10^12 with nothing cut |
| Hpet.Femtos | crates/driver-acpi/src/hpet.rs:208-211 | `femtos`: the period times the counter, the quantity `TimeUnits` divides |
| Hpet.Picos | crates/driver-acpi/src/hpet.rs:213-216 | `picos`: femtoseconds over 1000 |
| Hpet.Nanos | crates/driver-acpi/src/hpet.rs:218-221 | `nanos`: picoseconds over 1000, which `TimeUnits` shows is femtoseconds over 10^6 |
| Hpet.Micros | crates/driver-acpi/src/hpet.rs:223-226 | `micros`: nanoseconds over 1000, which `TimeUnits` shows is femtoseconds over 10^9 |
| Hpet.Seconds | crates/driver-acpi/src/hpet.rs:233-236 | `seconds`: milliseconds over 1000 |
| Hpet.Minutes | crates/driver-acpi/src/hpet.rs:238-240 | `minutes`: milliseconds over 60, as the source computes it |
| Hpet.FreqExample | crates/driver-acpi/src/hpet.rs:285-287 | a 100 ns period gives a 10 MHz frequency |
| Hpet.NanosToDeadline | crates/driver-acpi/src/hpet.rs:150-152 | a deadline is never before the current counter value |
| Interrupts.Slot | crates/interrupts/src/lib.rs:43-45 | `handler(irq)` uses slot irq - 0x20, one of the 224 slots |
| Interrupts.FirstFree | crates/interrupts/src/lib.rs:21-33 | the vector found is the lowest one from the start up to 0xFF that `can_use` accepts and whose slot is free; none is found exactly when no such vector exists |
| Interrupts.IntHandlers.constructor | crates/interrupts/src/lib.rs:88-94 | all 224 slots start free with the default handler |
| Interrupts.IntHandlers.StoreIfFree | crates/interrupts/src/lib.rs:96-102 | the slot is marked taken either way; the handler is stored, and true returned, exactly when the slot was free before, after which `load` gives it; unclaimed slots keep the default handler |
| Interrupts.IntHandlers.Store | crates/interrupts/src/lib.rs:104-107 | the slot is marked taken and the handler stored whatever the slot held; `load` then gives it, and unclaimed slots keep the default handler |
| Interrupts.IntHandlers.Load | crates/interrupts/src/lib.rs:109-111 | `load` of a vector nobody has claimed gives the default handler; Store, StoreIfFree (when it stores) and SetAny (on the vector it returns) make it give the handler they were passed |
| Interrupts.IntHandlers.SetAny | crates/interrupts/src/lib.rs:21-37 | `set_any_interrupt_handler` returns the first usable free vector from 0x20 and claims exactly that slot with the handler; when there is none nothing changes |
| Kshell.IndexInBounds | crates/kshell/src/term.rs:110-133 | an on-screen cursor addresses a cell inside the buffer |
| Kshell.Blank | crates/kshell/src/term.rs:102-123 | a run of blank (space) cells |
| Kshell.Scrolled | crates/kshell/src/term.rs:119-124 | scrolling moves every row up by one and blanks the last row |
| Kshell.CopyWithin | crates/kshell/src/term.rs:122 | `copy_within(width.., 0)` moves the cells after the first row to the front and leaves the tail as it was |
| Kshell.BlankFrom | crates/kshell/src/term.rs:123 | the cells from `from` on are blanked, the others kept |
| Kshell.Placed | crates/kshell/src/term.rs:115-124 | the cell `write_byte` writes is always on screen: the cursor wrapped to the next row past the right edge, pinned to the last row when that scrolls |
| Kshell.PutByte | crates/kshell/src/term.rs:114-137 | `write_byte` keeps the screen size |
| Kshell.PutByteWrites | crates/kshell/src/term.rs:132-135 | a byte other than '\n' lands in the placed cell, the cursor moves one column right, and no other cell changes beyond the scroll |
| Kshell.PutByteNewline | crates/kshell/src/term.rs:128-131 | '\n' moves to column 0 of the next row and writes nothing |
| Kshell.PutByteCursorBounds | crates/kshell/src/term.rs:114-137 | after any byte the cursor is at most one column past the right edge and one row past the bottom, and on screen after a byte other than '\n' |
| Kshell.PutBytes | crates/kshell/src/term.rs:94-98 | `write_bytes` keeps the screen size |
| Kshell.WriteLineCursor | crates/kshell/src/term.rs:94-137 | a line of at most `width` bytes without '\n', written from the start of an on-screen row, leaves the cursor right after it |
| Kshell.WriteLine | crates/kshell/src/term.rs:94-137 | such a line fills its row from the first column and touches no other cell |
| Kshell.PrevIsPreviousCell | crates/kshell/src/term.rs:82-92 | the corrected `cursor_prev` moves to the cell just before the cursor in the buffer, and stays at the very first cell |
| Kshell.Prev | crates/kshell/src/term.rs:82-92 | the corrected `cursor_prev` target; `PrevIsPreviousCell` shows it is the cell just before the cursor in the buffer and that (0, 0) stays |
| Kshell.PrevAsWrittenSkipsCell | crates/kshell/src/term.rs:83-91 | as written, from column 0 of a later row the cursor goes back two cells, not one |
| Kshell.PrevAsWritten | crates/kshell/src/term.rs:82-92 | `cursor_prev` as written: it agrees with the corrected move except from column 0 of a later row, where it lands one column left of the corrected target on the same row |
| Kshell.BackspaceAtRowStart | crates/kshell/src/term.rs:82-92 | on an 80x25 terminal, from (0, 1) `cursor_prev` as written reaches (78, 0) and the corrected one (79, 0) |
| Kshell.Term.constructor | crates/kshell/src/term.rs:22-49 | a new terminal has the cursor at the origin, every cell blank and every old cell '=' so the first flush draws everything |
| Kshell.Term.ReadAt | crates/kshell/src/term.rs:110-112 | `read_at`: the byte stored in the cell at column + row * width of the buffer |
| Kshell.Term.Flush | crates/kshell/src/term.rs:51-71 | `flush` draws exactly the cells that differ from what was drawn, in increasing order, and then the drawn copy equals the buffer |
| Kshell.Term.CursorPrev | crates/kshell/src/term.rs:82-92 | the corrected `cursor_prev` |
| Kshell.Term.CursorPrevAsWritten | crates/kshell/src/term.rs:82-92 | `cursor_prev` as written |
| Kshell.Term.ScrollUp | crates/kshell/src/term.rs:119-124 | the buffer becomes its scrolled form |
| Kshell.Term.WriteByte | crates/kshell/src/term.rs:114-137 | the terminal's new screen is the `write_byte` step of its old screen |
| Kshell.Term.WriteBytes | crates/kshell/src/term.rs:94-98 | the terminal's new screen is the old one with the bytes written in order |
| Kshell.Term.Clear | crates/kshell/src/term.rs:100-108 | `clear` puts the cursor at the origin, blanks every cell and flushes, so the drawn copy is blank too |
| LibIo.ReadAnswer | crates/libstd/src/io/mod.rs:13-14 | a `read` moves no more bytes than there is room for and input left; a reader with no special answers left fills as much as it can |
| LibIo.WriteAnswer | crates/libstd/src/io/mod.rs:54-55 | a `write` takes no more than it is given; a writer with no special answers left takes everything |
| LibIo.Reader.Read | crates/libstd/src/io/mod.rs:13-14 | a read copies the next bytes of the input to the buffer from the given offset and drops them from the input; an error moves nothing |
| LibIo.Writer.Write | crates/libstd/src/io/mod.rs:54-55 | a write appends the front part of the data it takes to the output; an error appends nothing |
| LibIo.ReadExact | crates/libstd/src/io/mod.rs:25-43 | `read_exact` takes only a front part of the input and copies it to the front of the buffer; success means the buffer is full and failure that it is not; `INTERRUPTED` is never returned (it is retried); with a reader that never fails it succeeds exactly when enough input is left, and otherwise fails with `UNEXPECTED_EOF` |
| LibIo.WriteAll | crates/libstd/src/io/mod.rs:57-67 | `write_all` ends with the result and the taken prefix that `WriteAllOutcome` gives for the writer's answers: a front part of the buffer is passed on, success exactly when all of it was taken, `INTERRUPTED` never returned, any error either `WRITE_ZERO` (a write of 0 bytes) or one the writer itself gave; a writer that never fails or holds back makes it succeed |
| LibIo.WriteAllOutcome | crates/libstd/src/io/mod.rs:57-67 | the reference outcome of `write_all` over the writer's answers: bytes taken never exceed what is left, success exactly when all were taken, never `INTERRUPTED`, an error is `WRITE_ZERO` or one of the writer's answers |
| LibIo.WriteZeroStops | crates/libstd/src/io/mod.rs:59-62 | when the writer's first answers are `INTERRUPTED` and the next takes 0 bytes, `write_all` returns `WRITE_ZERO` having written nothing |
| LibIo.WriteStep | crates/libstd/src/io/mod.rs:58-64 | one pass of the loop: appends the bytes the writer took, stops with `WRITE_ZERO` on a 0-byte write or with the writer's error, and otherwise leaves the outcome of the remaining loop unchanged |
| LibIo.Position | crates/libstd/src/io/mod.rs:270 | `position` finds the first occurrence of the delimiter, and none exactly when it does not occur |
| LibIo.BufReader.constructor | crates/libstd/src/io/mod.rs:154-160 | a new reader has nothing buffered and a buffer of 0x4000 bytes |
| LibIo.BufReader.FillBuf | crates/libstd/src/io/mod.rs:182-194 | the bytes still to be consumed are unchanged; buffered bytes are returned as they are without reading; an empty buffer is refilled by one read of the inner reader, whose count becomes `end` (at most the buffer length), or whose error is returned |
| LibIo.BufReader.Consume | crates/libstd/src/io/mod.rs:196-200 | `consume(n)` drops the first n unconsumed bytes, rotating the buffer left by n, and lowers `end` by n |
| LibIo.ReadUntil | crates/libstd/src/io/mod.rs:265-287 | `read_until` appends the next bytes of the stream to the output, loses none, stops right after the first delimiter or at an empty refill, returns how many bytes it took; with a reader that never stops short, no delimiter means the whole stream was taken |
| LibIo.TakeChunk | crates/libstd/src/io/mod.rs:268-282 | one round of `read_until`: the bytes taken are a prefix of the stream, ending at the first delimiter when it is found, and free of it otherwise |
| LibIo.BufWriter.constructor | crates/libstd/src/io/mod.rs:218-224 | a new writer has an empty buffer and is not broken |
| LibIo.BufWriter.Write | crates/libstd/src/io/mod.rs:236-241 | `write` appends all of the data to the buffer and reports its whole length |
| LibIo.BufWriter.Flush | crates/libstd/src/io/mod.rs:243-259 | a corrected `flush` sending only the unsent tail: success means the inner writer took exactly the buffer, which is cleared; an error other than `INTERRUPTED` breaks the writer and keeps the buffer, the inner writer having taken a front part of it |
| LibIo.BufWriter.FlushAsWritten | crates/libstd/src/io/mod.rs:243-259 | `flush` as written resends the buffer from its start on every try; the inner writer ends with what `FlushSends` says |
| LibIo.FlushResendsFront | crates/libstd/src/io/mod.rs:246-248 | a writer that first takes one byte of [1, 2] ends with [1, 1, 2] after `flush` as written |
| LibIo.FlushSends | crates/libstd/src/io/mod.rs:243-259 | what `flush` as written sends: nothing once the count reaches the buffer's length, and it fails only with an error other than `INTERRUPTED` (interrupted tries are retried) |
| Log.LogLevel.Rank | crates/log/src/lib.rs:78-87 | the derived order ranks the six levels 0 to 5 |
| Log.Parse | crates/log/src/lib.rs:102-114 | a parsed level's name is exactly the input; None exactly when the input is none of the six lower-case names |
| Log.LogLevel.Name | crates/log/src/lib.rs:102-114 | the lower-case name `parse` accepts for each level; `ParseName` and `Parse` show `parse` and the name invert each other |
| Log.Default | crates/log/src/lib.rs:116-120 | `LogLevel::DEFAULT` and `default()` are both `Info`, the level `BootArgs.Parse` starts from |
| Log.ParseName | crates/log/src/lib.rs:102-114 | every level's name parses back to that level |
| Log.OrderIsStrictTotal | crates/log/src/lib.rs:78 | the derived `Ord` is a strict total order |
| Log.OrderChain | crates/log/src/lib.rs:80-87 | None < Error < Warn < Info < Debug < Trace |
| MinQueue.Insert | crates/timer/src/lib.rs:19-20 | a heap push keeps the queue ordered by key and adds exactly the one element |
| MinQueue.HeadIsMin | crates/timer/src/lib.rs:34 | `peek` sees an element whose key is the smallest in the queue |
| MinQueue.TailSorted | crates/timer/src/lib.rs:43 | after `pop` takes the top, the rest is still ordered and holds every other element |
| MouseDecode.ButtonBit | crates/input/src/mouse/decode.rs:111-114 | each button maps to one of the three button bits of the command byte |
| MouseDecode.DeltaIsNineBit | crates/input/src/mouse/decode.rs:79-82 | the sign-extended movement is the 9-bit two's-complement value of sign bit and byte, negative exactly when the sign bit is set |
| MouseDecode.StateOf | crates/input/src/mouse/decode.rs:89-95 | `change_to_state`: Pressed exactly when the button bit is set |
| MouseDecode.Delta | crates/input/src/mouse/decode.rs:79-82 | the sign extension of a movement byte: the byte less 256 when the sign bit is set, the byte otherwise (`DeltaIsNineBit` gives its range and sign) |
| MouseDecode.Packet | crates/input/src/mouse/decode.rs:43-87 | `decode_bytes`: never more events than the four-slot vector holds |
| MouseDecode.FreshDecoderTakesXFirst | crates/input/src/mouse/decode.rs:10-105 | a fresh decoder starts at the X phase: of the bytes 0x05, 0x07, 0x18, 0xFF, 0x02 the first four yield nothing (the first two are taken as X and Y and complete a packet with the initial command byte 0, which lacks the always-one bit and is discarded) and the fifth completes a packet moving by (-1, 2) |
| MouseDecode.Push | crates/input/src/mouse/decode.rs:11-57 | a push onto the full four-slot vector is dropped, otherwise the event is appended |
| MouseDecode.ButtonEvents | crates/input/src/mouse/decode.rs:55-77 | at most one event per button |
| MouseDecode.MotionEvents | crates/input/src/mouse/decode.rs:84-86 | at most one motion event per packet |
| MouseDecode.PacketFits | crates/input/src/mouse/decode.rs:11-87 | a packet never produces more events than the vector holds, so no push is dropped |
| MouseDecode.DiscardedIsSilent | crates/input/src/mouse/decode.rs:48-50 | a packet with both overflow bits or without the always-one bit produces nothing |
| MouseDecode.ButtonEventIffChanged | crates/input/src/mouse/decode.rs:52-77 | a button event appears exactly when the packet is accepted and that button's bit differs from the last accepted command byte, with the new bit as its state |
| MouseDecode.MotionIffMoved | crates/input/src/mouse/decode.rs:79-86 | a motion event appears exactly when the packet is accepted and the sign-extended deltas are not both zero |
| MouseDecode.Mouse.constructor | crates/input/src/mouse/decode.rs:103-105 | the statics start with the next byte taken as an X byte and all data 0 |
| MouseDecode.Mouse.DecodeBytes | crates/input/src/mouse/decode.rs:43-87 | yields the packet's events, and records the command byte as the last one only when the packet is accepted |
| MouseDecode.Mouse.Process | crates/input/src/mouse/decode.rs:10-40 | the phase cycles command, X, Y; the first two bytes are stored and yield nothing, the third decodes the stored packet |
| Paths.LastSlash | crates/vfs/src/path.rs:30-34 | the position of the last '/', None exactly when there is none |
| Paths.Split | crates/vfs/src/path.rs:30-34 | `rsplit_once('/')`: None exactly without a '/'; otherwise parent + "/" + file name rebuilds the path and the file name has no '/' |
| Paths.Parent | crates/vfs/src/path.rs:22-24 | None exactly when the path has no '/' |
| Paths.FileName | crates/vfs/src/path.rs:26-28 | None exactly when the path has no '/'; otherwise a name without '/' |
| Paths.ParentFileName | crates/vfs/src/path.rs:22-34 | parent and file name are the two halves of `split` around the last '/' |
| Paths.SplitSlash | crates/vfs/src/path.rs:40-45 | `split('/')` yields at least one piece and no piece holds a '/' |
| Paths.TrimStart | crates/vfs/src/path.rs:42 | the result is `s` with its leading run of '/' cut off: a suffix of `s`, every cut character a '/', and no '/' left at its start |
| Paths.TrimEnd | crates/vfs/src/path.rs:42 | the result is `s` with its trailing run of '/' cut off: a prefix of `s`, every cut character a '/', and no '/' left at its end |
| Paths.NonEmpty | crates/vfs/src/path.rs:44 | keeps exactly the non-empty pieces; with `NonEmptyConcat` it is the order- and repeat-preserving filter |
| Paths.NonEmptyConcat | crates/vfs/src/path.rs:44 | filtering the concatenation of two piece lists is the concatenation of the filtered lists, so order and repeats are kept |
| Paths.SplitSlashConcat | crates/vfs/src/path.rs:43 | `split('/')` of `a + "/" + b` is the pieces of `a` followed by the pieces of `b` |
| Paths.TrimStartIgnored | crates/vfs/src/path.rs:42-44 | trimming leading '/'s only removes empty pieces, so the non-empty pieces are unchanged |
| Paths.TrimEndIgnored | crates/vfs/src/path.rs:42-44 | trimming trailing '/'s only removes empty pieces, so the non-empty pieces are unchanged |
| Paths.Components | crates/vfs/src/path.rs:40-45 | `iter` yields only non-empty components without '/'; `ComponentsConcat` and `ComponentsName` pin down which ones, in order |
| Paths.ComponentsArePieces | crates/vfs/src/path.rs:40-45 | the components are exactly the non-empty '/'-separated pieces of the untrimmed path, in order |
| Paths.ComponentsConcat | crates/vfs/src/path.rs:40-45 | for every `a` and `b`, the components of `a + "/" + b` are those of `a` followed by those of `b` |
| Paths.ComponentsName | crates/vfs/src/path.rs:40-45 | a slash-free name is its own only component, and the empty path has none |
| Paths.LeadingSlash | crates/vfs/src/path.rs:40-45 | a path with one leading "/" has exactly the components of the path without it (the leading slash is trimmed, not turned into an empty component) |
| Paths.AbsoluteTwoNames | crates/vfs/src/path.rs:40-45 | "/x/y" with slash-free, non-empty x and y has components exactly [x, y] |
| Paths.ComponentsAbsoluteExample | crates/vfs/src/path.rs:200-211 | "/some/path" yields "some" then "path" (the code as written yields no "/" component) |
| Paths.SplitTwo | crates/vfs/src/path.rs:43 | splitting `a/b` with slash-free halves gives exactly `a` and `b` |
| Paths.SplitAt | crates/vfs/src/path.rs:43 | splitting at the first '/' gives the head, then the split of the rest |
| Paths.ComponentsDoubleSlashExample | crates/vfs/src/path.rs:40-45 | "a//b/" yields "a" and "b": empty pieces are skipped |
| Paths.JoinPath | crates/vfs/src/path.rs:60-66 | the joined path is `self`, a '/' only when `self` does not end in '/', then `p` |
| Paths.SplitJoin | crates/vfs/src/path.rs:60-66 | splitting a join of a slash-free name gives back the directory (without its trailing '/') and the name |
| Paths.JoinAbsolute | crates/vfs/src/path.rs:60-70 | joining onto an absolute path gives an absolute path |
| Paths.PopPath | crates/vfs/src/path.rs:131-136 | `pop` truncates just after the last '/': a prefix that ends in '/' with no '/' after it; without a '/', nothing changes |
| Paths.PopAbsolute | crates/vfs/src/path.rs:131-136 | popping an absolute path keeps it absolute |
| Paths.PopStaysOnDirectory | crates/vfs/src/path.rs:131-136 | on a path that ends in '/', `pop` as written changes nothing |
| Paths.ParentDir | crates/vfs/src/path.rs:131-136 | the corrected `pop`: a prefix of the path |
| Paths.ParentDirDropsName | crates/vfs/src/path.rs:82-84 | the corrected `pop` drops the last name, with or without a trailing '/' |
| Paths.ToAbsolutePath | crates/vfs/src/path.rs:72-93 | an absolute path comes back unchanged |
| Paths.Resolve | crates/vfs/src/path.rs:76-91 | the working directory after applying each component in turn: "." keeps it, ".." pops it, any other name is joined; `ResolveConcat` states the order |
| Paths.ResolveConcat | crates/vfs/src/path.rs:79-90 | resolving `a + b` is resolving `a` and then `b` from where `a` left off: components are applied first to last |
| Paths.ResolveAbsolute | crates/vfs/src/path.rs:76-91 | from an absolute working directory, resolving any components stays absolute |
| Paths.ToAbsoluteIsAbsolute | crates/vfs/src/path.rs:72-93 | with an absolute working directory the result is always absolute |
| Paths.DotsChangeNothing | crates/vfs/src/path.rs:81 | "." components leave the working directory unchanged |
| Paths.DoubleDotDotCounterexample | crates/vfs/src/path.rs:82-84 | as written, "../.." from "/a/b/c" gives "/a/b/": the second ".." does nothing |
| Paths.ParentDirTwice | crates/vfs/src/path.rs:82-84 | with the corrected `pop`, two ".." from "/a/b/c" reach "/a/" |
| Paths.PathBuf.constructor | crates/vfs/src/path.rs:121-123 | holds the given path |
| Paths.PathBuf.Set | crates/vfs/src/path.rs:125-129 | the buffer becomes `p` |
| Paths.PathBuf.Pop | crates/vfs/src/path.rs:131-136 | the buffer becomes its `pop` |
| Paths.PathBuf.Join | crates/vfs/src/path.rs:138-145 | appends `p`, after a '/' only when the buffer does not end in '/' |
| Paths.ToAbsolute | crates/vfs/src/path.rs:72-93 | the loop over components computes the resolved path |
| Paths.ParentDirAbsolute | crates/vfs/src/path.rs:131-136 | the corrected `pop` keeps an absolute path absolute |
| Paths.ToAbsoluteIntended | crates/vfs/src/path.rs:72-93 | the corrected `to_absolute` returns an absolute path unchanged |
| Paths.ResolveIntendedAbsolute | crates/vfs/src/path.rs:76-91 | with the corrected `pop`, resolving against an absolute working directory stays absolute |
| Paths.IsDir | crates/vfs/src/path.rs:47-49 | `is_dir`: the path ends in '/' |
| Paths.IsAbsolute | crates/vfs/src/path.rs:68-70 | `is_absolute`: the path starts with '/' |
| Paths.Step | crates/vfs/src/path.rs:79-90 | one component of `to_absolute`: "." keeps the working directory, ".." pops it, any other name is joined; `ResolveAbsolute` shows it keeps an absolute directory absolute |
| Paths.ResolveIntended | crates/vfs/src/path.rs:76-91 | the components applied with the corrected `pop`; `ResolveIntendedAbsolute` shows the result stays absolute |
| Paths.DoubleDotDotIntended | crates/vfs/src/path.rs:82-84 | with the corrected `pop`, "../.." from "/a/b/c" resolves to "/a/" |
| Pipe.Channel.constructor | crates/scheduler/src/ipc/pipe.rs:137-155 | a new channel has an empty buffer of the given capacity and both sides open |
| Pipe.Channel.Send | crates/scheduler/src/ipc/pipe.rs:162-181 | `send` fails with Closed once the receiver is closed; into a full buffer it waits with the item kept, never dropped; otherwise the item joins the back of the buffer; the buffer is always what was sent and not yet received |
| Pipe.Channel.Recv | crates/scheduler/src/ipc/pipe.rs:183-199 | `recv` takes the front item while any is buffered, even after the sender closed; with none it gives Closed only once the sender is closed, and waits before |
| Pipe.Channel.SendSlice | crates/scheduler/src/ipc/pipe.rs:242-267 | an empty slice is sent at once without touching anything; once the receiver is closed nothing is pushed; otherwise the front of the data that fits joins the buffer and the rest is what the next try after the wait sends |
| Pipe.Channel.RecvSlice | crates/scheduler/src/ipc/pipe.rs:269-291 | an empty destination gives 0 at once; with items buffered the front min(len, buffered) come out, more than zero; with none it gives Closed only once the sender is closed, and waits before |
| Pipe.Channel.CloseSend | crates/scheduler/src/ipc/pipe.rs:225-229 | closing the sender (or dropping it) sets only the sender's closed flag |
| Pipe.Channel.CloseRecv | crates/scheduler/src/ipc/pipe.rs:231-235 | closing the receiver (or dropping it) sets only the receiver's closed flag |
| Pipe.Channel.WaitSendClosed | crates/scheduler/src/ipc/pipe.rs:201-211 | waiting for the sender returns exactly when it is closed, and never fails |
| Pipe.Channel.WaitRecvClosed | crates/scheduler/src/ipc/pipe.rs:213-223 | waiting for the receiver returns exactly when it is closed, and never fails |
| Pipe.ReceivedIsPrefix | crates/scheduler/src/ipc/pipe.rs:122-135 | what the receiver got is always the front of what the sender sent, in order |
| Pmm.FirstWindow | crates/mem/src/pmm.rs:186-219 | the window `alloc_at` finds is the lowest free run of `count` pages at or after `from` inside the bitmap; None exactly when no such run exists |
| Pmm.AllocFreeRestores | crates/mem/src/pmm.rs:116-137 | taking a free window and releasing it again leaves the bitmap as it was |
| Pmm.SkipConflict | crates/mem/src/pmm.rs:201-213 | restarting the search just past a taken page loses no free window |
| Pmm.PageFrameAllocator.constructor | crates/mem/src/pmm.rs:266-281 | a fresh allocator has every page marked taken, `used` equal to `usable` and the cursor at 0 |
| Pmm.PageFrameAllocator.BitmapLen | crates/mem/src/pmm.rs:78-80 | the bitmap length is the number of pages tracked |
| Pmm.PageFrameAllocator.Swap | crates/mem/src/pmm.rs:202-209 | the bitmap swap returns the old bit and stores the new one; out of range it returns None and changes nothing |
| Pmm.PageFrameAllocator.AllocAt | crates/mem/src/pmm.rs:186-219 | returns the first free window at or after `from` and marks exactly its pages taken; returns None with the bitmap unchanged when the window would run past the end |
| Pmm.PageFrameAllocator.TryWindow | crates/mem/src/pmm.rs:198-215 | either locks the whole window (all pages were free) or stops at the first taken page with the bitmap restored |
| Pmm.PageFrameAllocator.Release | crates/mem/src/pmm.rs:202-210 | the pages locked before a conflict are freed again, so the bitmap is back to its state before the attempt |
| Pmm.PageFrameAllocator.Alloc | crates/mem/src/pmm.rs:143-183 | count 0 yields the null frame and changes nothing; otherwise the window from the cursor (or, failing that, from page 0) is marked taken and zeroed, `used` grows by its size and the cursor moves past it |
| Pmm.PageFrameAllocator.FreeNoOverwrite | crates/mem/src/pmm.rs:116-137 | a null or empty frame is ignored; otherwise its pages (all in use) become free and `used` drops by the frame's size, contents untouched |
| Pmm.PageFrameAllocator.Free | crates/mem/src/pmm.rs:106-113 | like `free_no_overwrite` but zero-fills the pages first; a null or empty frame is ignored |
| Pmm.ChosenIsFree | crates/mem/src/pmm.rs:157-162 | the window `alloc` picks is free and in range, and is the first window from page 0 when none is left after the cursor |
| Prefix.ShrinkIsDiv | crates/util/src/prefix.rs:19-33 | dividing `k` times by the base in turn is one division by the base to the `k` |
| Prefix.Steps | crates/util/src/prefix.rs:15-24 | the loop stops at the first prefix at which the value is below ten units, having divided at every earlier one, or runs through all ten |
| Prefix.Format | crates/util/src/prefix.rs:13-39 | the shared loop returns the value divided down to the chosen prefix, with that prefix, or the last one past the table |
| Prefix.FormatExamples | crates/util/src/prefix.rs:13-39 | 12345 in decimal is 12 "K"; 10239 in binary stays unscaled and 10240 becomes 10 "Ki" (the first scale is taken from 10 units up) |
| Prefix.StepsIs | crates/util/src/prefix.rs:15-20 | the first index that stops the loop is the number of divisions made |
| Prefix.Decimal | crates/util/src/prefix.rs:13-25 | `decimal` scales by powers of 1000 with prefixes "" to "R", then "Q" |
| Prefix.Binary | crates/util/src/prefix.rs:27-39 | `binary` scales by powers of 1024 with prefixes "" to "Ri", then "Qi" |
| Prefix.ScaledRange | crates/util/src/prefix.rs:15-20 | the scaled value is below ten of the chosen unit (unless the table ran out), and was at least ten of the unit before it |
| Ramdisk.PageRound | crates/vfs/src/ramdisk.rs:40 | `div_ceil(0x1000)` pages hold the bytes: the smallest multiple of the page size not below the length |
| Ramdisk.Room | crates/vfs/src/ramdisk.rs:175-194 | the bytes a read can take from the frame holding the offset: some when the offset is inside the frames, none past them, never past their end |
| Ramdisk.ReadCount | crates/vfs/src/ramdisk.rs:163-196 | `read` returns nothing at an offset at or past the length, never more than the buffer, and never more than the file and its frames hold after the offset |
| Ramdisk.ReadProgress | crates/vfs/src/ramdisk.rs:163-196 | a read at an offset inside the file and its frames into a non-empty buffer returns at least one byte |
| Ramdisk.ReadInOneFrame | crates/vfs/src/ramdisk.rs:163-196 | a read inside the file that stays inside one frame returns the whole buffer |
| Ramdisk.ContentOf | crates/vfs/src/ramdisk.rs:94-101 | the file's bytes are exactly `len` long |
| Ramdisk.WriteContent | crates/vfs/src/ramdisk.rs:199-235 | after a write the content holds the written bytes at the offset, and every other byte below the old length is unchanged |
| Ramdisk.WriteLandsAtPageStart | crates/vfs/src/ramdisk.rs:206-219 | `write` as written, putting one byte at offset 5 of an empty file, stores it at offset 0 of the new page, so byte 5 reads as zero |
| Ramdisk.FreshPages | crates/vfs/src/ramdisk.rs:207-219 | the pages `write` as written appends when the frames run out: whole pages of 4096 bytes each |
| Ramdisk.WriteAsWritten | crates/vfs/src/ramdisk.rs:199-235 | the page walk of `write` as written: an empty buffer changes nothing; existing frames keep their sizes; what is appended is whole pages |
| Ramdisk.WriteBeyondFrames | crates/vfs/src/ramdisk.rs:204-227 | as written, a write at an offset past the end of the frames leaves every frame as it was and puts the bytes at the start of fresh pages appended after them, whatever the offset |
| Ramdisk.File.constructor | crates/vfs/src/ramdisk.rs:32-49 | a new file holds exactly the given bytes and is that long: no frames for no bytes, otherwise one frame of `div_ceil(0x1000)` pages |
| Ramdisk.File.Len | crates/vfs/src/ramdisk.rs:94-96 | `len` is the length of the content |
| Ramdisk.File.SetLen | crates/vfs/src/ramdisk.rs:98-101 | `set_len` always succeeds and changes only the length, keeping the frames, so bytes below both lengths are unchanged |
| Ramdisk.File.Read | crates/vfs/src/ramdisk.rs:163-197 | `read` returns the count above, copies exactly the content's bytes from the offset into the front of the buffer, and leaves the rest of the buffer alone |
| Ramdisk.File.Write | crates/vfs/src/ramdisk.rs:199-235 | a corrected `write`: sets the length to max(len, offset + n) and returns n; existing frames keep their sizes and only zero-filled pages are appended; the bytes land at the offset and no other byte below the old length changes |
| Ramdisk.File.WriteFrames | crates/vfs/src/ramdisk.rs:204-232 | the frame walk of the corrected `write`: it overwrites the part of the range the existing frames hold and reports how much that was; frame sizes and count stay the same |
| Ramdisk.File.AppendPages | crates/vfs/src/ramdisk.rs:207-219 | the page loop of the corrected `write`: once the frames run out, whole zero-filled pages are appended until the rest of the range is written at its offset |
| Ramdisk.Directory.constructor | crates/vfs/src/ramdisk.rs:286-295 | a new directory is empty and has no cached listing |
| Ramdisk.Directory.GetNode | crates/vfs/src/ramdisk.rs:257-263 | `get_node` succeeds exactly for a child name, returning that child; otherwise it is `NOT_FOUND` |
| Ramdisk.Directory.CreateNode | crates/vfs/src/ramdisk.rs:265-274 | `create_node` on a new name adds the node and drops the cached listing; on an existing name it is `ALREADY_EXISTS` and nothing changes |
| Ring.Pos | crates/ring/src/lib.rs:69-78 | the `k`-th cell of a run that starts at `first` is `(first + k) % capacity`, the wrap-around `slices` performs |
| Ring.Slot.Take | crates/ring/src/lib.rs:40-47 | None exactly when the slot is shorter than `n`; otherwise the same first index with length `n` |
| Ring.Slot.AtMost | crates/ring/src/lib.rs:49-52 | keeps `first` and caps the length at `n` (the result is either `n` or the old length, and at most both) |
| Ring.Slot.Slices | crates/ring/src/lib.rs:69-78 | the two pieces together are `len` long, the second is empty unless the run passes the end, and together they list the run's cells in ring order |
| Ring.RingBufMarker.constructor | crates/ring/src/lib.rs:105-115 | a new marker of capacity `len` (nonzero) starts empty: free space `len - 1`, used space 0 |
| Ring.RingBufMarker.UninitSlot | crates/ring/src/lib.rs:117-140 | the free run starts at the write index and is one shorter than what the used run leaves of the capacity |
| Ring.RingBufMarker.InitSlot | crates/ring/src/lib.rs:142-158 | the used run starts at the read index and spans up to the write index, wrapping when write < read |
| Ring.RingBufMarker.SpaceSum | crates/ring/src/lib.rs:160-168 | free space plus used space is always capacity - 1 |
| Ring.RingBufMarker.FreeSpace | crates/ring/src/lib.rs:161-163 | `free_space`: always below the capacity (one cell stays empty); `SpaceSum` adds it to the used space |
| Ring.RingBufMarker.UsedSpace | crates/ring/src/lib.rs:166-168 | `used_space`: always below the capacity |
| Ring.RingBufMarker.Acquire | crates/ring/src/lib.rs:180-188 | a slot of `count` cells at the write index exactly when that many are free, else None |
| Ring.RingBufMarker.AcquireUpTo | crates/ring/src/lib.rs:190-194 | the slot at the write index of min(count, free space) cells |
| Ring.RingBufMarker.Consume | crates/ring/src/lib.rs:205-213 | a slot of `count` cells at the read index exactly when that many are stored, else None |
| Ring.RingBufMarker.ConsumeUpTo | crates/ring/src/lib.rs:215-219 | the slot at the read index of min(count, used space) cells |
| Ring.RingBufMarker.Produce | crates/ring/src/lib.rs:196-203 | for a slot starting at the write index, the write index moves to `(first + len) % capacity`; used space grows and free space shrinks by `len` |
| Ring.RingBufMarker.Release | crates/ring/src/lib.rs:221-228 | for a slot starting at the read index, the read index moves to `(first + len) % capacity`; used space shrinks and free space grows by `len` |
| Ring.RingBuf.constructor | crates/ring/src/lib.rs:477-486 | a new buffer of nonzero capacity holds nothing |
| Ring.RingBuf.PushSlice | crates/ring/src/lib.rs:566-574 | stores the first min(buf.len, free space) elements of `buf` after the stored ones and returns that count |
| Ring.RingBuf.WriteRun | crates/ring/src/lib.rs:539-551 | writes `buf`'s head into the acquired run cell by cell without disturbing any stored element |
| Ring.RingBuf.PopSlice | crates/ring/src/lib.rs:576-588 | moves the oldest min(buf.len, stored) elements into the head of `buf`, leaves the rest of `buf` alone, and drops them from the buffer |
| Ring.RingBuf.ReadRun | crates/ring/src/lib.rs:553-558 | reads the consumed run in ring order: the head of `buf` becomes the oldest stored elements |
| Ring.RingBuf.Push | crates/ring/src/lib.rs:494-502 | succeeds exactly when a cell is free, appending `val`; otherwise hands `val` back and changes nothing |
| Ring.RingBuf.Pop | crates/ring/src/lib.rs:516-524 | None exactly when empty; otherwise the oldest element, which is removed |
| Ring.FreeUsedDisjoint | crates/ring/src/lib.rs:117-158 | a cell of the free run never holds a stored element (the run stops one short of the read index) |
| Ring.ReadWriteOffset | crates/ring/src/lib.rs:196-203 | after a produce the newly written cells follow the stored ones in read order |
| Ring.PosShift | crates/ring/src/lib.rs:221-228 | after a release the remaining elements are found from the new read index |
| Ring.MarkerScenario | crates/ring/src/lib.rs:624-671 | the marker's tests: on capacity 5 the free and used space go 4/0, 2/2, 3/1, 4/0, 0/4 through acquire, consume, release and produce |
| Riscv64Vmm.EntryAddr | crates/riscv64-vmm/src/lib.rs:190-192 | the address read from an entry is page aligned and fits in 56 bits |
| Riscv64Vmm.EntryFlags | crates/riscv64-vmm/src/lib.rs:194-196 | the flags read from an entry hold only the known flag bits (`from_bits_truncate`) |
| Riscv64Vmm.EntryRoundTrip | crates/riscv64-vmm/src/lib.rs:178-196 | reading back an entry built from an address and flags gives the address aligned down to its page and cut to 56 bits, and exactly the flags |
| Riscv64Vmm.EntryAddrExact | crates/riscv64-vmm/src/lib.rs:178-192 | a page-aligned 52-bit physical address comes back unchanged |
| Riscv64Vmm.NewEntry | crates/riscv64-vmm/src/lib.rs:178-180 | `PageTableEntry::new`: the page number at bit 10 or-ed with the flags; `EntryRoundTrip` reads both back |
| Riscv64Vmm.PageTableEntry.constructor | crates/riscv64-vmm/src/lib.rs:172-176 | the empty entry is all zero bits |
| Riscv64Vmm.PageTableEntry.Addr | crates/riscv64-vmm/src/lib.rs:190-192 | `addr` of the stored entry: page aligned and below 2^56 |
| Riscv64Vmm.PageTableEntry.Flags | crates/riscv64-vmm/src/lib.rs:194-196 | `flags` of the stored entry: only known flags |
| Riscv64Vmm.PageTableEntry.SetAddr | crates/riscv64-vmm/src/lib.rs:182-184 | `set_addr` installs the new address (page aligned, 56 bits) and keeps the flags |
| Riscv64Vmm.PageTableEntry.SetFlags | crates/riscv64-vmm/src/lib.rs:186-188 | `set_flags` installs the new flags and keeps the address |
| Riscv64Vmm.PhysNewTruncate | crates/riscv64-vmm/src/lib.rs:232-234 | `PhysAddr::new_truncate` keeps the low 52 bits and clears the rest |
| Riscv64Vmm.PhysTryFrom | crates/riscv64-vmm/src/lib.rs:224-230 | `PhysAddr::try_from` accepts exactly the addresses that fit in 52 bits, unchanged |
| Riscv64Vmm.VirtNewTruncate | crates/riscv64-vmm/src/lib.rs:315-318 | `VirtAddr::new_truncate` keeps bits 0..47, copies bit 47 upwards, and always yields a canonical address |
| Riscv64Vmm.TruncateFixesCanonical | crates/riscv64-vmm/src/lib.rs:307-318 | an address is its own truncation exactly when it is canonical (bits 47..63 all equal) |
| Riscv64Vmm.VirtTryFrom | crates/riscv64-vmm/src/lib.rs:307-313 | `VirtAddr::try_from` accepts exactly the canonical addresses, unchanged |
| Riscv64Vmm.Offset | crates/riscv64-vmm/src/lib.rs:348-350 | the page offset is below 4096 |
| Riscv64Vmm.TableIndices | crates/riscv64-vmm/src/lib.rs:352-360 | each of the four table indices is below 512 |
| Riscv64Vmm.IndicesReassemble | crates/riscv64-vmm/src/lib.rs:348-360 | the four indices and the offset put back in their bit positions give the address's low 48 bits |
| Riscv64Vmm.AlignDown | crates/riscv64-vmm/src/lib.rs:397-401 | `align_down` gives a multiple of the alignment at or below the address, less than one alignment below |
| Riscv64Vmm.AlignUp | crates/riscv64-vmm/src/lib.rs:386-395 | `align_up` gives a multiple of the alignment |
| Riscv64Vmm.AlignUpAbove | crates/riscv64-vmm/src/lib.rs:386-395 | `align_up` never moves the address down |
| Riscv64Vmm.AlignUpClose | crates/riscv64-vmm/src/lib.rs:386-395 | `align_up` moves the address up by less than one alignment |
| Riscv64Vmm.AlignAround | crates/riscv64-vmm/src/lib.rs:386-401 | `align_down(a) <= a <= align_up(a)`, and each equals a exactly when a is already aligned |
| Rle.IterSegments | crates/util/src/rle.rs:51-63 | one region per segment, with the segment's size and type, at the address that is the sum of the sizes before it |
| Rle.IterUsable | crates/util/src/rle.rs:45-49 | lists every region whose segment is usable and only those (sound and complete); `IterUsableConcat` gives their order |
| Rle.IterUsableConcat | crates/util/src/rle.rs:45-49 | the usable regions of two runs of segments are those of the first run followed by those of the second: segment order and repeats are kept |
| Rle.EndAddr | crates/util/src/rle.rs:65-70 | with the last segment usable (or no segment), the end address is the total size |
| Rle.MinUsableIsLowest | crates/util/src/rle.rs:29-39 | in a normal map, `min_usable_addr` (first size when the first segment is reserved, else 0) is usable and every lower address is reserved |
| Rle.MinUsableAddr | crates/util/src/rle.rs:29-39 | every address below `min_usable_addr` is reserved; MinUsableIsLowest adds that in a normal map the address itself is usable |
| Rle.NormalEnd | crates/util/src/rle.rs:7-10 | a normal non-empty map ends in usable memory, so `end_addr`'s assertion holds |
| Rle.Piece | crates/util/src/rle.rs:154-191 | a piece of nonzero size is one segment of that type, a zero-size piece is none |
| Rle.SplitPieces | crates/util/src/rle.rs:146-191 | left, middle and right pieces of a split segment add up to its size; the middle takes the region's type, the sides keep the old type |
| Rle.StepOk | crates/util/src/rle.rs:126-194 | one step of the walk extends the prefix that already has the overlaid meaning |
| Rle.RemoveNeverExtends | crates/util/src/rle.rs:196-220 | a reservation never makes the map longer |
| Rle.InsertEnd | crates/util/src/rle.rs:196-220 | after a usable insert the map ends at or past the region's end and at most at max(old end, region end) |
| Rle.RleMemory.constructor | crates/util/src/rle.rs:19-23 | a new map has no segments |
| Rle.RleMemory.Walk | crates/util/src/rle.rs:120-194 | the segment walk: the part walked (everything, when it stops early) means the old map overlaid with the region's type; a full walk ends at the total size |
| Rle.RleMemory.Overlay | crates/util/src/rle.rs:120-221 | `insert_segment_at` before its fixup: every address of the region gets the region's type, every other address keeps its type |
| Rle.RleMemory.MergeNeighbours | crates/util/src/rle.rs:236-248 | merging equal neighbours keeps every address's type, the total size and the last type, and leaves no two equal neighbours |
| Rle.RleMemory.Fixup | crates/util/src/rle.rs:226-249 | the intended `fixup`: meaning unchanged and the map normal (no trailing reserved segment, no equal neighbours) |
| Rle.RleMemory.FixupAsWritten | crates/util/src/rle.rs:226-249 | `fixup` as written: meaning unchanged, no equal neighbours, and one trailing reserved segment removed before merging |
| Rle.RleMemory.Insert | crates/util/src/rle.rs:72-75 | the region becomes usable, nothing else changes meaning, and the map stays normal (through the corrected `fixup`) |
| Rle.RleMemory.Remove | crates/util/src/rle.rs:77-80 | the region becomes reserved and nothing else changes meaning; with the corrected `fixup` the map also stays normal (the `fixup` as written can leave a trailing reserved segment) |
| Rle.RleMemory.Alloc | crates/util/src/rle.rs:86-118 | returns `min_usable_addr` and reserves the 4 KiB page there, every other address keeps its type; with the corrected `fixup` the map stays normal; an empty map returns 0 |
| Rle.WalkStopped | crates/util/src/rle.rs:135-138 | a walk that stops at a segment past the region leaves the rest of the map as it was |
| Rle.AppendOk | crates/util/src/rle.rs:196-220 | appending the reserved padding and the usable leftover past the old end gives the overlaid meaning |
| Rle.MergePreserves | crates/util/src/rle.rs:242-244 | merging two equal neighbours changes no address's type |
| Rle.DropTrailingReserved | crates/util/src/rle.rs:227-234 | dropping a trailing reserved segment changes no address's type (everything past the end is reserved) |
| Rle.AllocSplitMeaning | crates/util/src/rle.rs:99-110 | shrinking the first usable segment by a page and prepending a reserved page reserves exactly that page |
| Rle.AllocWholeMeaning | crates/util/src/rle.rs:111-113 | turning a one-page usable segment reserved reserves exactly that page |
| SlabAlloc.SizesAscending | crates/slab-alloc/src/alloc.rs:60-76 | the thirteen size classes run from 8 to 1024 in strictly ascending order |
| SlabAlloc.GetSlab | crates/slab-alloc/src/alloc.rs:95-101 | `get_slab` finds nothing exactly for sizes above 1024; otherwise it returns the index and size of the smallest class holding the size |
| SlabAlloc.BigPageCount | crates/slab-alloc/src/alloc.rs:155-158 | a big allocation takes `ceil(size / 4096) + 1` pages: one metadata page and the fewest pages holding the size |
| SlabAlloc.BigAllocCovers | crates/slab-alloc/src/alloc.rs:155-182 | the pages after the metadata page hold the whole request |
| SlabAlloc.WrapAddSub | crates/slab-alloc/src/alloc.rs:161-197 | a wrapping `fetch_add` of n followed by a wrapping `fetch_sub` of n restores the counter |
| SlabAlloc.SlabAllocator.constructor | crates/slab-alloc/src/alloc.rs:60-93 | a new allocator has both counters at zero |
| SlabAlloc.SlabAllocator.Alloc | crates/slab-alloc/src/alloc.rs:108-115 | `alloc` sends sizes up to 1024 to the smallest fitting slab, which adds the class size to `used` (slab.rs:82) and, when it must refill, counts one more page in `allocated` and records the slab index in that page's header (slab.rs:177-189); larger sizes become a big allocation as `big_alloc` does it: its pages are added to `allocated`, their bytes to `used` (both wrapping), the page count is recorded in the metadata page, and the pointer is the page after it |
| SlabAlloc.SlabAllocator.BigAlloc | crates/slab-alloc/src/alloc.rs:155-183 | `big_alloc` adds the page count to `allocated` and its bytes to `used` (wrapping), records the page count in the first page and returns the next page |
| SlabAlloc.SlabAllocator.BigPages | crates/slab-alloc/src/alloc.rs:204-213 | `big_pages` finds the metadata one page below the pointer and reads the page count recorded there |
| SlabAlloc.SlabAllocator.BigFree | crates/slab-alloc/src/alloc.rs:188-202 | `big_free` takes the recorded page run and subtracts its page count from `allocated` and its bytes from `used` (wrapping) |
| SlabAlloc.SlabAllocator.SlabOf | crates/slab-alloc/src/alloc.rs:142-153 | `slab_of` reads a valid slab index from the header of the pointer's page |
| SlabAlloc.SlabAllocator.Free | crates/slab-alloc/src/alloc.rs:122-129 | `free` sends a page-aligned pointer down the big path, updating both counters, and any other pointer to the slab named in its page header, which subtracts the class size from `used` (slab.rs:93) |
| SlabAlloc.SlabAllocator.Size | crates/slab-alloc/src/alloc.rs:134-140 | `size` of a big allocation is its recorded page count times 4096, metadata page included; of a slab block, its class size |
| SlabAlloc.BigAllocFree | crates/slab-alloc/src/alloc.rs:155-202 | a big allocation freed again leaves both counters as they were |
| SlabLocal.StaticVec.Contents | crates/slab-alloc/src/local.rs:83-86 | the vector holds exactly `len` values, the first `len` slots of the array |
| SlabLocal.StaticVec.constructor | crates/slab-alloc/src/local.rs:88-94 | a new vector is empty, with room for CAP values |
| SlabLocal.StaticVec.Push | crates/slab-alloc/src/local.rs:96-103 | `push` fails exactly when the vector is full, handing the value back and changing nothing; otherwise the value is appended |
| SlabLocal.StaticVec.Pop | crates/slab-alloc/src/local.rs:105-111 | `pop` gives None exactly when the vector is empty; otherwise it returns the last value and drops it, leaving the array's slots as they were |
| SlabLocal.PushThenPop | crates/slab-alloc/src/local.rs:96-111 | a pop right after a successful push returns the pushed value and restores the contents (LIFO) |
| SlabLocal.LocalSlab.constructor | crates/slab-alloc/src/local.rs:67-72 | a new local slab caches no blocks |
| SlabLocal.LocalSlab.Alloc | crates/slab-alloc/src/local.rs:74-76 | `alloc` gives nothing exactly when no block is cached, else the most recently cached block, which leaves the cache |
| SlabLocal.LocalSlab.Dealloc | crates/slab-alloc/src/local.rs:78-80 | `dealloc` hands the block back exactly when the 37 slots are full; otherwise the block is cached on top |
| StaticStr.ZeroLimited | crates/static-str/src/lib.rs:67-75 | the prefix before the first zero, or the whole array: a zero-free prefix no longer than SIZE, followed by a zero when shorter |
| StaticStr.ZeroLimitedNoZero | crates/static-str/src/lib.rs:67-75 | an array without zeros is its own zero-limited prefix |
| StaticStr.CharWidth | crates/static-str/src/lib.rs:19-22 | the length of the well-formed UTF-8 sequence at the start (0 when ill-formed), at most 4 |
| StaticStr.ValidUpTo | crates/static-str/src/lib.rs:19-22 | `Utf8Error::valid_up_to`: the longest valid prefix; the whole input exactly when it is valid UTF-8 |
| StaticStr.CharWidthPrefix | crates/static-str/src/lib.rs:19-22 | cutting the input after a complete character does not change that character's width |
| StaticStr.StaticStr.AsBytes | crates/static-str/src/lib.rs:32-35 | a zero-free prefix of the stored bytes |
| StaticStr.FromUtf8 | crates/static-str/src/lib.rs:19-22 | succeeds exactly when the zero-limited prefix is valid UTF-8, keeping all SIZE bytes; the error's `valid_up_to` lies inside that prefix |
| StaticStr.AsBytesAfterFromUtf8 | crates/static-str/src/lib.rs:19-35 | after `from_utf8`, `as_bytes` is the zero-limited prefix, and the whole array when it has no zero |
| StaticStr.Examples | crates/static-str/src/lib.rs:19-75 | "hi\0A" is limited to "hi"; bytes after the first zero are never checked; "\xC3(" fails with `valid_up_to` 0 |
| Tar.First | userspace/bootstrap/src/parse.rs:77 | the split point is the first occurrence, with none before it; None exactly when absent |
| Tar.Last | userspace/bootstrap/src/parse.rs:48 | the split point is the last occurrence, with none after it; None exactly when absent |
| Tar.UntilNul | userspace/bootstrap/src/parse.rs:140-146 | the part of a field before its first NUL byte, the whole field when it has none |
| Tar.SplitFirst | userspace/bootstrap/src/parse.rs:77 | `split_once('/')` makes the path strictly shorter, or leaves it whole with no remainder |
| Tar.SplitLast | userspace/bootstrap/src/parse.rs:48 | `rsplit_once('/')` gives the parent and a file name without a slash, rejoinable with '/'; a path without a slash is all file name |
| Tar.NameOf | userspace/bootstrap/src/parse.rs:139-142 | the name is the 100-byte name field up to its first NUL |
| Tar.TypeOf | userspace/bootstrap/src/parse.rs:151-158 | NUL or '0' is a file, '5' a directory, and any other byte is unknown |
| Tar.Pow8 | userspace/bootstrap/src/parse.rs:148 | powers of eight are positive |
| Tar.Octal | userspace/bootstrap/src/parse.rs:144-149 | a number written as `w` octal digits |
| Tar.OctalValueOfOctal | userspace/bootstrap/src/parse.rs:144-149 | `from_str_radix(_, 8)` reads back a number written in octal |
| Tar.ParseOctal | userspace/bootstrap/src/parse.rs:148 | `usize::from_str_radix(_, 8)`: an optional '+', then one or more octal digits and nothing else, within `usize`; `ParseOctalOfOctal` reads back every number written in octal |
| Tar.ParseOctalDigits | userspace/bootstrap/src/parse.rs:148 | a non-empty run of octal digits that fits a `usize`, with or without a leading '+', parses to its value |
| Tar.ParseOctalOfOctal | userspace/bootstrap/src/parse.rs:148 | any number below 8^w written as w octal digits (w > 0), with or without '+', parses back to itself |
| Tar.OctalDigitsFrom | userspace/bootstrap/src/parse.rs:144-149 | reading the size field's digits one byte at a time, up to the field's end or a NUL, gives what `from_str_radix(_, 8)` gives on those digits: their value when all are octal and it fits a `usize`, else nothing |
| Tar.SizeOfParsesField | userspace/bootstrap/src/parse.rs:144-149 | `size`: the size a header is read with is `from_str_radix(_, 8)` of the size field up to its first NUL, or 0 when that does not parse |
| Tar.SizeOfOctalField | userspace/bootstrap/src/parse.rs:144-149 | a size field of eleven octal digits and a NUL is read as that number |
| Tar.EmptySizeIsZero | userspace/bootstrap/src/parse.rs:148 | an empty size field is read as 0 |
| Tar.InsertThenFind | userspace/bootstrap/src/parse.rs:53-96 | after `goto_dir` and the insert, following the path's directories reaches the new file |
| Tar.GotoInsert | userspace/bootstrap/src/parse.rs:66-96 | `goto_dir` and the insert: with no directory component (only `.` and empty pieces) the node is inserted at the root; otherwise the first directory exists afterwards as a directory, no root entry is lost and every other root entry is unchanged; a file on the way is the panic (InsertThenFind and InsertSucceedsIffWalkable give the rest) |
| Tar.InsertSucceedsIffWalkable | userspace/bootstrap/src/parse.rs:85-95 | the insert panics ("is a file") exactly when a file stands where a directory of the path is needed |
| Tar.EmptyIsWalkable | userspace/bootstrap/src/parse.rs:85-90 | any path can be inserted into an empty tree, all its directories being created |
| Tar.Chunks | userspace/bootstrap/src/parse.rs:24 | `array_chunks::<512>` yields the whole blocks and drops a partial tail |
| Tar.ConcatLength | userspace/bootstrap/src/parse.rs:40-44 | whole blocks joined are 512 bytes each |
| Tar.ConcatAppend | userspace/bootstrap/src/parse.rs:43 | joining blocks distributes over concatenation |
| Tar.ConcatSnoc | userspace/bootstrap/src/parse.rs:43 | one more block extends the joined bytes by that block |
| Tar.ChunksConcat | userspace/bootstrap/src/parse.rs:24-43 | consecutive blocks joined are the archive's bytes they cover |
| Tar.ChunkAt | userspace/bootstrap/src/parse.rs:24 | block `j` is bytes `512j..512j+512` of the archive |
| Tar.BlocksFor | userspace/bootstrap/src/parse.rs:39 | `div_ceil(512)`: the fewest whole blocks that hold the size |
| Tar.Joined | userspace/bootstrap/src/parse.rs:39-44 | the buffer filled with the blocks from `lo` up to `hi` holds 512 bytes per block |
| Tar.JoinedIsConcat | userspace/bootstrap/src/parse.rs:39-44 | filling the buffer block by block gives the bytes of those blocks joined |
| Tar.FileData | userspace/bootstrap/src/parse.rs:39-45 | the file's data is exactly `size` bytes long |
| Tar.FileDataInArchive | userspace/bootstrap/src/parse.rs:39-45 | a file's data is the `size` bytes right after its header in the archive |
| Tar.FileDataIsPrefix | userspace/bootstrap/src/parse.rs:40-45 | the data is the copied blocks cut to `size` |
| Tar.ChunksPrefix | userspace/bootstrap/src/parse.rs:40-45 | the first `size` bytes of consecutive blocks are the archive's bytes from the first of them |
| Tar.AddFile | userspace/bootstrap/src/parse.rs:39-60 | a file entry moves past its data blocks, or panics Truncated exactly when they run past the end |
| Tar.ReadFile | userspace/bootstrap/src/parse.rs:39-45 | copies the data blocks and cuts them to the size, failing exactly when the blocks run out |
| Tar.ReadEntry | userspace/bootstrap/src/parse.rs:39-60 | the loop body for one file entry does what the entry function says |
| Tar.ParseBlocks | userspace/bootstrap/src/parse.rs:22-63 | the header loop adds every file entry in order, skips directories, and panics as the entry function says |
| Tar.ParseTar | userspace/bootstrap/src/parse.rs:16-24 | after the GNU magic check, the archive's whole blocks are walked from an empty root |
| Tar.Entries | userspace/bootstrap/src/parse.rs:24-61 | the header loop from block `i`: directories skipped, files added, other types panicking; `LastFileFound` states what a successful parse holds |
| Tar.Key | userspace/bootstrap/src/parse.rs:47-53 | the path a file is stored under (its directory names, then its name) is never empty |
| Tar.Inserted | userspace/bootstrap/src/parse.rs:24-61 | the headers of the files the loop inserts, in order: each is a block of the archive at or after the one the loop starts from (`FileInserted` and `DirStep` say which blocks they are) |
| Tar.DirStep | userspace/bootstrap/src/parse.rs:34-37 | a directory header is skipped: neither the result nor the inserted files change |
| Tar.FileStep | userspace/bootstrap/src/parse.rs:39-60 | a file header in a successful parse is read, inserted under its key unless its name is empty, and the parse goes on after its data blocks |
| Tar.FileLoopStep | userspace/bootstrap/src/parse.rs:39-60 | a file header in a successful parse is got past, and the parse goes on from the block and tree `AddFile` gives |
| Tar.FileAdded | userspace/bootstrap/src/parse.rs:47-60 | when `AddFile` succeeds, a name ending in a slash leaves the tree alone, and any other name is inserted by `goto_dir` with that header's data |
| Tar.FileInserted | userspace/bootstrap/src/parse.rs:39-60 | a file header whose data fits is the first inserted header exactly when its name does not end in a slash, and the rest are those after its data blocks |
| Tar.UnknownStep | userspace/bootstrap/src/parse.rs:151-156 | a header of an unknown type makes the parse panic |
| Tar.InsertKeepsFile | userspace/bootstrap/src/parse.rs:53-96 | inserting a node leaves a file found under any path the new path is not a prefix of |
| Tar.EntriesKeepFile | userspace/bootstrap/src/parse.rs:24-61 | a file found before the loop is still found after a successful parse when no inserted path is a prefix of its path |
| Tar.LastFileFound | userspace/bootstrap/src/parse.rs:24-61 | after a successful parse, following an inserted file's path reaches that file with that header's data, provided no later inserted path is the same or a prefix of it: the last header for a path wins ("keep the last found duplicate") |
| Tar.LastFileFoundPastDir | userspace/bootstrap/src/parse.rs:34-37 | `LastFileFound` from a directory header: the header is skipped and the property holds from the next block |
| Tar.LastFileFoundAtFile | userspace/bootstrap/src/parse.rs:39-60 | `LastFileFound` from a file header, for the header itself and for any later inserted header |
| Tar.LastFileFoundPastSkipped | userspace/bootstrap/src/parse.rs:47-51 | `LastFileFound` from a file header whose name ends in a slash: that entry is skipped and inserts nothing |
| Tar.LastFileFoundPastInserted | userspace/bootstrap/src/parse.rs:39-60 | `LastFileFound` for a later inserted header, past a file header that is inserted |
| Tar.FirstFileFound | userspace/bootstrap/src/parse.rs:39-60 | the file inserted from block `i` is found under its path with its data after the parse when no later inserted path is the same or a prefix of it |
| Timer.Cmp | crates/timer/src/lib.rs:61-79 | the reversed order: a waker is greater exactly when its deadline is earlier, and equal exactly when the deadlines are equal |
| Timer.Compare | crates/timer/src/lib.rs:77 | `u64::cmp`: Less, Equal or Greater exactly as the first deadline is below, equal to or above the second |
| Timer.CmpAntisymmetric | crates/timer/src/lib.rs:75-79 | the order is antisymmetric, as `Ord` requires |
| Timer.TopIsEarliest | crates/timer/src/lib.rs:19-20 | the top of the max-heap under the reversed order is an earliest deadline |
| Timer.TimerDeadlines.constructor | crates/timer/src/lib.rs:19-20 | the deadline heap starts empty |
| Timer.TimerDeadlines.Push | crates/timer/src/lib.rs:19-20 | a sleeping task's waker joins the heap, which stays ordered |
| Timer.TimerDeadlines.ProvideSleepWake | crates/timer/src/lib.rs:27-49 | with no timers nothing happens; when the earliest deadline is still ahead nothing is woken; otherwise exactly the earliest waker is woken and removed |
| Timer.WakeOrder | crates/timer/src/lib.rs:34-45 | the waker woken is due no later than any left behind, and while the earliest deadline is ahead every deadline is ahead |
| VfsTree.Walk | crates/vfs/src/tree.rs:98-121 | walking a path only fails with `NotFound` (a missing child) or `NotADirectory` (a file before the last component) |
| VfsTree.WalkAppend | crates/vfs/src/tree.rs:98-121 | walking p + q is walking p and then q from where p ended |
| VfsTree.WalkExtend | crates/vfs/src/tree.rs:98-121 | a walk that did not stop at a missing child gives the same result after children are added anywhere |
| VfsTree.WalkWithin | crates/vfs/src/tree.rs:98-121 | a walk from a known node ends at a known node |
| VfsTree.NewRoot | crates/vfs/src/tree.rs:94-96 | the root is a new empty directory named "" |
| VfsTree.Find | crates/vfs/src/tree.rs:98-121 | `find` returns what walking the path's components reaches in the tree it leaves; only `make_dirs` creates directories, and only where the walk had hit a missing child, each new and empty and kept by every later walk; with `make_dirs` it fails only with `NotADirectory` |
| VfsTree.Descend | crates/vfs/src/tree.rs:103-116 | one step of `find`: an existing child is taken; a missing one is `NotFound` without `make_dirs` and a new empty directory added under that name with it |
| VfsTree.AddDir | crates/vfs/src/tree.rs:109-112 | creating a missing directory adds exactly that child, new and empty, and changes nothing else |
| VfsTree.ResolveExtend | crates/vfs/src/tree.rs:130-161 | a path that did not resolve to a missing child resolves the same after children are added |
| VfsTree.FindDir | crates/vfs/src/tree.rs:123-128 | `find_dir` returns the directory the walk reaches; a file there is `NotADirectory`; it creates directories as `find` does |
| VfsTree.FindFile | crates/vfs/src/tree.rs:130-161 | `find_file` resolves the parent and the name: a path without '/' is `NotFound`; an existing file is returned unchanged; a directory is `IsADirectory`; a missing file is a new empty one only with `create`, else `NotFound`; nothing is created without `make_dirs` or `create` |
| VfsTree.AddFile | crates/vfs/src/tree.rs:151-156 | creating a missing file adds exactly that new empty file under its name |
| VfsTree.Attach | crates/vfs/src/tree.rs:189-190 | `create_node` under the parent adds the node exactly when the name is new, else it is `AlreadyExists` and nothing changes |
| VfsTree.Insert | crates/vfs/src/tree.rs:185-193 | `insert` of a path without '/' is `NotFound`; it fails with `AlreadyExists` exactly when the path already resolves; on success the path resolves to the node and did not before; any other failure is where the walk to the parent failed |
| VfsDevice.MapPhys | crates/vfs/src/device.rs:30-37 | the default `map_phys` always refuses with `PermissionDenied` |
| VfsDevice.UnmapPhys | crates/vfs/src/device.rs:39-42 | the default `unmap_phys` always refuses with `PermissionDenied` |
| VfsDevice.Span | crates/vfs/src/device.rs:112-134 | a slice access at an offset past the end is exactly the `UnexpectedEOF` case; otherwise it moves at most the requested count, never past the end, and stops short only at the end |
| VfsDevice.OverwrittenIsSplice | crates/vfs/src/device.rs:119-131 | overwriting at an offset is splicing the data in at that offset, the bytes around it kept |
| VfsDevice.OverwriteAdjacent | crates/vfs/src/device.rs:69-82 | two overwrites back to back at adjacent offsets are one overwrite with the joined data |
| VfsDevice.Device.constructor | crates/vfs/src/device.rs:99-110 | a device over the given bytes |
| VfsDevice.Device.Len | crates/vfs/src/device.rs:104-106 | `len` is the slice's length |
| VfsDevice.Device.SetLen | crates/vfs/src/device.rs:108-110 | `set_len` always refuses with `PermissionDenied` |
| VfsDevice.Device.Read | crates/vfs/src/device.rs:112-122 | `read` copies the slice's bytes from the offset into the buffer, as many as `Span` says, leaving the rest of the buffer alone; an offset past the end fails with `UnexpectedEOF` and copies nothing |
| VfsDevice.Device.Write | crates/vfs/src/device.rs:124-156 | `write` through a shared reference always refuses with `PermissionDenied`; otherwise it overwrites the slice at the offset with as many bytes as `Span` says and never grows it |
| VfsDevice.Device.ReadExact | crates/vfs/src/device.rs:46-65 | `read_exact` succeeds exactly when the buffer is empty or the slice holds the whole range, and then fills the buffer with that range; `Interrupted` is retried; otherwise the result is `UnexpectedEOF` |
| VfsDevice.Device.WriteExact | crates/vfs/src/device.rs:69-82 | `write_exact` succeeds exactly when the data is empty or fits the range of a writable slice, and then the whole data lands at the offset; a shared reference gives `PermissionDenied`; running into the end gives `WriteZero`, after writing what fit; an offset past the end gives `UnexpectedEOF` |
| VfsDevice.WriteStep | crates/vfs/src/device.rs:69-82 | each round of `write_exact` extends the overwritten prefix of the data by what that round wrote |
| Windowing.FirstSpace | userspace/hyperion-windowing/src/shared.rs:56-60 | the split point is the first space, with none before it; None exactly when there is no space |
| Windowing.SplitAfterWord | userspace/hyperion-windowing/src/shared.rs:56-60 | a space-free word followed by a space splits off as the type word, the rest kept whole |
| Windowing.WordOfSpaceFree | userspace/hyperion-windowing/src/shared.rs:56-60 | a line without a space is all type word, with empty data |
| Windowing.ParseUnsigned | userspace/hyperion-windowing/src/shared.rs:64-72 | a parsed number never exceeds the type's largest value |
| Windowing.DigitChar | userspace/hyperion-windowing/src/shared.rs:91-94 | each digit character stands for its value |
| Windowing.Show | userspace/hyperion-windowing/src/shared.rs:91-94 | a number's decimal form is non-empty and all digits |
| Windowing.ValueOfShow | userspace/hyperion-windowing/src/shared.rs:91-94 | reading a number's decimal form back gives the number |
| Windowing.ParseShow | userspace/hyperion-windowing/src/shared.rs:64-72 | a number's decimal form parses back to it exactly when it fits the type |
| Windowing.ShowHasNoSpace | userspace/hyperion-windowing/src/shared.rs:91 | a decimal number holds no space, so fields stay separable |
| Windowing.CharFromU32 | userspace/hyperion-windowing/src/shared.rs:72 | `char::from_u32` succeeds with that code point exactly outside the surrogates and below 0x110000 |
| Windowing.EventRoundTrip | userspace/hyperion-windowing/src/shared.rs:55-98 | `Event::parse` inverts the `Display` form of every event |
| Windowing.ParseEvent | userspace/hyperion-windowing/src/shared.rs:55-84 | `Event::parse`: `keyboard CODE STATE` with two bytes, or `text N` with a Unicode scalar value; `EventRoundTrip` shows it inverts `ShowEvent` |
| Windowing.ShowEvent | userspace/hyperion-windowing/src/shared.rs:87-98 | the `Display` form of an event, which `ParseEvent` reads back (`EventRoundTrip`) |
| Windowing.KeyboardRoundTrip | userspace/hyperion-windowing/src/shared.rs:59-91 | a keyboard event's `Display` form parses back to it |
| Windowing.TextRoundTrip | userspace/hyperion-windowing/src/shared.rs:71-94 | a text event's `Display` form parses back to it |
| Windowing.KeyboardNeedsTwoBytes | userspace/hyperion-windowing/src/shared.rs:59-70 | a keyboard event is parsed exactly when the rest splits at a space into two numbers that fit a u8 |
| Windowing.TextNeedsScalarValue | userspace/hyperion-windowing/src/shared.rs:71-78 | a text event is parsed exactly when the rest is a u32 that is a Unicode scalar value, which becomes the character |
| Windowing.UnknownEvent | userspace/hyperion-windowing/src/shared.rs:79-82 | an unknown event type gives None |
| Windowing.MessageRoundTrip | userspace/hyperion-windowing/src/shared.rs:11-44 | `Message::parse` inverts the `Display` form of every message |
| Windowing.ParseMessage | userspace/hyperion-windowing/src/shared.rs:11-30 | `Message::parse`: `new_window ID` with a `usize` id, or `event` followed by an event; `MessageRoundTrip` shows it inverts `ShowMessage` |
| Windowing.ShowMessage | userspace/hyperion-windowing/src/shared.rs:33-44 | the `Display` form of a message, which `ParseMessage` reads back (`MessageRoundTrip`) |
| Windowing.NewWindowRoundTrip | userspace/hyperion-windowing/src/shared.rs:16-37 | a new-window message's `Display` form parses back to it |
| Windowing.NewWindowParse | userspace/hyperion-windowing/src/shared.rs:16-23 | a `new_window` line is the window whose id is the rest as a usize, or None |
| Windowing.EventMessageParse | userspace/hyperion-windowing/src/shared.rs:24 | an `event` line is the event the rest parses to, or None |
| Windowing.UnknownMessage | userspace/hyperion-windowing/src/shared.rs:25-28 | an unknown message type gives None |
| Windowing.NewWindowNeedsId | userspace/hyperion-windowing/src/shared.rs:13-20 | `new_window` with no or an empty id gives None |
| Windowing.RequestRoundTrip | userspace/hyperion-windowing/src/shared.rs:107-127 | `Request::parse` inverts `Display`, and ignores whatever follows the type word |
| Windowing.ParseRequest | userspace/hyperion-windowing/src/shared.rs:107-118 | `Request::parse`: `new_window` as the type word, whatever follows; `RequestRoundTrip` and `UnknownRequest` pin it down |
| Windowing.ShowRequest | userspace/hyperion-windowing/src/shared.rs:121-127 | the `Display` form of a request, which `ParseRequest` reads back (`RequestRoundTrip`) |
| Windowing.UnknownRequest | userspace/hyperion-windowing/src/shared.rs:111-116 | an unknown request type gives None |

## Left out

- Concurrency: atomics, spin locks, mutexes and condition variables are modelled one call at a time, with no interleaving. This covers the ring buffer, the pipe, the futex queues, the atomic map, the atomic bitmap, the frame and page allocators, the mouse decoder and the slab counters. Compare-and-swap loops are modelled as succeeding on the first try.
- I/O, hardware and the clock: the current time (`now`), the value of a futex word, register reads and the answers of a reader or writer are parameters or fields. The model does not read memory-mapped registers, ports or the framebuffer.
- Ring: the element storage is an `array` of the buffer's capacity whose cells outside the used run are unconstrained (they hold a default value when the buffer is made); a ghost sequence `Contents` lists the live items, oldest first. `MaybeUninit` memory, raw pointers and the `unsafe` copies are not modelled.
- Pipe: a wait on the condition variable becomes the `Blocked` outcome, after which the caller calls again. The global `send`/`recv` by process id and the process table lookups are not part of this model.
- Futex.Wait: `wait_next_task` checks for a cancel each time it looks for another task; the model takes the last such observation as one value (`beforeSwitch`).
- Timer: the waker is a number. Waking it only records that number; the scheduler's run queue is not part of this model.
- MinQueue: `BinaryHeap` is modelled by its observable behaviour, as a sequence sorted by key. The heap layout in memory is left out.
- CStdlib: `abs` and `atoi` follow a release build, where `c_int` arithmetic wraps; a debug build panics instead on `abs(i32::MIN)` and on an `atoi` value outside the 32-bit range.
- SyscallErr.NegIsize: `-(x as isize)` at crates/syscall/src/err.rs:56 and :68 wraps here, as in a release build; a debug build panics on isize::MIN instead, that is when `decode` is given 2^63 or `encode` an error code of 2^63. The model gives isize::MIN back, so `Decode(2^63)` is `Ok(2^63)`.
- StaticStr.Utf8Error: only `valid_up_to` is kept; `Utf8Error::error_len` (the length of the bad sequence, or none at a truncated end) is not modelled. The same holds for the `Utf8Error` that `Acpi.ParseHeader` reports for a bad identifier.
- Windowing: the `eprintln!` diagnostics that `Message::parse`, `Event::parse` and `Request::parse` print before returning None are left out (output to the console); only the None is modelled.
- Hpet.NanosToDeadline: the `u64` overflow of the addition is not modelled, because the counter is far from 2^64 in any reachable state.
- Hpet: the floating-point period accessors and the memory-mapped register layout are left out.
- Interrupts.Slot: a vector below 0x20 panics in the source and is excluded by a `requires`.
- Interrupts: the handler dispatch through `interrupt_handler`, the end-of-interrupt callback and the `IntController` setup are left out, because they call into hardware drivers that are not part of this model.
- Riscv64Vmm.AlignUp: a non-power-of-two alignment and an overflowing round-up panic in the source and are excluded by `requires`.
- Riscv64Vmm.AlignDown: a non-power-of-two alignment panics in the source and is excluded by a `requires`.
- Riscv64Vmm: the panicking constructors `PhysAddr::new`/`VirtAddr::new`, `Add`, the pointer conversions and the creation and allocation of page tables in memory are left out.
- FuturesMap: `AsyncHashMap` `get`/`insert` are left out. They are `async`, pick a segment with a randomly seeded blake3 hasher and hold a lock through a `Ref` guard.
- FuturesMap: the key and value type parameters of the map are two fixed but unspecified types, `Key` (compared only for equality) and `Value`; nothing in the model depends on what they are.
- FuturesMap.Segment.Insert: requires that equal keys have equal hashes, because in the source the hash is a function of the key.
- AtomicMaps: `keys`, `values`, the `Drop` impl and the compare-and-swap retry loop of `insert` are left out.
- SlabAlloc: the internals of one `Slab` (its lock-free free list, the block addresses it hands out and the block chain written by `allocate_chain`) are left out. Whether a slab allocation finds its free list empty is the `refill` parameter of `SlabAllocator.Alloc`, and the slab's block pointer is not returned.
- SlabLocal: `LocalAllocator` `alloc`/`dealloc` are `todo!()` in the source and are not modelled.
- Rle: the heap capacity of 64 segments ("memory too segmented") is not modelled; the segment list is unbounded.
- Rle.RleMemory.Remove: the map's normal form is promised with the corrected `fixup`; with `fixup` as written (see Findings) a removal can leave a trailing reserved segment. The meaning of the map (`TypeAt`) is the same under both.
- Rle.RleMemory.Alloc: as for `Remove`, normality holds only with the corrected `fixup`; the reserved page and the returned address do not depend on it.
- Rle.RleMemory.Insert: as for `Remove`, normality is stated for the corrected `fixup`.
- Pmm: physical memory is one value per page, with no byte contents.
- FrameAlloc: page contents are one value per page, with no byte contents.
- FrameAlloc.FrameAllocator.FreeNoOverwrite: `used` is an unbounded integer here. The source's `used` is an `AtomicUsize` whose `fetch_sub` wraps, so once frees of pages the uncounted `alloc` never added (see Findings) take it below zero, the source holds a value near 2^64 and `free_mem`'s `usable - used` underflows (a panic in a debug build). The model shows a negative `used` instead, and `FreeMem` requires `0 <= used <= usable`. The same holds for `FrameAllocator.Free`, which calls it.
- FrameAlloc.FrameAllocator.ColdCopyFork: its `used == old(used) + PAGE_SIZE` comes from the corrected `alloc`; with `alloc` as written (see Findings) `used` is unchanged by a copy.
- FrameAlloc.FrameAllocator.Fork: on the copy path `used` grows by one page only through the corrected `alloc`; as written it stays.
- FrameAlloc.FrameAllocator.ForkPageFault: on the copy path `used` grows by one page only through the corrected `alloc`; as written it stays.
- Buf: `Buffer::with_slice` and `BufferMut::with_slice_mut` activate a page map and hand the raw memory to a closure; only the buffer's pointer, length and `is_empty` are modelled.
- Buf.RangeInfo: a range that contains no page boundary (its start rounds up past where its end rounds down, as in 0x1001..0x1005) underflows in the source's `first_page_size` and `full_pages` computations and is excluded by a `requires`.
- Buf.RangeInfoAsWritten: the same range without a page boundary underflows in the source and is excluded by a `requires`.
- Kshell.Term.CursorPrevAsWritten: with width 1 the source's `cursor_prev` underflows and panics; this is excluded by a `requires`.
- Kshell: drawing glyphs on the framebuffer is left out. `flush` reports the cell indices it would redraw.
- Tar.ParseTar: a header without the GNU tar magic panics in the source and is excluded by a `requires`.
- Tar: gunzip (a foreign library) is left out, and so are the panics on names or sizes that are not UTF-8. Names are bytes.
- Prefix: the floating-point `NumberFmt` impls are left out.
- Color: `from_u32` and `as_u32` are modelled with the little-endian byte order of the target.
- MouseDecode: a packet is discarded only when both overflow bits are set, as the code does.
- Log: the logger plumbing (the serial and video sinks and the macros) is left out.
- Paths: the unit test at crates/vfs/src/path.rs:200-211 expects a leading "/" component that `iter` does not yield. The model follows the code.
- LibIo.BufReader.Consume: requires `used <= end`, because otherwise the source underflows or panics.
- LibIo.BufWriter.Write: requires the writer not to be broken, because the source asserts that it is not.
- LibIo: `read_line`, `append_to_string`, `write_fmt` and the `FmtWrite` adapter are left out. The inner reader and writer are scripted by their answers.
- VfsDevice: `Interrupted` is an environment counter on the device. The byte-slice impls themselves never return it.
- Ramdisk: `map_phys`/`unmap_phys`, `StaticRoFile`, the `Drop` impls and `nodes()` are left out. `read` returns a short count at the end of the frame holding the offset, as the source does: one call never crosses into the next frame.
- VfsTree: every directory is the RAM-disk directory; the source walks `dyn DirectoryDevice`, so the failure cases of `Attach` and `Find` are those of the RAM-disk directory only, and other directory devices are not part of this model.
- VfsTree: the `install_dev*` helpers and the `insert_file`/`insert_dir` wrappers are left out. They only combine the modelled walks with a node constructor.
- Devicetree: the `Display` impls of `Stringlist` and `Property` are left out, and so are the `Reg`, `Ranges` and `DmaRanges` property variants. Of `print_tree` only the token walk, where it ends and its faults are modelled; the text it prints is left out.
- Devicetree: a read outside the blob becomes `Truncated` and a panic becomes `Invalid`. A `reg` property with zero address and size cells, on which the source loops forever, becomes `Hangs`.
- Devicetree: callbacks are modelled as the list of values they would receive. A NOP token (4) ends the token stream, as in the source, although section 5.4.1 of the Devicetree Specification says it should be skipped.
- Devicetree: the blob is assumed to start on a 4-byte boundary. `usize` casts are not modelled. `usable_memory` builds its map after both walks; the map is local, so the order is not observable.

## Findings

| source | as written | input that shows it | evidently intended | confidence | as-written member | corrected member |
|---|---|---|---|---|---|---|
| crates/mem/src/frame_alloc.rs:296-319 | `alloc` never adds a page to `used`, but `free` subtracts one | allocating one page and freeing it leaves `used` one page lower than before | `alloc` counts the page in `used`, so an allocation and its free leave `used` unchanged | not executed | FrameAlloc.FrameAllocator.AllocUncounted | FrameAlloc.FrameAllocator.Alloc |
| crates/util/src/rle.rs:226-249 | `fixup` pops one trailing reserved segment before merging neighbours | segments [4 KiB reserved, 4 KiB reserved] (left when the usable page behind a reserved page is removed) keep one reserved segment at the end, where `end_addr` asserts | merge first, then drop the trailing reserved segment, so the map never ends in reserved memory | not executed | Rle.RleMemory.FixupAsWritten | Rle.RleMemory.Fixup |
| crates/vfs/src/path.rs:82-84 | `to_absolute` calls `working_dir.pop()` on ".." and `pop` removes only up to the trailing '/' that `join` left | "../.." resolved from "/a/b/c" gives "/a/b/" | each ".." drops one directory name, giving "/a/" | not executed | Paths.DoubleDotDotCounterexample | Paths.DoubleDotDotIntended |
| crates/color/src/lib.rs:56-58 | the first hex digit of a pair becomes the low nibble | "#141414" parses to 0x41 in every channel | the first digit is the high nibble, giving 0x14 | not executed | Color.NibbleOrderCounterexample | Color.IntendedRoundTrip |
| crates/color/src/lib.rs:48-54 | `parse_hex_char` returns an upper-case letter unchanged (b'F' stays 0x46), and `parse_byte` ORs it in as if it were a nibble | "#00FFFF" parses to green and blue 0x66 (0x46 OR 0x60) | both letter cases read as the same digit, giving cyan | not executed | Color.UpperCaseCounterexample | Color.IntendedExamples |
| crates/mem/src/buf.rs:223-257 | the first partial page's size is measured to the inner end, not the inner start | the page-aligned range 0x1000..0x3000 yields an empty first piece, so the pieces outnumber the pages | the first piece runs from `beg` to the first page boundary and is never empty | not executed | Buf.PageSplitEmptyPiece | Buf.PageSplitCorrect |
| crates/mem/src/buf.rs:180-189 | `PageIter::next` from a page-aligned position yields the empty piece up to that same position | any iterator whose position is page-aligned and before the end returns empty pieces forever | each step yields the piece up to the next page boundary after the position | not executed | Buf.StepStalls | Buf.Drain |
| crates/kshell/src/term.rs:82-92 | from column 0, `cursor_prev` sets the column to `width - 1` and then decrements it again | from (0, 1) on a grid of width 80 the cursor lands on (78, 0), skipping (79, 0) | the cursor moves to the last column of the previous row | not executed | Kshell.PrevAsWrittenSkipsCell | Kshell.PrevIsPreviousCell |
| crates/vfs/src/ramdisk.rs:199-235 | the offset into the frames is never advanced past the pages already walked, and pages appended when the frames run out are filled from their start | writing [1] at offset 5 of an empty file stores the byte at offset 0, and byte 5 reads 0 | the bytes land at the offset they were written to | not executed | Ramdisk.WriteLandsAtPageStart | Ramdisk.WriteContent |
| crates/libstd/src/io/mod.rs:243-259 | each retry of `flush` writes `&self.buf` from its start again, though the front was already taken | a writer that takes 1 byte of [1, 2] on its first call ends up with [1, 1, 2] | each retry sends only the part not yet taken | not executed | LibIo.FlushResendsFront | LibIo.BufWriter.Flush |
