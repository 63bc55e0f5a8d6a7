/**
 * The flattened devicetree reader: the blob header, the memory reservation
 * block, the structure-block token stream and the walks over it that find
 * the memory and reserved-memory nodes, ending in the usable physical
 * memory map (an `Rle.RleMemory`).
 *
 * The blob is a byte sequence; every position is an offset into it, and the
 * blob itself starts on a 4-byte boundary, so aligning an offset aligns the
 * address. A read past the end of the blob, which the kernel does not
 * guard against, is the fault `Truncated`; a panic is the fault `Invalid`.
 */
module Devicetree {
  import opened Common
  import StaticStr
  import Rle

  const FDT_MAGIC: nat := 0xd00dfeed
  const FDT_BEGIN_NODE: nat := 1
  const FDT_END_NODE: nat := 2
  const FDT_PROP: nat := 3
  /** Declared by the kernel but never matched: it ends the stream like any other code. */
  const FDT_NOP: nat := 4
  const FDT_END: nat := 9

  /** Size of the header: ten big-endian u32 fields. */
  const HEADER_SIZE: nat := 40

  datatype Fault =
    | Truncated  // a read past the end of the blob
    | Invalid    // a panic: "invalid device tree", an unwrap, a split_at, a todo!
    | Hangs      // a `reg` walk with zero address and size cells never ends
    | NotADtb    // the magic check of `Fdt::read`

  // ---------------------------------------------------------------------
  // Big-endian integers

  function Pow256(n: nat): (p: nat)
    ensures p > 0
  {
    if n == 0 then 1 else 256 * Pow256(n - 1)
  }

  lemma {:induction false} Pow256Monotone(m: nat, n: nat)
    requires m <= n
    ensures Pow256(m) <= Pow256(n)
    decreases n
  {
    if m < n {
      Pow256Monotone(m, n - 1);
    }
  }

  /** The unsigned integer whose big-endian bytes are `be`. */
  function BeValue(be: seq<u8>): (v: nat)
    ensures v < Pow256(|be|)
    decreases |be|
  {
    if |be| == 0 then 0 else BeValue(be[..|be| - 1]) * 256 + be[|be| - 1]
  }

  /** The `n` low bytes of `v`, most significant first. */
  function BeBytes(v: nat, n: nat): (b: seq<u8>)
    ensures |b| == n
  {
    if n == 0 then [] else BeBytes(v / 256, n - 1) + [v % 256]
  }

  lemma {:induction false} BeRoundTrip(v: nat, n: nat)
    requires v < Pow256(n)
    ensures BeValue(BeBytes(v, n)) == v
  {
    if n > 0 {
      var front := BeBytes(v / 256, n - 1);
      assert v / 256 < Pow256(n - 1);
      BeRoundTrip(v / 256, n - 1);
      assert (front + [v % 256])[..n - 1] == front;
    }
  }

  lemma {:induction false} BeBytesOfValue(be: seq<u8>)
    ensures BeBytes(BeValue(be), |be|) == be
    decreases |be|
  {
    if |be| > 0 {
      var front := be[..|be| - 1];
      var v := BeValue(be);
      assert v / 256 == BeValue(front) && v % 256 == be[|be| - 1];
      BeBytesOfValue(front);
      assert be == front + [be[|be| - 1]];
    }
  }

  /** `be_to_int`: the big-endian fold, refused (`todo!`) beyond the 8 bytes of a usize. */
  method BeToInt(be: seq<u8>) returns (r: Result<nat, Fault>)
    ensures r.Ok? <==> |be| <= 8
    ensures r.Ok? ==> r.value == BeValue(be) && r.value <= USIZE_MAX
  {
    if |be| > 8 {
      return Err(Invalid);
    }
    var val: nat := 0;
    for i := 0 to |be|
      invariant val == BeValue(be[..i])
    {
      assert be[..i + 1][..i] == be[..i];
      val := val * 256 + be[i];
    }
    assert be[..|be|] == be;
    Pow256Monotone(|be|, 8);
    return Ok(val);
  }

  // ---------------------------------------------------------------------
  // Header

  datatype FdtHeader = FdtHeader(
    magic: nat, totalsize: nat, offDtStruct: nat, offDtStrings: nat, offMemRsvmap: nat,
    version: nat, lastCompVersion: nat, bootCpuidPhys: nat, sizeDtStrings: nat, sizeDtStruct: nat)

  datatype Fdt = Fdt(blob: seq<u8>, header: FdtHeader)

  /** The `i`-th big-endian u32 of the blob. */
  function Word(blob: seq<u8>, i: nat): nat
    requires 4 * i + 4 <= |blob|
  {
    BeValue(blob[4 * i..4 * i + 4])
  }

  /** `FdtHeader::read`: the ten header fields, byte-swapped from big-endian. */
  function ReadHeader(blob: seq<u8>): (h: FdtHeader)
    requires HEADER_SIZE <= |blob|
    ensures forall i :: 0 <= i < 10 ==> Fields(h)[i] == Word(blob, i) <= U32_MAX
  {
    FdtHeader(Word(blob, 0), Word(blob, 1), Word(blob, 2), Word(blob, 3), Word(blob, 4),
              Word(blob, 5), Word(blob, 6), Word(blob, 7), Word(blob, 8), Word(blob, 9))
  }

  function Fields(h: FdtHeader): seq<nat>
  {
    [h.magic, h.totalsize, h.offDtStruct, h.offDtStrings, h.offMemRsvmap,
     h.version, h.lastCompVersion, h.bootCpuidPhys, h.sizeDtStrings, h.sizeDtStruct]
  }

  /** Words laid out big-endian one after the other. */
  function EncodeWords(ws: seq<nat>): (b: seq<u8>)
    ensures |b| == 4 * |ws|
  {
    if ws == [] then [] else BeBytes(ws[0], 4) + EncodeWords(ws[1..])
  }

  lemma {:induction false} WordOfEncoding(ws: seq<nat>, rest: seq<u8>, i: nat)
    requires i < |ws|
    ensures (EncodeWords(ws) + rest)[4 * i..4 * i + 4] == BeBytes(ws[i], 4)
  {
    var b := EncodeWords(ws) + rest;
    if i == 0 {
      assert b[..4] == BeBytes(ws[0], 4);
    } else {
      WordOfEncoding(ws[1..], rest, i - 1);
      assert b[4..] == EncodeWords(ws[1..]) + rest;
      assert b[4 * i..4 * i + 4] == b[4..][4 * (i - 1)..4 * (i - 1) + 4];
    }
  }

  /** Reading back an encoded header gives the same fields. */
  lemma HeaderRoundTrip(h: FdtHeader, rest: seq<u8>)
    requires forall i :: 0 <= i < 10 ==> Fields(h)[i] <= U32_MAX
    ensures ReadHeader(EncodeWords(Fields(h)) + rest) == h
  {
    var blob := EncodeWords(Fields(h)) + rest;
    forall i | 0 <= i < 10
      ensures Word(blob, i) == Fields(h)[i]
    {
      WordOfEncoding(Fields(h), rest, i);
      BeRoundTrip(Fields(h)[i], 4);
    }
    assert Word(blob, 0) == h.magic && Word(blob, 1) == h.totalsize && Word(blob, 2) == h.offDtStruct;
    assert Word(blob, 3) == h.offDtStrings && Word(blob, 4) == h.offMemRsvmap && Word(blob, 5) == h.version;
    assert Word(blob, 6) == h.lastCompVersion && Word(blob, 7) == h.bootCpuidPhys;
    assert Word(blob, 8) == h.sizeDtStrings && Word(blob, 9) == h.sizeDtStruct;
  }

  /** `Fdt::read`: the header, refused unless the magic is 0xd00dfeed. */
  function Read(blob: seq<u8>): (r: Result<Fdt, Fault>)
    ensures r.Ok? ==> r.value.blob == blob && r.value.header.magic == FDT_MAGIC
    ensures r.Err? ==> r.error == Truncated || r.error == NotADtb
  {
    if |blob| < HEADER_SIZE then Err(Truncated)
    else
      var h := ReadHeader(blob);
      if h.magic != FDT_MAGIC then Err(NotADtb) else Ok(Fdt(blob, h))
  }

  const MAGIC_BYTES: seq<u8> := [0xd0, 0x0d, 0xfe, 0xed]

  /** A whole header is accepted exactly when it starts with the magic bytes d0 0d fe ed. */
  lemma ReadChecksMagic(blob: seq<u8>)
    requires HEADER_SIZE <= |blob|
    ensures Read(blob).Ok? <==> blob[..4] == MAGIC_BYTES
  {
    assert blob[0..4] == blob[..4];
    BeBytesOfValue(blob[..4]);
    BeRoundTrip(FDT_MAGIC, 4);
    assert BeBytes(FDT_MAGIC, 4) == MAGIC_BYTES;
  }

  // ---------------------------------------------------------------------
  // Memory reservation block

  /** An (address, size) pair: a reserve-map entry or a `reg` element. */
  datatype Span = Span(address: nat, size: nat)

  function EntryAt(blob: seq<u8>, at: nat): Span
    requires at + 16 <= |blob|
  {
    Span(BeValue(blob[at..at + 8]), BeValue(blob[at + 8..at + 16]))
  }

  /** `iter_reserved_memory`: the 16-byte entries from `at` up to the first (0, 0). */
  function ReservedFrom(blob: seq<u8>, at: nat): (r: Result<seq<Span>, Fault>)
    ensures r.Err? ==> r.error == Truncated
    decreases |blob| - at
  {
    if |blob| < at + 16 then Err(Truncated)
    else if EntryAt(blob, at) == Span(0, 0) then Ok([])
    else match ReservedFrom(blob, at + 16)
      case Err(e) => Err(e)
      case Ok(rest) => Ok([EntryAt(blob, at)] + rest)
  }

  /** The entries read are the records at `at`, `at` + 16, ..., none of them (0, 0), and the next one is (0, 0). */
  predicate ReserveMapIs(blob: seq<u8>, at: nat, es: seq<Span>)
  {
    && at + 16 * |es| + 16 <= |blob|
    && (forall i :: 0 <= i < |es| ==> EntryAt(blob, at + 16 * i) == es[i] && es[i] != Span(0, 0))
    && EntryAt(blob, at + 16 * |es|) == Span(0, 0)
  }

  lemma {:induction false} ReservedFromShape(blob: seq<u8>, at: nat)
    requires ReservedFrom(blob, at).Ok?
    ensures ReserveMapIs(blob, at, ReservedFrom(blob, at).value)
    decreases |blob| - at
  {
    var es := ReservedFrom(blob, at).value;
    if es != [] {
      ReservedFromShape(blob, at + 16);
      var rest := ReservedFrom(blob, at + 16).value;
      assert es == [EntryAt(blob, at)] + rest;
      forall i | 1 <= i < |es|
        ensures EntryAt(blob, at + 16 * i) == es[i] && es[i] != Span(0, 0)
      {
        assert at + 16 * i == at + 16 + 16 * (i - 1);
        assert es[i] == rest[i - 1];
      }
      assert at + 16 * |es| == at + 16 + 16 * |rest|;
    }
  }

  lemma {:induction false} ShapeReservedFrom(blob: seq<u8>, at: nat, es: seq<Span>)
    requires ReserveMapIs(blob, at, es)
    ensures ReservedFrom(blob, at) == Ok(es)
    decreases |es|
  {
    if es != [] {
      assert EntryAt(blob, at + 16 * 0) == es[0];
      forall i | 0 <= i < |es[1..]|
        ensures EntryAt(blob, at + 16 + 16 * i) == es[1..][i] && es[1..][i] != Span(0, 0)
      {
        assert at + 16 + 16 * i == at + 16 * (i + 1);
      }
      assert at + 16 + 16 * |es[1..]| == at + 16 * |es|;
      ShapeReservedFrom(blob, at + 16, es[1..]);
      assert [es[0]] + es[1..] == es;
    }
  }

  /** The reserve map read from `at` is exactly the run of non-(0, 0) records ended by a (0, 0) one. */
  lemma ReserveMapShape(blob: seq<u8>, at: nat, es: seq<Span>)
    ensures ReservedFrom(blob, at) == Ok(es) <==> ReserveMapIs(blob, at, es)
  {
    if ReservedFrom(blob, at) == Ok(es) {
      ReservedFromShape(blob, at);
    }
    if ReserveMapIs(blob, at, es) {
      ShapeReservedFrom(blob, at, es);
    }
  }

  // ---------------------------------------------------------------------
  // Structure block tokens

  datatype Token = BeginNode(name: seq<u8>) | Prop(name: seq<u8>, val: seq<u8>) | EndNode

  /** The outcome of decoding one token: the token (None ends the stream) and where the next one starts. */
  datatype Step = Got(tok: Option<Token>, after: nat) | Cut

  /** `align`: round up to a multiple of 4. */
  function Align4(p: nat): (r: nat)
    ensures r % 4 == 0 && p <= r < p + 4
  {
    (p + 3) / 4 * 4
  }

  /** The position of the NUL that ends the C string at `p`, if there is one in the blob. */
  function CStrEnd(blob: seq<u8>, p: nat): (z: Option<nat>)
    ensures z.Some? ==> p <= z.value < |blob| && blob[z.value] == 0
    decreases |blob| - p
  {
    if |blob| <= p then None else if blob[p] == 0 then Some(p) else CStrEnd(blob, p + 1)
  }

  /** CStrEnd finds the first NUL from `p`, and None means there is no NUL before the end of the blob. */
  lemma {:induction false} CStrEndFirst(blob: seq<u8>, p: nat)
    ensures CStrEnd(blob, p).Some? ==> forall j :: p <= j < CStrEnd(blob, p).value ==> blob[j] != 0
    ensures CStrEnd(blob, p).None? ==> forall j :: p <= j < |blob| ==> blob[j] != 0
    decreases |blob| - p
  {
    if |blob| > p && blob[p] != 0 {
      CStrEndFirst(blob, p + 1);
    }
  }

  lemma {:induction false} CStrEndIs(blob: seq<u8>, p: nat, z: nat)
    requires p <= z < |blob| && blob[z] == 0
    requires forall j :: p <= j < z ==> blob[j] != 0
    ensures CStrEnd(blob, p) == Some(z)
    decreases z - p
  {
    if p < z {
      CStrEndIs(blob, p + 1, z);
    }
  }

  /** `to_str().unwrap_or("<invalid-utf8>")`. */
  function NameOf(bytes: seq<u8>): (s: seq<u8>)
    ensures StaticStr.ValidUtf8(bytes) ==> s == bytes
  {
    if StaticStr.ValidUtf8(bytes) then bytes else Bytes("<invalid-utf8>")
  }

  /** The rest of a BeginNode token from `at`: the NUL-terminated name, padded to 4 bytes. */
  function DecodeBegin(blob: seq<u8>, at: nat): (d: Step)
    ensures d.Got? ==> at < d.after <= |blob| + 3
    ensures d.Got? && at % 4 == 0 ==> d.after % 4 == 0
    ensures d.Got? ==> d.tok.Some?
  {
    match CStrEnd(blob, at)
    case None => Cut
    case Some(z) => Got(Some(BeginNode(NameOf(blob[at..z]))), Align4(z + 1))
  }

  /** The rest of a Prop token from `at`: length, name offset into the strings block, value padded to 4 bytes. */
  function DecodeProp(blob: seq<u8>, strings: nat, at: nat): (d: Step)
    ensures d.Got? ==> at < d.after <= |blob| + 3
    ensures d.Got? && at % 4 == 0 ==> d.after % 4 == 0
    ensures d.Got? ==> d.tok.Some?
  {
    if |blob| < at + 8 then Cut
    else
      var len := BeValue(blob[at..at + 4]);
      var nameoff := BeValue(blob[at + 4..at + 8]);
      match CStrEnd(blob, strings + nameoff)
      case None => Cut
      case Some(z) =>
        if |blob| < at + 8 + len then Cut
        else Got(Some(Prop(NameOf(blob[strings + nameoff..z]), blob[at + 8..at + 8 + len])), Align4(at + 8 + len))
  }

  /** Decoding the token at `pos` (`StructureParser::next`). */
  function Decode(blob: seq<u8>, strings: nat, pos: nat): (d: Step)
    ensures d.Got? ==> pos + 4 <= d.after <= |blob| + 3
    ensures d.Got? && pos % 4 == 0 ==> d.after % 4 == 0
    ensures d.Got? && d.tok.None? ==> d.after == pos + 4
  {
    if |blob| < pos + 4 then Cut
    else
      var code := BeValue(blob[pos..pos + 4]);
      if code == FDT_BEGIN_NODE then DecodeBegin(blob, pos + 4)
      else if code == FDT_END_NODE then Got(Some(EndNode), pos + 4)
      else if code == FDT_PROP then DecodeProp(blob, strings, pos + 4)
      else Got(None, pos + 4)
  }

  /** Token codes: 2 is EndNode, and every code other than 1, 2 and 3 (FDT_NOP and FDT_END included) ends the stream. */
  lemma TokenCodes(blob: seq<u8>, strings: nat, pos: nat)
    requires pos + 4 <= |blob|
    ensures Decode(blob, strings, pos) == Got(Some(EndNode), pos + 4) <==> BeValue(blob[pos..pos + 4]) == FDT_END_NODE
    ensures Decode(blob, strings, pos) == Got(None, pos + 4) <==> BeValue(blob[pos..pos + 4]) !in {FDT_BEGIN_NODE, FDT_END_NODE, FDT_PROP}
    ensures BeValue(blob[pos..pos + 4]) in {FDT_NOP, FDT_END} ==> Decode(blob, strings, pos).tok.None?
  {
  }

  /** A node header as laid out in the blob: code 1, the name up to the NUL at `z`, padding to 4 bytes. */
  lemma BeginNodeLayout(blob: seq<u8>, strings: nat, pos: nat, z: nat)
    requires pos + 4 <= z < |blob| && blob[z] == 0
    requires blob[pos..pos + 4] == BeBytes(FDT_BEGIN_NODE, 4)
    requires forall j :: pos + 4 <= j < z ==> blob[j] != 0
    requires StaticStr.ValidUtf8(blob[pos + 4..z])
    ensures Decode(blob, strings, pos) == Got(Some(BeginNode(blob[pos + 4..z])), Align4(z + 1))
  {
    BeRoundTrip(FDT_BEGIN_NODE, 4);
    CStrEndIs(blob, pos + 4, z);
    assert Decode(blob, strings, pos) == DecodeBegin(blob, pos + 4);
  }

  /** A property as laid out in the blob: code 3, length, name offset, value, padding to 4 bytes. */
  lemma PropLayout(blob: seq<u8>, strings: nat, pos: nat, nameoff: nat, z: nat, val: seq<u8>)
    requires |val| <= U32_MAX && nameoff <= U32_MAX
    requires pos + 12 + |val| <= |blob|
    requires blob[pos..pos + 4] == BeBytes(FDT_PROP, 4)
    requires blob[pos + 4..pos + 8] == BeBytes(|val|, 4)
    requires blob[pos + 8..pos + 12] == BeBytes(nameoff, 4)
    requires blob[pos + 12..pos + 12 + |val|] == val
    requires CStrEnd(blob, strings + nameoff) == Some(z)
    requires StaticStr.ValidUtf8(blob[strings + nameoff..z])
    ensures Decode(blob, strings, pos) == Got(Some(Prop(blob[strings + nameoff..z], val)), Align4(pos + 12 + |val|))
  {
    BeRoundTrip(FDT_PROP, 4);
    BeRoundTrip(|val|, 4);
    BeRoundTrip(nameoff, 4);
    PropWords(blob, strings, pos, nameoff, z, val);
  }

  /** PropLayout with the three header words given by value. */
  lemma PropWords(blob: seq<u8>, strings: nat, pos: nat, nameoff: nat, z: nat, val: seq<u8>)
    requires pos + 12 + |val| <= |blob|
    requires BeValue(blob[pos..pos + 4]) == FDT_PROP
    requires BeValue(blob[pos + 4..pos + 8]) == |val|
    requires BeValue(blob[pos + 8..pos + 12]) == nameoff
    requires blob[pos + 12..pos + 12 + |val|] == val
    requires CStrEnd(blob, strings + nameoff) == Some(z)
    requires StaticStr.ValidUtf8(blob[strings + nameoff..z])
    ensures Decode(blob, strings, pos) == Got(Some(Prop(blob[strings + nameoff..z], val)), Align4(pos + 12 + |val|))
  {
    var at := pos + 4;
    assert BeValue(blob[at..at + 4]) == |val|;
    assert BeValue(blob[at + 4..at + 8]) == nameoff;
    assert blob[at + 8..at + 8 + |val|] == val;
    var name := blob[strings + nameoff..z];
    assert NameOf(name) == name;
    assert Align4(at + 8 + |val|) == Align4(pos + 12 + |val|);
    assert DecodeProp(blob, strings, at) == Got(Some(Prop(name, val)), Align4(pos + 12 + |val|));
  }

  /** A bound that drops by at least 4 with every token read. */
  function Measure(blob: seq<u8>, pos: nat): nat
  {
    if pos <= |blob| + 3 then |blob| + 4 - pos else 0
  }

  /** The position after the EndNode that closes `depth` open nodes (`skip_node` starts at depth 1). */
  function Skip(blob: seq<u8>, strings: nat, pos: nat, depth: nat): (r: Result<nat, Fault>)
    requires depth > 0
    ensures r.Ok? ==> pos < r.value
    decreases Measure(blob, pos)
  {
    var d := Decode(blob, strings, pos);
    if d.Cut? then Err(Truncated)
    else if d.tok.None? then Err(Invalid)
    else match d.tok.value
      case BeginNode(_) => Skip(blob, strings, d.after, depth + 1)
      case EndNode => if depth == 1 then Ok(d.after) else Skip(blob, strings, d.after, depth - 1)
      case Prop(_, _) => Skip(blob, strings, d.after, depth)
  }

  function SkipThen(blob: seq<u8>, strings: nat, r: Result<nat, Fault>, depth: nat): Result<nat, Fault>
    requires depth > 0
  {
    match r
    case Err(e) => Err(e)
    case Ok(e) => Skip(blob, strings, e, depth)
  }

  /** Closing n + d open nodes is closing n of them, then d more from there: a nested node is skipped whole. */
  lemma {:induction false} SkipNested(blob: seq<u8>, strings: nat, pos: nat, n: nat, d: nat)
    requires n > 0 && d > 0
    ensures Skip(blob, strings, pos, n + d) == SkipThen(blob, strings, Skip(blob, strings, pos, n), d)
    decreases Measure(blob, pos), 1
  {
    var t := Decode(blob, strings, pos);
    if t.Got? && t.tok.Some? {
      if t.tok.value.BeginNode? {
        SkipNestedBegin(blob, strings, pos, n, d);
      } else if t.tok.value.EndNode? {
        SkipNestedEnd(blob, strings, pos, n, d);
      } else {
        SkipNestedProp(blob, strings, pos, n, d);
      }
    } else {
      assert Skip(blob, strings, pos, n).Err?;
      assert Skip(blob, strings, pos, n + d) == Skip(blob, strings, pos, n);
    }
  }

  /** One step of Skip over a BeginNode: one more node to close. */
  lemma SkipOverBegin(blob: seq<u8>, strings: nat, pos: nat, k: nat)
    requires k > 0
    requires Decode(blob, strings, pos).Got? && Decode(blob, strings, pos).tok.Some?
    requires Decode(blob, strings, pos).tok.value.BeginNode?
    ensures Skip(blob, strings, pos, k) == Skip(blob, strings, Decode(blob, strings, pos).after, k + 1)
  {
  }

  /** SkipNested when the token at `pos` opens a node: one more level to close on both sides. */
  lemma {:induction false} SkipNestedBegin(blob: seq<u8>, strings: nat, pos: nat, n: nat, d: nat)
    requires n > 0 && d > 0
    requires Decode(blob, strings, pos).Got? && Decode(blob, strings, pos).tok.Some?
    requires Decode(blob, strings, pos).tok.value.BeginNode?
    ensures Skip(blob, strings, pos, n + d) == SkipThen(blob, strings, Skip(blob, strings, pos, n), d)
    decreases Measure(blob, pos), 0
  {
    var q := Decode(blob, strings, pos).after;
    SkipOverBegin(blob, strings, pos, n + d);
    SkipOverBegin(blob, strings, pos, n);
    SkipNested(blob, strings, q, n + 1, d);
  }

  /** SkipNested when the token at `pos` closes a node: the inner walk ends there when n is 1. */
  lemma {:induction false} SkipNestedEnd(blob: seq<u8>, strings: nat, pos: nat, n: nat, d: nat)
    requires n > 0 && d > 0
    requires Decode(blob, strings, pos).Got? && Decode(blob, strings, pos).tok.Some?
    requires Decode(blob, strings, pos).tok.value.EndNode?
    ensures Skip(blob, strings, pos, n + d) == SkipThen(blob, strings, Skip(blob, strings, pos, n), d)
    decreases Measure(blob, pos), 0
  {
    var q := Decode(blob, strings, pos).after;
    assert Skip(blob, strings, pos, n + d) == Skip(blob, strings, q, (n - 1) + d);
    if n > 1 {
      assert Skip(blob, strings, pos, n) == Skip(blob, strings, q, n - 1);
      SkipNested(blob, strings, q, n - 1, d);
    } else {
      assert Skip(blob, strings, pos, n) == Ok(q);
    }
  }

  /** SkipNested when the token at `pos` is a property: both walks step over it. */
  lemma {:induction false} SkipNestedProp(blob: seq<u8>, strings: nat, pos: nat, n: nat, d: nat)
    requires n > 0 && d > 0
    requires Decode(blob, strings, pos).Got? && Decode(blob, strings, pos).tok.Some?
    requires Decode(blob, strings, pos).tok.value.Prop?
    ensures Skip(blob, strings, pos, n + d) == SkipThen(blob, strings, Skip(blob, strings, pos, n), d)
    decreases Measure(blob, pos), 0
  {
    var q := Decode(blob, strings, pos).after;
    assert Skip(blob, strings, pos, n + d) == Skip(blob, strings, q, n + d);
    assert Skip(blob, strings, pos, n) == Skip(blob, strings, q, n);
    SkipNested(blob, strings, q, n, d);
  }

  // ---------------------------------------------------------------------
  // Properties

  datatype Property =
    | Compatible(list: seq<u8>)
    | Model(text: seq<u8>)
    | Phandle(handle: nat)
    | Status(text: seq<u8>)
    | AddressCells(cells: nat)
    | SizeCells(cells: nat)
    | VirtualReg(addr: nat)
    | DmaCoherent
    | DmaNonCoherent
    | Name(text: seq<u8>)
    | DeviceType(text: seq<u8>)
    | Other(val: seq<u8>)

  const COMPATIBLE: seq<u8> := Bytes("compatible")
  const MODEL: seq<u8> := Bytes("model")
  const PHANDLE: seq<u8> := Bytes("phandle")
  const STATUS: seq<u8> := Bytes("status")
  const ADDRESS_CELLS: seq<u8> := Bytes("#address-cells")
  const SIZE_CELLS: seq<u8> := Bytes("#size-cells")
  const VIRTUAL_REG: seq<u8> := Bytes("virtual-reg")
  const DMA_COHERENT: seq<u8> := Bytes("dma-coherent")
  const DMA_NONCOHERENT: seq<u8> := Bytes("dma-noncoherent")
  const NAME: seq<u8> := Bytes("name")
  const DEVICE_TYPE: seq<u8> := Bytes("device_type")
  const REG: seq<u8> := Bytes("reg")
  const MEMORY_PREFIX: seq<u8> := Bytes("memory@")
  const RESERVED_MEMORY: seq<u8> := Bytes("reserved-memory")

  /** Properties whose value must be UTF-8 text. */
  predicate IsTextProp(name: seq<u8>)
  {
    name in {COMPATIBLE, MODEL, STATUS, NAME, DEVICE_TYPE}
  }

  /** Properties whose value must be one big-endian u32. */
  predicate IsCellProp(name: seq<u8>)
  {
    name in {PHANDLE, ADDRESS_CELLS, SIZE_CELLS, VIRTUAL_REG}
  }

  /** `Property::from_prop`, whose unwraps panic on a text that is not UTF-8 or a cell that is not 4 bytes. */
  function FromProp(name: seq<u8>, val: seq<u8>): (r: Result<Property, Fault>)
    ensures r.Err? <==> (IsTextProp(name) && !StaticStr.ValidUtf8(val)) || (IsCellProp(name) && |val| != 4)
    ensures r.Err? ==> r.error == Invalid
    ensures r.Ok? && r.value.AddressCells? <==> name == ADDRESS_CELLS && |val| == 4
    ensures r.Ok? && r.value.SizeCells? <==> name == SIZE_CELLS && |val| == 4
    ensures r.Ok? && (r.value.AddressCells? || r.value.SizeCells?) ==> r.value.cells == BeValue(val) <= U32_MAX
    ensures r.Ok? && r.value.Other? ==> !IsTextProp(name) && !IsCellProp(name) && r.value.val == val
  {
    assert SIZE_CELLS[0] == '#' as int && DEVICE_TYPE[0] == 'd' as int && VIRTUAL_REG[0] == 'v' as int;
    if IsTextProp(name) && !StaticStr.ValidUtf8(val) then Err(Invalid)
    else if IsCellProp(name) && |val| != 4 then Err(Invalid)
    else if name == COMPATIBLE then Ok(Compatible(val))
    else if name == MODEL then Ok(Model(val))
    else if name == PHANDLE then Ok(Phandle(BeValue(val)))
    else if name == STATUS then Ok(Status(val))
    else if name == ADDRESS_CELLS then Ok(AddressCells(BeValue(val)))
    else if name == SIZE_CELLS then Ok(SizeCells(BeValue(val)))
    else if name == VIRTUAL_REG then Ok(VirtualReg(BeValue(val)))
    else if name == DMA_COHERENT then Ok(DmaCoherent)
    else if name == DMA_NONCOHERENT then Ok(DmaNonCoherent)
    else if name == NAME then Ok(Name(val))
    else if name == DEVICE_TYPE then Ok(DeviceType(val))
    else Ok(Other(val))
  }

  // ---------------------------------------------------------------------
  // `reg` values

  /** A `reg` value split into (address, size) pairs of `ac` and `sc` cells of 4 bytes each. */
  function RegPairs(val: seq<u8>, ac: nat, sc: nat): (r: Result<seq<Span>, Fault>)
    decreases |val|
  {
    if |val| == 0 then Ok([])
    else if |val| < ac * 4 || |val| - ac * 4 < sc * 4 then Err(Invalid)
    else if 8 < ac * 4 || 8 < sc * 4 then Err(Invalid)
    else if ac + sc == 0 then Err(Hangs)
    else
      var w := (ac + sc) * 4;
      match RegPairs(val[w..], ac, sc)
      case Err(e) => Err(e)
      case Ok(rest) => Ok([Span(BeValue(val[..ac * 4]), BeValue(val[ac * 4..w]))] + rest)
  }

  /** The bytes of a `reg` value holding `ps`. */
  function EncodeReg(ps: seq<Span>, ac: nat, sc: nat): (b: seq<u8>)
  {
    if ps == [] then [] else BeBytes(ps[0].address, 4 * ac) + BeBytes(ps[0].size, 4 * sc) + EncodeReg(ps[1..], ac, sc)
  }

  /** One (address, size) element in front of the rest. */
  lemma RegPairsCons(a: seq<u8>, z: seq<u8>, tail: seq<u8>, ac: nat, sc: nat)
    requires 0 < ac + sc && ac <= 2 && sc <= 2 && |a| == 4 * ac && |z| == 4 * sc
    ensures RegPairs(a + z + tail, ac, sc) == PrependSpans([Span(BeValue(a), BeValue(z))], RegPairs(tail, ac, sc))
  {
    var v := a + z + tail;
    assert v[..ac * 4] == a;
    assert v[ac * 4..(ac + sc) * 4] == z;
    assert v[(ac + sc) * 4..] == tail;
  }

  lemma {:induction false} RegRoundTrip(ps: seq<Span>, ac: nat, sc: nat)
    requires 0 < ac + sc && ac <= 2 && sc <= 2
    requires forall s :: s in ps ==> s.address < Pow256(4 * ac) && s.size < Pow256(4 * sc)
    ensures RegPairs(EncodeReg(ps, ac, sc), ac, sc) == Ok(ps)
  {
    if ps != [] {
      var first, rest := ps[0], ps[1..];
      assert ps == [first] + rest;
      assert first in ps;
      var a := BeBytes(first.address, 4 * ac);
      var z := BeBytes(first.size, 4 * sc);
      var tail := EncodeReg(rest, ac, sc);
      assert EncodeReg(ps, ac, sc) == a + z + tail;
      RegPairsCons(a, z, tail, ac, sc);
      BeRoundTrip(first.address, 4 * ac);
      BeRoundTrip(first.size, 4 * sc);
      RegRoundTrip(rest, ac, sc);
      assert PrependSpans([first], Ok(rest)) == Ok([first] + rest);
    }
  }

  lemma {:induction false} RegEncodes(val: seq<u8>, ac: nat, sc: nat)
    requires RegPairs(val, ac, sc).Ok?
    ensures EncodeReg(RegPairs(val, ac, sc).value, ac, sc) == val
    decreases |val|
  {
    if |val| > 0 {
      var w := (ac + sc) * 4;
      var a, z, tail := val[..ac * 4], val[ac * 4..w], val[w..];
      assert val == a + z + tail;
      RegPairsCons(a, z, tail, ac, sc);
      RegEncodes(tail, ac, sc);
      BeBytesOfValue(a);
      BeBytesOfValue(z);
      var ps := RegPairs(val, ac, sc).value;
      assert ps == [Span(BeValue(a), BeValue(z))] + RegPairs(tail, ac, sc).value;
      assert ps[1..] == RegPairs(tail, ac, sc).value;
    }
  }

  /** With the default two address cells and one size cell, a 12-byte `reg` is one 8-byte address and one 4-byte size. */
  lemma DefaultCellsReg(val: seq<u8>)
    requires |val| == 12
    ensures RegPairs(val, 2, 1) == Ok([Span(BeValue(val[..8]), BeValue(val[8..]))])
  {
    assert val[12..] == [];
    assert val[8..12] == val[8..];
    var one := Span(BeValue(val[..8]), BeValue(val[8..]));
    assert [one] + [] == [one];
  }

  /** The inner `while !val.is_empty()` loop of `parse_memory`: split, decode, report. */
  method SplitReg(val: seq<u8>, ac: nat, sc: nat) returns (r: Result<seq<Span>, Fault>)
    ensures r == RegPairs(val, ac, sc)
  {
    var rest := val;
    var found := [];
    while |rest| != 0
      invariant RegPairs(val, ac, sc) == PrependSpans(found, RegPairs(rest, ac, sc))
      decreases |rest|
    {
      if |rest| < ac * 4 {
        return Err(Invalid);
      }
      var addr := rest[..ac * 4];
      var more := rest[ac * 4..];
      if |more| < sc * 4 {
        return Err(Invalid);
      }
      var size := more[..sc * 4];
      var a := BeToInt(addr);
      if a.Err? {
        return Err(Invalid);
      }
      var s := BeToInt(size);
      if s.Err? {
        return Err(Invalid);
      }
      if ac + sc == 0 {
        // the kernel keeps reporting (0, 0) without consuming anything
        return Err(Hangs);
      }
      assert size == rest[ac * 4..(ac + sc) * 4] && more[sc * 4..] == rest[(ac + sc) * 4..];
      PrependSpansAssoc(found, [Span(a.value, s.value)], RegPairs(more[sc * 4..], ac, sc));
      found := found + [Span(a.value, s.value)];
      rest := more[sc * 4..];
    }
    assert found + [] == found;
    return Ok(found);
  }

  function PrependSpans(xs: seq<Span>, r: Result<seq<Span>, Fault>): (p: Result<seq<Span>, Fault>)
    ensures xs == [] ==> p == r
  {
    match r
    case Err(e) => Err(e)
    case Ok(ys) => assert xs == [] ==> xs + ys == ys; Ok(xs + ys)
  }

  lemma PrependSpansAssoc(xs: seq<Span>, ys: seq<Span>, r: Result<seq<Span>, Fault>)
    ensures PrependSpans(xs, PrependSpans(ys, r)) == PrependSpans(xs + ys, r)
  {
    if r.Ok? {
      assert xs + (ys + r.value) == xs + ys + r.value;
    }
  }

  // ---------------------------------------------------------------------
  // Walks over the structure block

  /** The regions a walk reported and the position after its closing EndNode. */
  datatype Walk = Walk(regions: seq<Span>, end: nat)

  function Prepend(xs: seq<Span>, r: Result<Walk, Fault>): (p: Result<Walk, Fault>)
    ensures p.Ok? <==> r.Ok?
    ensures p.Ok? ==> p.value.end == r.value.end
    ensures xs == [] ==> p == r
  {
    match r
    case Err(e) => Err(e)
    case Ok(w) => assert xs == [] ==> xs + w.regions == w.regions; Ok(Walk(xs + w.regions, w.end))
  }

  lemma PrependAssoc(xs: seq<Span>, ys: seq<Span>, r: Result<Walk, Fault>)
    ensures Prepend(xs, Prepend(ys, r)) == Prepend(xs + ys, r)
  {
    if r.Ok? {
      assert xs + (ys + r.value.regions) == xs + ys + r.value.regions;
    }
  }

  predicate IsMemoryNode(name: seq<u8>)
  {
    |MEMORY_PREFIX| <= |name| && name[..|MEMORY_PREFIX|] == MEMORY_PREFIX
  }

  /** `parse_memory` and `parse_reserved_memory_entry`: the pairs of every `reg` up to the node's EndNode. */
  function RegNode(blob: seq<u8>, strings: nat, pos: nat, ac: nat, sc: nat): (r: Result<Walk, Fault>)
    ensures r.Ok? ==> pos < r.value.end
    decreases Measure(blob, pos)
  {
    var d := Decode(blob, strings, pos);
    if d.Cut? then Err(Truncated)
    else if d.tok.None? then Err(Invalid)
    else match d.tok.value
      case BeginNode(_) => Err(Invalid)
      case EndNode => Ok(Walk([], d.after))
      case Prop(name, val) =>
        if name != REG then RegNode(blob, strings, d.after, ac, sc)
        else match RegPairs(val, ac, sc)
          case Err(e) => Err(e)
          case Ok(ps) => Prepend(ps, RegNode(blob, strings, d.after, ac, sc))
  }

  /** A node made only of `reg` properties reports their pairs in order. */
  lemma {:induction false} RegNodeReportsRegs(blob: seq<u8>, strings: nat, pos: nat, ac: nat, sc: nat, val: seq<u8>)
    requires Decode(blob, strings, pos).Got? && Decode(blob, strings, pos).tok == Some(Prop(REG, val))
    requires RegPairs(val, ac, sc).Ok?
    requires Decode(blob, strings, Decode(blob, strings, pos).after).Got?
    requires Decode(blob, strings, Decode(blob, strings, pos).after).tok == Some(EndNode)
    ensures RegNode(blob, strings, pos, ac, sc).Ok?
    ensures RegNode(blob, strings, pos, ac, sc).value.regions == RegPairs(val, ac, sc).value
  {
    var q := Decode(blob, strings, pos).after;
    assert RegNode(blob, strings, q, ac, sc) == Ok(Walk([], Decode(blob, strings, q).after));
    assert RegPairs(val, ac, sc).value + [] == RegPairs(val, ac, sc).value;
  }

  /** `parse_root_memory`: the `reg` pairs of the `memory@` children of the root, cells starting at 2 and 1. */
  function RootMemory(blob: seq<u8>, strings: nat, pos: nat, ac: nat, sc: nat): (r: Result<Walk, Fault>)
    ensures r.Ok? ==> pos < r.value.end
    decreases Measure(blob, pos)
  {
    var d := Decode(blob, strings, pos);
    if d.Cut? then Err(Truncated)
    else if d.tok.None? then Err(Invalid)
    else match d.tok.value
      case EndNode => Ok(Walk([], d.after))
      case BeginNode(name) =>
        if IsMemoryNode(name) then
          (var m := RegNode(blob, strings, d.after, ac, sc);
           if m.Err? then Err(m.error) else Prepend(m.value.regions, RootMemory(blob, strings, m.value.end, ac, sc)))
        else
          (var m := Skip(blob, strings, d.after, 1);
           if m.Err? then Err(m.error) else RootMemory(blob, strings, m.value, ac, sc))
      case Prop(name, val) =>
        var p := FromProp(name, val);
        if p.Err? then Err(p.error)
        else if p.value.AddressCells? then RootMemory(blob, strings, d.after, p.value.cells, sc)
        else if p.value.SizeCells? then RootMemory(blob, strings, d.after, ac, p.value.cells)
        else RootMemory(blob, strings, d.after, ac, sc)
  }

  /** `parse_reserved_memory`: the `reg` pairs of every child of /reserved-memory, cells starting at 2 and 1. */
  function ReservedMemory(blob: seq<u8>, strings: nat, pos: nat, ac: nat, sc: nat): (r: Result<Walk, Fault>)
    ensures r.Ok? ==> pos < r.value.end
    decreases Measure(blob, pos)
  {
    var d := Decode(blob, strings, pos);
    if d.Cut? then Err(Truncated)
    else if d.tok.None? then Err(Invalid)
    else match d.tok.value
      case EndNode => Ok(Walk([], d.after))
      case BeginNode(_) =>
        (var m := RegNode(blob, strings, d.after, ac, sc);
         if m.Err? then Err(m.error) else Prepend(m.value.regions, ReservedMemory(blob, strings, m.value.end, ac, sc)))
      case Prop(name, val) =>
        var p := FromProp(name, val);
        if p.Err? then Err(p.error)
        else if p.value.AddressCells? then ReservedMemory(blob, strings, d.after, p.value.cells, sc)
        else if p.value.SizeCells? then ReservedMemory(blob, strings, d.after, ac, p.value.cells)
        else ReservedMemory(blob, strings, d.after, ac, sc)
  }

  /** `parse_root_reserved_memory`: the regions under every /reserved-memory child of the root. */
  function RootReserved(blob: seq<u8>, strings: nat, pos: nat): (r: Result<Walk, Fault>)
    ensures r.Ok? ==> pos < r.value.end
    decreases Measure(blob, pos)
  {
    var d := Decode(blob, strings, pos);
    if d.Cut? then Err(Truncated)
    else if d.tok.None? then Err(Invalid)
    else match d.tok.value
      case EndNode => Ok(Walk([], d.after))
      case Prop(_, _) => RootReserved(blob, strings, d.after)
      case BeginNode(name) =>
        if name == RESERVED_MEMORY then
          (var m := ReservedMemory(blob, strings, d.after, 2, 1);
           if m.Err? then Err(m.error) else Prepend(m.value.regions, RootReserved(blob, strings, m.value.end)))
        else
          (var m := Skip(blob, strings, d.after, 1);
           if m.Err? then Err(m.error) else RootReserved(blob, strings, m.value))
  }

  /** `print_tree`, without its output: a walk to the EndNode (or end of stream) that panics on a malformed property. */
  function PrintWalk(blob: seq<u8>, strings: nat, pos: nat): (r: Result<nat, Fault>)
    ensures r.Ok? ==> pos < r.value
    decreases Measure(blob, pos)
  {
    var d := Decode(blob, strings, pos);
    if d.Cut? then Err(Truncated)
    else if d.tok.None? then Ok(d.after)
    else match d.tok.value
      case EndNode => Ok(d.after)
      case BeginNode(_) =>
        (var m := PrintWalk(blob, strings, d.after);
         if m.Err? then Err(m.error) else PrintWalk(blob, strings, m.value))
      case Prop(name, val) =>
        if FromProp(name, val).Err? then Err(Invalid) else PrintWalk(blob, strings, d.after)
  }

  // ---------------------------------------------------------------------
  // The parser object

  /** `StructureParser`: the strings block and a cursor into the structure block. */
  class StructureParser {
    const blob: seq<u8>
    const strings: nat
    var cursor: nat

    /** `from_raw`. */
    constructor FromRaw(blob: seq<u8>, strings: nat, root: nat)
      ensures this.blob == blob && this.strings == strings && cursor == root
    {
      this.blob := blob;
      this.strings := strings;
      cursor := root;
    }

    /** The derived `clone`. */
    method Clone() returns (c: StructureParser)
      ensures fresh(c) && c.blob == blob && c.strings == strings && c.cursor == cursor
    {
      c := new StructureParser.FromRaw(blob, strings, cursor);
    }

    /** `next_token`: one big-endian u32, and the cursor moves past it. */
    method NextToken() returns (tok: Option<nat>)
      modifies this
      ensures old(cursor) + 4 <= |blob| ==> tok == Some(BeValue(blob[old(cursor)..old(cursor) + 4])) && cursor == old(cursor) + 4
      ensures |blob| < old(cursor) + 4 ==> tok.None? && cursor == old(cursor)
    {
      if |blob| < cursor + 4 {
        return None;
      }
      tok := Some(BeValue(blob[cursor..cursor + 4]));
      cursor := cursor + 4;
    }

    /** `next_cstr`: the string at the cursor, and the cursor moves past its NUL and aligns. */
    method NextCStr() returns (name: Option<seq<u8>>)
      modifies this
      ensures name.None? <==> CStrEnd(blob, old(cursor)).None?
      ensures name.Some? ==> name.value == blob[old(cursor)..CStrEnd(blob, old(cursor)).value]
      ensures name.Some? ==> cursor == Align4(CStrEnd(blob, old(cursor)).value + 1)
    {
      var z := CStrEnd(blob, cursor);
      if z.None? {
        return None;
      }
      name := Some(blob[cursor..z.value]);
      cursor := Align4(z.value + 1);
    }

    /** The FDT_BEGIN_NODE arm of `next`: the name, then the cursor aligned past its NUL. */
    method NextBeginNode() returns (r: Result<Option<Token>, Fault>)
      modifies this
      ensures DecodeBegin(blob, old(cursor)) == if r.Ok? then Got(r.value, cursor) else Cut
      ensures r.Err? ==> r.error == Truncated
    {
      var name := NextCStr();
      if name.None? {
        return Err(Truncated);
      }
      return Ok(Some(BeginNode(NameOf(name.value))));
    }

    /** The FDT_PROP arm of `next`: length, name offset, the name from the strings block, the value. */
    method NextProp() returns (r: Result<Option<Token>, Fault>)
      modifies this
      ensures DecodeProp(blob, strings, old(cursor)) == if r.Ok? then Got(r.value, cursor) else Cut
      ensures r.Err? ==> r.error == Truncated
    {
      ghost var at := cursor;
      var len := NextToken();
      var nameoff := NextToken();
      if len.None? || nameoff.None? {
        assert |blob| < at + 8;
        return Err(Truncated);
      }
      assert cursor == at + 8;
      assert len.value == BeValue(blob[at..at + 4]) && nameoff.value == BeValue(blob[at + 4..at + 8]);
      var from := strings + nameoff.value;
      var z := CStrEnd(blob, from);
      if z.None? || |blob| < cursor + len.value {
        return Err(Truncated);
      }
      var val := blob[cursor..cursor + len.value];
      assert val == blob[at + 8..at + 8 + len.value];
      cursor := Align4(cursor + len.value);
      assert cursor == Align4(at + 8 + len.value);
      r := Ok(Some(Prop(NameOf(blob[from..z.value]), val)));
      assert DecodeProp(blob, strings, at) == Got(r.value, cursor);
    }

    /** `next`: the token at the cursor; the cursor moves to the next one. */
    method Next() returns (r: Result<Option<Token>, Fault>)
      modifies this
      ensures Decode(blob, strings, old(cursor)) == if r.Ok? then Got(r.value, cursor) else Cut
      ensures r.Err? ==> r.error == Truncated
    {
      var code := NextToken();
      if code.None? {
        return Err(Truncated);
      }
      if code.value == FDT_BEGIN_NODE {
        r := NextBeginNode();
      } else if code.value == FDT_END_NODE {
        r := Ok(Some(EndNode));
      } else if code.value == FDT_PROP {
        r := NextProp();
      } else {
        r := Ok(None);
      }
    }

    /** `skip_node`: a depth counter that reaches 0 at the EndNode matching an already read BeginNode. */
    method SkipNode() returns (r: Result<(), Fault>)
      modifies this
      ensures Skip(blob, strings, old(cursor), 1) == if r.Ok? then Ok(cursor) else Err(r.error)
    {
      ghost var goal := Skip(blob, strings, cursor, 1);
      var n := 1;
      while n != 0
        invariant n == 0 ==> goal == Ok(cursor)
        invariant n > 0 ==> goal == Skip(blob, strings, cursor, n)
        decreases Measure(blob, cursor)
      {
        var t := Next();
        if t.Err? {
          return Err(t.error);
        }
        if t.value.None? {
          return Err(Invalid);
        }
        if t.value.value.BeginNode? {
          n := n + 1;
        } else if t.value.value.EndNode? {
          n := n - 1;
        }
      }
      return Ok(());
    }

    /** `parse_memory` / `parse_reserved_memory_entry`: report the pairs of every `reg` up to the EndNode. */
    method ParseRegNode(ac: nat, sc: nat) returns (r: Result<seq<Span>, Fault>)
      modifies this
      ensures RegNode(blob, strings, old(cursor), ac, sc) == if r.Ok? then Ok(Walk(r.value, cursor)) else Err(r.error)
    {
      ghost var goal := RegNode(blob, strings, cursor, ac, sc);
      var found := [];
      while true
        invariant goal == Prepend(found, RegNode(blob, strings, cursor, ac, sc))
        decreases Measure(blob, cursor)
      {
        var t := Next();
        if t.Err? {
          return Err(t.error);
        }
        if t.value.None? || t.value.value.BeginNode? {
          return Err(Invalid);
        }
        if t.value.value.EndNode? {
          assert found + [] == found;
          return Ok(found);
        }
        var name := t.value.value.name;
        var val := t.value.value.val;
        if name == REG {
          var ps := SplitReg(val, ac, sc);
          if ps.Err? {
            return Err(ps.error);
          }
          PrependAssoc(found, ps.value, RegNode(blob, strings, cursor, ac, sc));
          found := found + ps.value;
        }
      }
    }

    /** `parse_root_memory`. */
    method ParseRootMemory() returns (r: Result<seq<Span>, Fault>)
      modifies this
      ensures RootMemory(blob, strings, old(cursor), 2, 1) == if r.Ok? then Ok(Walk(r.value, cursor)) else Err(r.error)
    {
      var ac, sc := 2, 1;
      ghost var goal := RootMemory(blob, strings, cursor, ac, sc);
      var found := [];
      while true
        invariant goal == Prepend(found, RootMemory(blob, strings, cursor, ac, sc))
        decreases Measure(blob, cursor)
      {
        var t := Next();
        if t.Err? {
          return Err(t.error);
        }
        if t.value.None? {
          return Err(Invalid);
        }
        var tok := t.value.value;
        if tok.EndNode? {
          assert found + [] == found;
          return Ok(found);
        } else if tok.BeginNode? {
          if IsMemoryNode(tok.name) {
            var ps := ParseRegNode(ac, sc);
            if ps.Err? {
              return Err(ps.error);
            }
            PrependAssoc(found, ps.value, RootMemory(blob, strings, cursor, ac, sc));
            found := found + ps.value;
          } else {
            var s := SkipNode();
            if s.Err? {
              return Err(s.error);
            }
          }
        } else {
          var p := FromProp(tok.name, tok.val);
          if p.Err? {
            return Err(p.error);
          }
          if p.value.AddressCells? {
            ac := p.value.cells;
          } else if p.value.SizeCells? {
            sc := p.value.cells;
          }
        }
      }
    }

    /** `parse_reserved_memory`. */
    method ParseReservedMemory() returns (r: Result<seq<Span>, Fault>)
      modifies this
      ensures ReservedMemory(blob, strings, old(cursor), 2, 1) == if r.Ok? then Ok(Walk(r.value, cursor)) else Err(r.error)
    {
      var ac, sc := 2, 1;
      ghost var goal := ReservedMemory(blob, strings, cursor, ac, sc);
      var found := [];
      while true
        invariant goal == Prepend(found, ReservedMemory(blob, strings, cursor, ac, sc))
        decreases Measure(blob, cursor)
      {
        var t := Next();
        if t.Err? {
          return Err(t.error);
        }
        if t.value.None? {
          return Err(Invalid);
        }
        var tok := t.value.value;
        if tok.EndNode? {
          assert found + [] == found;
          return Ok(found);
        } else if tok.BeginNode? {
          var ps := ParseRegNode(ac, sc);
          if ps.Err? {
            return Err(ps.error);
          }
          PrependAssoc(found, ps.value, ReservedMemory(blob, strings, cursor, ac, sc));
          found := found + ps.value;
        } else {
          var p := FromProp(tok.name, tok.val);
          if p.Err? {
            return Err(p.error);
          }
          if p.value.AddressCells? {
            ac := p.value.cells;
          } else if p.value.SizeCells? {
            sc := p.value.cells;
          }
        }
      }
    }

    /** `parse_root_reserved_memory`. */
    method ParseRootReservedMemory() returns (r: Result<seq<Span>, Fault>)
      modifies this
      ensures RootReserved(blob, strings, old(cursor)) == if r.Ok? then Ok(Walk(r.value, cursor)) else Err(r.error)
    {
      ghost var goal := RootReserved(blob, strings, cursor);
      var found := [];
      while true
        invariant goal == Prepend(found, RootReserved(blob, strings, cursor))
        decreases Measure(blob, cursor)
      {
        var t := Next();
        if t.Err? {
          return Err(t.error);
        }
        if t.value.None? {
          return Err(Invalid);
        }
        var tok := t.value.value;
        if tok.EndNode? {
          assert found + [] == found;
          return Ok(found);
        } else if tok.BeginNode? {
          if tok.name == RESERVED_MEMORY {
            var ps := ParseReservedMemory();
            if ps.Err? {
              return Err(ps.error);
            }
            PrependAssoc(found, ps.value, RootReserved(blob, strings, cursor));
            found := found + ps.value;
          } else {
            var s := SkipNode();
            if s.Err? {
              return Err(s.error);
            }
          }
        }
      }
    }

    /** `print_tree`: walks nodes recursively; the printing itself is not modelled. */
    method PrintTree() returns (r: Result<(), Fault>)
      modifies this
      ensures PrintWalk(blob, strings, old(cursor)) == if r.Ok? then Ok(cursor) else Err(r.error)
      decreases Measure(blob, cursor)
    {
      ghost var start := cursor;
      ghost var goal := PrintWalk(blob, strings, cursor);
      while true
        invariant Measure(blob, cursor) <= Measure(blob, start) && goal == PrintWalk(blob, strings, cursor)
        decreases Measure(blob, cursor)
      {
        var t := Next();
        if t.Err? {
          return Err(t.error);
        }
        if t.value.None? || t.value.value.EndNode? {
          return Ok(());
        }
        var tok := t.value.value;
        if tok.BeginNode? {
          var inner := PrintTree();
          if inner.Err? {
            return Err(inner.error);
          }
        } else if FromProp(tok.name, tok.val).Err? {
          return Err(Invalid);
        }
      }
    }
  }

  // ---------------------------------------------------------------------
  // The usable memory map

  /** Some span in `rs` covers address `x`. */
  predicate Covers(rs: seq<Span>, x: nat)
    decreases |rs|
  {
    |rs| > 0 && (Covers(rs[..|rs| - 1], x) || rs[|rs| - 1].address <= x < rs[|rs| - 1].address + rs[|rs| - 1].size)
  }

  lemma {:induction false} CoversSome(rs: seq<Span>, x: nat)
    ensures Covers(rs, x) <==> exists i :: 0 <= i < |rs| && rs[i].address <= x < rs[i].address + rs[i].size
    decreases |rs|
  {
    if |rs| > 0 {
      var front := rs[..|rs| - 1];
      CoversSome(front, x);
      if Covers(front, x) {
        var i :| 0 <= i < |front| && front[i].address <= x < front[i].address + front[i].size;
        assert rs[i] == front[i];
      }
      if exists i :: 0 <= i < |rs| && rs[i].address <= x < rs[i].address + rs[i].size {
        var i :| 0 <= i < |rs| && rs[i].address <= x < rs[i].address + rs[i].size;
        if i < |rs| - 1 {
          assert front[i] == rs[i];
        }
      }
    }
  }

  lemma CoversAppend(a: seq<Span>, b: seq<Span>, x: nat)
    ensures Covers(a + b, x) <==> Covers(a, x) || Covers(b, x)
  {
    CoversSome(a + b, x);
    CoversSome(a, x);
    CoversSome(b, x);
    if Covers(a, x) {
      var i :| 0 <= i < |a| && a[i].address <= x < a[i].address + a[i].size;
      assert (a + b)[i] == a[i];
    }
    if Covers(b, x) {
      var i :| 0 <= i < |b| && b[i].address <= x < b[i].address + b[i].size;
      assert (a + b)[|a| + i] == b[i];
    }
    if Covers(a + b, x) {
      var i :| 0 <= i < |a + b| && (a + b)[i].address <= x < (a + b)[i].address + (a + b)[i].size;
      if i >= |a| {
        assert b[i - |a|] == (a + b)[i];
      } else {
        assert a[i] == (a + b)[i];
      }
    }
  }

  /** The memory nodes, reserved-memory nodes and reserve-map entries of a tree. */
  datatype Layout = Layout(memory: seq<Span>, reserved: seq<Span>, reserveMap: seq<Span>)

  /** What `usable_memory` reads from the blob, or the fault that stops it. */
  function MemoryLayout(fdt: Fdt): Result<Layout, Fault>
  {
    var blob := fdt.blob;
    var strings := fdt.header.offDtStrings;
    var root := fdt.header.offDtStruct;
    match PrintWalk(blob, strings, root)
    case Err(e) => Err(e)
    case Ok(_) =>
      match Decode(blob, strings, root)
      case Cut => Err(Truncated)
      case Got(tok, q) =>
        if tok != Some(BeginNode([])) then Err(Invalid)
        else
          match RootMemory(blob, strings, q, 2, 1)
          case Err(e) => Err(e)
          case Ok(m) =>
            match RootReserved(blob, strings, q)
            case Err(e) => Err(e)
            case Ok(rv) =>
              match ReservedFrom(blob, fdt.header.offMemRsvmap)
              case Err(e) => Err(e)
              case Ok(es) => Ok(Layout(m.regions, rv.regions, es))
  }

  /** The map gives Usable exactly to the addresses covered by `usable` and not by `reserved`. */
  ghost predicate MapsTo(segments: seq<Rle.Segment>, usable: seq<Span>, reserved: seq<Span>)
  {
    forall x: nat :: Rle.TypeAt(segments, x) == Rle.Usable <==> Covers(usable, x) && !Covers(reserved, x)
  }

  lemma EmptyMapsTo(segments: seq<Rle.Segment>)
    requires segments == []
    ensures MapsTo(segments, [], [])
  {
  }

  /** Inserting a span (nothing for size 0) extends the usable list. */
  lemma InsertStep(was: seq<Rle.Segment>, now: seq<Rle.Segment>, usable: seq<Span>, s: Span)
    requires MapsTo(was, usable, [])
    requires s.size == 0 ==> now == was
    requires s.size > 0 ==> forall x: nat :: Rle.TypeAt(now, x) == Rle.Overlaid(was, s.address, s.address + s.size, Rle.Usable, x)
    ensures MapsTo(now, usable + [s], [])
  {
    assert (usable + [s])[..|usable|] == usable;
  }

  /** Removing a span (nothing for size 0) extends the reserved list. */
  lemma RemoveStep(was: seq<Rle.Segment>, now: seq<Rle.Segment>, usable: seq<Span>, reserved: seq<Span>, s: Span)
    requires MapsTo(was, usable, reserved)
    requires s.size == 0 ==> now == was
    requires s.size > 0 ==> forall x: nat :: Rle.TypeAt(now, x) == Rle.Overlaid(was, s.address, s.address + s.size, Rle.Reserved, x)
    ensures MapsTo(now, usable, reserved + [s])
  {
    assert (reserved + [s])[..|reserved|] == reserved;
  }

  /** The `parse_root_memory` callback: every region of nonzero size becomes usable. */
  method InsertAll(memory: Rle.RleMemory, regions: seq<Span>)
    modifies memory
    requires memory.segments == []
    ensures Rle.Normal(memory.segments) && MapsTo(memory.segments, regions, [])
  {
    EmptyMapsTo(memory.segments);
    for i := 0 to |regions|
      invariant Rle.Normal(memory.segments)
      invariant MapsTo(memory.segments, regions[..i], [])
    {
      var s := regions[i];
      ghost var was := memory.segments;
      if s.size != 0 {
        memory.Insert(Rle.Region(s.address, s.size));
      }
      InsertStep(was, memory.segments, regions[..i], s);
      assert regions[..i + 1] == regions[..i] + [s];
    }
    assert regions[..|regions|] == regions;
  }

  /** The `parse_root_reserved_memory` callback: every region of nonzero size becomes reserved. */
  method RemoveAll(memory: Rle.RleMemory, ghost usable: seq<Span>, ghost removed: seq<Span>, regions: seq<Span>)
    modifies memory
    requires Rle.Normal(memory.segments) && MapsTo(memory.segments, usable, removed)
    ensures Rle.Normal(memory.segments) && MapsTo(memory.segments, usable, removed + regions)
  {
    assert removed + regions[..0] == removed;
    for j := 0 to |regions|
      invariant Rle.Normal(memory.segments)
      invariant MapsTo(memory.segments, usable, removed + regions[..j])
    {
      var s := regions[j];
      ghost var was := memory.segments;
      if s.size != 0 {
        memory.Remove(Rle.Region(s.address, s.size));
      }
      RemoveStep(was, memory.segments, usable, removed + regions[..j], s);
      assert removed + regions[..j + 1] == removed + regions[..j] + [s];
    }
    assert regions[..|regions|] == regions;
  }

  /** The `for extra in self.iter_reserved_memory()` loop: reserve-map entries of nonzero size become reserved. */
  method RemoveReserveMap(memory: Rle.RleMemory, blob: seq<u8>, start: nat, ghost usable: seq<Span>, ghost removed: seq<Span>)
      returns (r: Result<(), Fault>)
    modifies memory
    requires Rle.Normal(memory.segments) && MapsTo(memory.segments, usable, removed)
    ensures r.Ok? <==> ReservedFrom(blob, start).Ok?
    ensures r.Err? ==> r.error == Truncated
    ensures Rle.Normal(memory.segments)
    ensures r.Ok? ==> MapsTo(memory.segments, usable, removed + ReservedFrom(blob, start).value)
  {
    var at := start;
    ghost var done := [];
    assert removed + [] == removed;
    while true
      invariant ReservedFrom(blob, start) == PrependSpans(done, ReservedFrom(blob, at))
      invariant Rle.Normal(memory.segments)
      invariant MapsTo(memory.segments, usable, removed + done)
      decreases |blob| - at
    {
      if |blob| < at + 16 {
        return Err(Truncated);
      }
      var address := BeValue(blob[at..at + 8]);
      var size := BeValue(blob[at + 8..at + 16]);
      if address == 0 && size == 0 {
        assert done + [] == done;
        return Ok(());
      }
      var s := Span(address, size);
      ghost var was := memory.segments;
      if size != 0 {
        memory.Remove(Rle.Region(address, size));
      }
      RemoveStep(was, memory.segments, usable, removed + done, s);
      assert removed + done + [s] == removed + (done + [s]);
      PrependSpansAssoc(done, [s], ReservedFrom(blob, at + 16));
      done := done + [s];
      at := at + 16;
    }
  }

  /** The structure-block half of `usable_memory`: print the tree, read the root, then collect the memory
      nodes' regions and the reserved-memory regions, each walk from a clone of the parser after the root. */
  method StructureRegions(fdt: Fdt) returns (r: Result<(seq<Span>, seq<Span>), Fault>)
    ensures r.Err? ==> MemoryLayout(fdt) == Err(r.error)
    ensures r.Ok? ==> (MemoryLayout(fdt) ==
      var es := ReservedFrom(fdt.blob, fdt.header.offMemRsvmap);
      if es.Err? then Err(es.error) else Ok(Layout(r.value.0, r.value.1, es.value)))
  {
    var tokens := new StructureParser.FromRaw(fdt.blob, fdt.header.offDtStrings, fdt.header.offDtStruct);
    var printer := tokens.Clone();
    var printed := printer.PrintTree();
    if printed.Err? {
      return Err(printed.error);
    }
    var first := tokens.Next();
    if first.Err? || first.value != Some(BeginNode([])) {
      return Err(Invalid);
    }
    var walker := tokens.Clone();
    var regions := walker.ParseRootMemory();
    if regions.Err? {
      return Err(regions.error);
    }
    walker := tokens.Clone();
    var reserved := walker.ParseRootReservedMemory();
    if reserved.Err? {
      return Err(reserved.error);
    }
    return Ok((regions.value, reserved.value));
  }

  /** `usable_memory`: the memory nodes' regions made usable, then the reserved-memory regions and reserve-map entries taken out. */
  method UsableMemory(fdt: Fdt) returns (r: Result<Rle.RleMemory, Fault>)
    ensures r.Err? <==> MemoryLayout(fdt).Err?
    ensures r.Err? ==> r.error == MemoryLayout(fdt).error
    ensures r.Ok? ==> fresh(r.value) && Rle.Normal(r.value.segments)
    ensures r.Ok? ==> forall x: nat :: Rle.TypeAt(r.value.segments, x) == Rle.Usable <==>
      Covers(MemoryLayout(fdt).value.memory, x) && !Covers(MemoryLayout(fdt).value.reserved, x)
      && !Covers(MemoryLayout(fdt).value.reserveMap, x)
  {
    var walks := StructureRegions(fdt);
    if walks.Err? {
      return Err(walks.error);
    }
    var (regions, reserved) := walks.value;
    var memory := new Rle.RleMemory();
    InsertAll(memory, regions);
    RemoveAll(memory, regions, [], reserved);
    assert [] + reserved == reserved;
    var extra := RemoveReserveMap(memory, fdt.blob, fdt.header.offMemRsvmap, regions, reserved);
    if extra.Err? {
      return Err(extra.error);
    }
    ghost var entries := ReservedFrom(fdt.blob, fdt.header.offMemRsvmap).value;
    assert MemoryLayout(fdt) == Ok(Layout(regions, reserved, entries));
    forall x: nat
      ensures Covers(reserved + entries, x) <==> Covers(reserved, x) || Covers(entries, x)
    {
      CoversAppend(reserved, entries, x);
    }
    return Ok(memory);
  }
}
