/**
 * The initial filesystem image: an uncompressed GNU tar archive read as
 * 512-byte blocks. Each header block names a file, gives its size in
 * octal and its type; a file's data follows in whole blocks. Files are
 * inserted into a tree of directories that is created on demand.
 * Names are kept as bytes.
 */
module Tar {
  import opened Common

  const BLOCK: nat := 512
  const NUL: u8 := 0
  const SLASH: u8 := 0x2F
  const DOT: u8 := 0x2E
  const PLUS: u8 := 0x2B
  const ZERO_CHAR: u8 := 0x30
  const FIVE_CHAR: u8 := 0x35

  /** The header layout: the name, the size field and the type byte. */
  const NAME_LEN: nat := 100
  const SIZE_OFFSET: nat := 124
  const SIZE_LEN: nat := 12
  const TYPE_OFFSET: nat := 156

  /** `ustar  \0` at offset 257 marks a GNU tar. */
  const MAGIC_OFFSET: nat := 257
  const MAGIC: seq<u8> := [0x75, 0x73, 0x74, 0x61, 0x72, 0x20, 0x20, 0x00]

  type Name = seq<u8>
  datatype Node = FileNode(data: seq<u8>) | DirNode(nodes: map<Name, Node>)
  datatype Type = File | Dir

  /** Why the parse panics: an unknown entry type, missing data blocks, or a file used as a directory. */
  datatype Panic = UnknownType(ty: u8) | Truncated | IsAFile

  // ---- Splitting byte strings ----------------------------------------------

  /** The index of the first `b` in `s` at or after `from`, if any. */
  function First(s: seq<u8>, b: u8, from: nat := 0): (r: Option<nat>)
    requires from <= |s|
    ensures r.Some? ==> from <= r.value < |s| && s[r.value] == b && forall j :: from <= j < r.value ==> s[j] != b
    ensures r.None? ==> forall j :: from <= j < |s| ==> s[j] != b
    decreases |s| - from
  {
    if from == |s| then None
    else if s[from] == b then Some(from)
    else First(s, b, from + 1)
  }

  /** The index of the last `b` in `s` before `upto`, if any. */
  function Last(s: seq<u8>, b: u8, upto: nat := |s|): (r: Option<nat>)
    requires upto <= |s|
    ensures r.Some? ==> r.value < upto && s[r.value] == b && forall j :: r.value < j < upto ==> s[j] != b
    ensures r.None? ==> forall j :: 0 <= j < upto ==> s[j] != b
    decreases upto
  {
    if upto == 0 then None
    else if s[upto - 1] == b then Some(upto - 1)
    else Last(s, b, upto - 1)
  }

  /** `split(|b| *b == 0).next()`: the bytes before the first NUL. */
  function UntilNul(field: seq<u8>): (r: seq<u8>)
    ensures |r| <= |field| && r == field[..|r|] && NUL !in r
    ensures |r| == |field| || field[|r|] == NUL
  {
    match First(field, NUL)
    case None => field
    case Some(i) => field[..i]
  }

  /** `split_once('/').unwrap_or((path, ""))`. */
  function SplitFirst(path: seq<u8>): (r: (seq<u8>, seq<u8>))
    ensures |r.0| + |r.1| < |path| || (r.0 == path && r.1 == [])
  {
    match First(path, SLASH)
    case None => (path, [])
    case Some(i) => (path[..i], path[i + 1..])
  }

  /** `rsplit_once('/').unwrap_or(("", path))`: the parent path and the file name. */
  function SplitLast(path: seq<u8>): (r: (seq<u8>, seq<u8>))
    ensures SLASH !in r.1
    ensures Last(path, SLASH).Some? ==> path == r.0 + [SLASH] + r.1
    ensures Last(path, SLASH).None? ==> r == ([], path)
  {
    match Last(path, SLASH)
    case None => ([], path)
    case Some(i) => assert path == path[..i] + [SLASH] + path[i + 1..]; (path[..i], path[i + 1..])
  }

  // ---- The header fields ----------------------------------------------------

  /** A header block's file name: the name field up to its first NUL. */
  function NameOf(header: seq<u8>): (r: Name)
    requires |header| == BLOCK
    ensures |r| <= NAME_LEN && r == header[..|r|] && NUL !in r
    ensures |r| == NAME_LEN || header[|r|] == NUL
  {
    UntilNul(header[..NAME_LEN])
  }

  predicate IsOctal(c: u8) { ZERO_CHAR <= c < ZERO_CHAR + 8 }

  predicate AllOctal(s: seq<u8>)
  {
    forall i :: 0 <= i < |s| ==> IsOctal(s[i])
  }

  /** The value of a string of octal digits, most significant first. */
  function OctalValue(s: seq<u8>): nat
    requires AllOctal(s)
  {
    if |s| == 0 then 0
    else OctalValue(s[..|s| - 1]) * 8 + (s[|s| - 1] - ZERO_CHAR)
  }

  /**
   * `usize::from_str_radix(s, 8)`: an optional `+`, then at least one
   * octal digit and nothing else, and a value that fits a `usize`.
   */
  function ParseOctal(s: seq<u8>): (r: Option<usize>)
  {
    var ds := if |s| > 0 && s[0] == PLUS then s[1..] else s;
    if |ds| == 0 || !AllOctal(ds) || OctalValue(ds) > USIZE_MAX then None
    else Some(OctalValue(ds))
  }

  /**
   * The size field read in place, one byte at a time from position `p`
   * to its end or its first NUL: `acc` holds the value of the digits read
   * so far, a byte that is not an octal digit gives `None`, and so does a
   * value past `usize` once the field ends.
   */
  function OctalDigits(header: seq<u8>, p: nat, acc: nat): Option<usize>
    requires |header| == BLOCK && SIZE_OFFSET <= p <= SIZE_OFFSET + SIZE_LEN
    decreases SIZE_OFFSET + SIZE_LEN - p
  {
    if p == SIZE_OFFSET + SIZE_LEN || header[p] == NUL then
      if acc <= USIZE_MAX then Some(acc) else None
    else if !IsOctal(header[p]) then None
    else OctalDigits(header, p + 1, acc * 8 + (header[p] - ZERO_CHAR))
  }

  /**
   * A header block's size: the octal size field up to its first NUL (after
   * an optional '+', at least one digit), or 0 when that does not parse.
   */
  function SizeOf(header: seq<u8>): usize
    requires |header| == BLOCK
  {
    var start := if header[SIZE_OFFSET] == PLUS then SIZE_OFFSET + 1 else SIZE_OFFSET;
    if header[start] == NUL then 0
    else match OctalDigits(header, start, 0)
      case None => 0
      case Some(n) => n
  }

  /**
   * Reading the digits in place from `b + q` on, with the value of the
   * first `q` digits in hand, agrees with `from_str_radix` on the digits
   * `ds` that start at `b` and end at the field's end or at a NUL.
   */
  lemma {:induction false} OctalDigitsFrom(header: seq<u8>, b: nat, ds: seq<u8>, q: nat)
    requires |header| == BLOCK && SIZE_OFFSET <= b && b + |ds| <= SIZE_OFFSET + SIZE_LEN
    requires forall j :: 0 <= j < |ds| ==> header[b + j] == ds[j] && ds[j] != NUL
    requires b + |ds| == SIZE_OFFSET + SIZE_LEN || header[b + |ds|] == NUL
    requires q <= |ds| && AllOctal(ds[..q])
    ensures OctalDigits(header, b + q, OctalValue(ds[..q]))
      == if AllOctal(ds) && OctalValue(ds) <= USIZE_MAX then Some(OctalValue(ds)) else None
    decreases |ds| - q
  {
    if q == |ds| {
      assert ds[..q] == ds;
    } else {
      assert header[b + q] == ds[q];
      if IsOctal(ds[q]) {
        assert ds[..q + 1][..q] == ds[..q];
        OctalDigitsFrom(header, b, ds, q + 1);
      }
    }
  }

  /** The size read in place is `from_str_radix(_, 8)` on the size field up to its first NUL, or 0 when that fails. */
  lemma {:induction false} SizeOfParsesField(header: seq<u8>)
    requires |header| == BLOCK
    ensures SizeOf(header) == match ParseOctal(UntilNul(header[SIZE_OFFSET..SIZE_OFFSET + SIZE_LEN]))
      case None => 0
      case Some(n) => n
  {
    var field := header[SIZE_OFFSET..SIZE_OFFSET + SIZE_LEN];
    var u := UntilNul(field);
    var plus := |u| > 0 && u[0] == PLUS;
    var b := if plus then SIZE_OFFSET + 1 else SIZE_OFFSET;
    var ds := if plus then u[1..] else u;
    assert forall j :: 0 <= j < |ds| ==> header[b + j] == ds[j] && ds[j] != NUL by {
      forall j | 0 <= j < |ds|
        ensures header[b + j] == ds[j] && ds[j] != NUL
      {
        var t := if plus then j + 1 else j;
        assert ds[j] == u[t] == field[t];
      }
    }
    assert b + |ds| == SIZE_OFFSET + |u|;
    if |u| > 0 {
      assert header[SIZE_OFFSET] == u[0];
    }
    assert ds[..0] == [];
    if |ds| > 0 {
      OctalDigitsFrom(header, b, ds, 0);
    }
  }

  /** A header block's type: NUL and `'0'` are files, `'5'` a directory; other types are not handled. */
  function TypeOf(header: seq<u8>): (r: Option<Type>)
    requires |header| == BLOCK
    ensures r == Some(File) <==> header[TYPE_OFFSET] == NUL || header[TYPE_OFFSET] == ZERO_CHAR
    ensures r == Some(Dir) <==> header[TYPE_OFFSET] == FIVE_CHAR
  {
    var ty := header[TYPE_OFFSET];
    if ty == NUL || ty == ZERO_CHAR then Some(File)
    else if ty == FIVE_CHAR then Some(Dir)
    else None
  }

  function Pow8(w: nat): nat
    ensures Pow8(w) > 0
  {
    if w == 0 then 1 else 8 * Pow8(w - 1)
  }

  /** `n` written as `w` octal digits, with leading zeros, as a tar writer fills the size field. */
  function Octal(n: nat, w: nat): (s: seq<u8>)
    ensures |s| == w && AllOctal(s)
  {
    if w == 0 then [] else Octal(n / 8, w - 1) + [ZERO_CHAR + n % 8]
  }

  lemma {:induction false} OctalValueOfOctal(n: nat, w: nat)
    requires n < Pow8(w)
    ensures OctalValue(Octal(n, w)) == n
  {
    if w > 0 {
      var s := Octal(n, w);
      assert s[..|s| - 1] == Octal(n / 8, w - 1);
      OctalValueOfOctal(n / 8, w - 1);
    }
  }

  /** `from_str_radix(_, 8)` reads back a number written as one or more octal digits, with or without a leading '+'. */
  lemma ParseOctalOfOctal(n: nat, w: nat, plus: bool)
    requires 0 < w && n < Pow8(w) && n <= USIZE_MAX
    ensures ParseOctal((if plus then [PLUS] else []) + Octal(n, w)) == Some(n)
  {
    OctalValueOfOctal(n, w);
    ParseOctalDigits(Octal(n, w), plus);
  }

  lemma ParseOctalDigits(ds: seq<u8>, plus: bool)
    requires 0 < |ds| && AllOctal(ds) && OctalValue(ds) <= USIZE_MAX
    ensures ParseOctal((if plus then [PLUS] else []) + ds) == Some(OctalValue(ds))
  {
    var s := (if plus then [PLUS] else []) + ds;
    if plus {
      assert s[0] == PLUS && s[1..] == ds;
    } else {
      assert s == ds && IsOctal(ds[0]);
    }
  }

  /**
   * A size field holding eleven octal digits and a NUL, as GNU tar writes
   * it, gives back the size.
   */
  lemma {:induction false} SizeOfOctalField(header: seq<u8>, n: nat)
    requires |header| == BLOCK && n < Pow8(11)
    requires header[SIZE_OFFSET..SIZE_OFFSET + SIZE_LEN] == Octal(n, 11) + [NUL]
    ensures SizeOf(header) == n
  {
    SizeOfParsesField(header);
    var field := header[SIZE_OFFSET..SIZE_OFFSET + SIZE_LEN];
    assert field[11] == NUL;
    assert NUL !in Octal(n, 11) by {
      assert forall i :: 0 <= i < 11 ==> IsOctal(Octal(n, 11)[i]);
    }
    assert UntilNul(field) == Octal(n, 11);
    OctalValueOfOctal(n, 11);
    assert Pow8(11) <= USIZE_MAX by {
      assert Pow8(11) == 0x2_0000_0000;
    }
  }

  /** A size field that is empty before its NUL gives size 0. */
  lemma EmptySizeIsZero(header: seq<u8>)
    requires |header| == BLOCK && header[SIZE_OFFSET] == NUL
    ensures SizeOf(header) == 0
  {
    assert header[SIZE_OFFSET..SIZE_OFFSET + SIZE_LEN][0] == NUL;
  }

  // ---- The directory tree --------------------------------------------------

  /**
   * The directory names `goto_dir` walks through for `path`: the pieces
   * between slashes, without `.` and empty pieces.
   */
  function Components(path: seq<u8>): seq<Name>
    decreases |path|
  {
    if path == [] then []
    else
      var parts := SplitFirst(path);
      if parts.0 == [DOT] || parts.0 == [] then Components(parts.1)
      else [parts.0] + Components(parts.1)
  }

  /**
   * `goto_dir` followed by the insert into the directory it returns:
   * missing directories are created, `.` and empty pieces are skipped,
   * and a file met on the way is a panic.
   */
  function GotoInsert(path: seq<u8>, root: map<Name, Node>, name: Name, node: Node): (r: Option<map<Name, Node>>)
    ensures Components(path) == [] ==> r == Some(root[name := node])
    ensures r.Some? ==> root.Keys <= r.value.Keys
    ensures r.Some? && Components(path) != [] ==>
      var d := Components(path)[0];
      d in r.value && r.value[d].DirNode? && forall k :: k in root && k != d ==> r.value[k] == root[k]
    decreases |path|
  {
    if path == [] then Some(root[name := node])
    else
      var parts := SplitFirst(path);
      if parts.0 == [DOT] || parts.0 == [] then GotoInsert(parts.1, root, name, node)
      else
        var sub := if parts.0 in root then root[parts.0] else DirNode(map[]);
        match sub
        case FileNode(_) => None
        case DirNode(nodes) =>
          match GotoInsert(parts.1, nodes, name, node)
          case None => None
          case Some(updated) => Some(root[parts.0 := DirNode(updated)])
  }

  /** The node reached by following `parts` from a directory. */
  function Lookup(root: map<Name, Node>, parts: seq<Name>): Option<Node>
    requires |parts| > 0
    decreases |parts|
  {
    if parts[0] !in root then None
    else if |parts| == 1 then Some(root[parts[0]])
    else match root[parts[0]]
      case FileNode(_) => None
      case DirNode(nodes) => Lookup(nodes, parts[1..])
  }

  /** No file stands where `parts` needs a directory. */
  predicate Walkable(root: map<Name, Node>, parts: seq<Name>)
    decreases |parts|
  {
    parts == [] || parts[0] !in root
    || (root[parts[0]].DirNode? && Walkable(root[parts[0]].nodes, parts[1..]))
  }

  /** After the insert, the path's directories lead to the new node. */
  lemma {:induction false} InsertThenFind(path: seq<u8>, root: map<Name, Node>, name: Name, node: Node)
    requires GotoInsert(path, root, name, node).Some?
    ensures Lookup(GotoInsert(path, root, name, node).value, Components(path) + [name]) == Some(node)
    decreases |path|
  {
    if path != [] {
      var parts := SplitFirst(path);
      if parts.0 == [DOT] || parts.0 == [] {
        InsertThenFind(parts.1, root, name, node);
      } else {
        var sub := if parts.0 in root then root[parts.0] else DirNode(map[]);
        InsertThenFind(parts.1, sub.nodes, name, node);
        assert (Components(path) + [name])[1..] == Components(parts.1) + [name];
      }
    }
  }

  /** The insert panics exactly when a file stands where a directory of the path is needed. */
  lemma {:induction false} InsertSucceedsIffWalkable(path: seq<u8>, root: map<Name, Node>, name: Name, node: Node)
    ensures GotoInsert(path, root, name, node).Some? <==> Walkable(root, Components(path))
    decreases |path|
  {
    if path != [] {
      var parts := SplitFirst(path);
      if parts.0 == [DOT] || parts.0 == [] {
        InsertSucceedsIffWalkable(parts.1, root, name, node);
      } else {
        var sub := if parts.0 in root then root[parts.0] else DirNode(map[]);
        if sub.DirNode? {
          InsertSucceedsIffWalkable(parts.1, sub.nodes, name, node);
          assert Components(path)[1..] == Components(parts.1);
        }
      }
    }
  }

  /** Every path can be inserted into an empty tree: all its directories are created. */
  lemma EmptyIsWalkable(parts: seq<Name>)
    ensures Walkable(map[], parts)
  {
  }

  // ---- The block loop -------------------------------------------------------

  predicate WholeBlocks(blocks: seq<seq<u8>>)
  {
    forall j :: 0 <= j < |blocks| ==> |blocks[j]| == BLOCK
  }

  /** `array_chunks::<512>()`: the whole blocks of the archive; a trailing partial block is not read. */
  function Chunks(tar: seq<u8>): (blocks: seq<seq<u8>>)
    ensures |blocks| == |tar| / 512 && WholeBlocks(blocks)
  {
    seq(|tar| / 512, j requires 0 <= j < |tar| / 512 => tar[j * 512..j * 512 + 512])
  }

  /** The blocks' bytes, in order. */
  function Concat(blocks: seq<seq<u8>>): seq<u8>
  {
    if blocks == [] then [] else Concat(blocks[..|blocks| - 1]) + blocks[|blocks| - 1]
  }

  lemma {:induction false} ConcatLength(blocks: seq<seq<u8>>)
    requires WholeBlocks(blocks)
    ensures |Concat(blocks)| == |blocks| * 512
  {
    if blocks != [] {
      ConcatLength(blocks[..|blocks| - 1]);
    }
  }

  lemma {:induction false} ConcatAppend(a: seq<seq<u8>>, b: seq<seq<u8>>)
    ensures Concat(a + b) == Concat(a) + Concat(b)
    decreases |b|
  {
    if b == [] {
      assert a + b == a;
    } else {
      var init, last := b[..|b| - 1], b[|b| - 1];
      assert a + b == (a + init) + [last];
      assert (a + b)[..|a + b| - 1] == a + init;
      ConcatAppend(a, init);
      assert Concat(b) == Concat(init) + last;
    }
  }

  lemma ConcatSnoc(blocks: seq<seq<u8>>, b: seq<u8>)
    ensures Concat(blocks + [b]) == Concat(blocks) + b
  {
    assert (blocks + [b])[..|blocks|] == blocks;
  }

  lemma SliceJoin(s: seq<u8>, lo: nat, mid: nat, hi: nat)
    requires lo <= mid <= hi <= |s|
    ensures s[lo..mid] + s[mid..hi] == s[lo..hi]
  {
  }

  /** The blocks from `a` up to `b` hold the archive's bytes from `a * 512` up to `b * 512`. */
  lemma {:induction false} ChunksConcat(tar: seq<u8>, a: nat, b: nat)
    requires a <= b <= |tar| / 512
    ensures Concat(Chunks(tar)[a..b]) == tar[a * 512..b * 512]
    decreases b
  {
    var bs := Chunks(tar);
    if a == b {
      assert bs[a..b] == [];
    } else {
      var lo, mid, hi := a * 512, (b - 1) * 512, b * 512;
      assert mid + 512 == hi && hi <= |tar|;
      calc {
        Concat(bs[a..b]);
        == { assert bs[a..b] == bs[a..b - 1] + [bs[b - 1]]; ConcatSnoc(bs[a..b - 1], bs[b - 1]); }
        Concat(bs[a..b - 1]) + bs[b - 1];
        == { ChunksConcat(tar, a, b - 1); ChunkAt(tar, b - 1); }
        tar[lo..mid] + tar[mid..hi];
        == { SliceJoin(tar, lo, mid, hi); }
        tar[lo..hi];
      }
    }
  }

  /** Block `j` holds the archive's bytes from `j * 512` up to `(j + 1) * 512`. */
  lemma ChunkAt(tar: seq<u8>, j: nat)
    requires j < |tar| / 512
    ensures Chunks(tar)[j] == tar[j * 512..j * 512 + 512]
  {
  }

  /** `size.div_ceil(512)`: the number of blocks that hold `size` bytes. */
  function BlocksFor(size: nat): (k: nat)
    ensures k * 512 >= size && (k == 0 || (k - 1) * 512 < size)
  {
    (size + 511) / 512
  }

  /** The bytes of blocks `lo` up to `hi`, joined one block after another. */
  function Joined(blocks: seq<seq<u8>>, lo: nat, hi: nat): (data: seq<u8>)
    requires WholeBlocks(blocks) && lo <= hi <= |blocks|
    ensures |data| == (hi - lo) * 512
    decreases hi - lo
  {
    if lo == hi then [] else Joined(blocks, lo, hi - 1) + blocks[hi - 1]
  }

  /** Joining blocks `lo` up to `hi` gives the bytes of that slice of blocks. */
  lemma {:induction false} JoinedIsConcat(blocks: seq<seq<u8>>, lo: nat, hi: nat)
    requires WholeBlocks(blocks) && lo <= hi <= |blocks|
    ensures Joined(blocks, lo, hi) == Concat(blocks[lo..hi])
    decreases hi - lo
  {
    if lo < hi {
      JoinedIsConcat(blocks, lo, hi - 1);
      assert blocks[lo..hi] == blocks[lo..hi - 1] + [blocks[hi - 1]];
      ConcatSnoc(blocks[lo..hi - 1], blocks[hi - 1]);
    }
  }

  /** The data of a file: the `k` blocks after its header, cut to `size` bytes. */
  function FileData(blocks: seq<seq<u8>>, i: nat, k: nat, size: nat): (data: seq<u8>)
    requires WholeBlocks(blocks) && i + 1 + k <= |blocks| && size <= k * 512
    ensures |data| == size
  {
    Joined(blocks, i + 1, i + 1 + k)[..size]
  }

  /**
   * Read back in the archive, a file's data is the `size` bytes that
   * follow its header block.
   */
  lemma FileDataInArchive(tar: seq<u8>, i: nat, k: nat, size: nat)
    requires i + 1 + k <= |tar| / 512 && size <= k * 512
    ensures FileData(Chunks(tar), i, k, size) == tar[(i + 1) * 512..(i + 1) * 512 + size]
  {
    FileDataIsPrefix(Chunks(tar), i, k, size);
    ChunksPrefix(tar, i + 1, i + 1 + k, size);
  }

  lemma FileDataIsPrefix(blocks: seq<seq<u8>>, i: nat, k: nat, size: nat)
    requires WholeBlocks(blocks) && i + 1 + k <= |blocks| && size <= k * 512
    ensures |Concat(blocks[i + 1..i + 1 + k])| >= size
    ensures FileData(blocks, i, k, size) == Concat(blocks[i + 1..i + 1 + k])[..size]
  {
    JoinedIsConcat(blocks, i + 1, i + 1 + k);
  }

  lemma ChunksPrefix(tar: seq<u8>, a: nat, b: nat, size: nat)
    requires a <= b <= |tar| / 512 && size <= (b - a) * 512
    ensures |Concat(Chunks(tar)[a..b])| >= size
    ensures Concat(Chunks(tar)[a..b])[..size] == tar[a * 512..a * 512 + size]
  {
    ChunksConcat(tar, a, b);
    WholeBlocksFit(|tar|, b);
    PrefixOfSlice(tar, a * 512, b * 512, size);
  }

  lemma WholeBlocksFit(n: nat, x: nat)
    requires x <= n / 512
    ensures x * 512 <= n
  {
  }

  lemma PrefixOfSlice(s: seq<u8>, lo: nat, hi: nat, size: nat)
    requires lo + size <= hi <= |s|
    ensures s[lo..hi][..size] == s[lo..lo + size]
  {
  }

  /**
   * A file entry whose header is block `i`, added to `root`: its data is
   * taken from the blocks after the header, and a name ending in a slash
   * is skipped. The result is the block after the data and the new tree.
   */
  function AddFile(blocks: seq<seq<u8>>, i: nat, root: map<Name, Node>): (r: Result<(nat, map<Name, Node>), Panic>)
    requires WholeBlocks(blocks) && i < |blocks|
    ensures r.Ok? ==> r.value.0 == i + 1 + BlocksFor(SizeOf(blocks[i])) <= |blocks|
    ensures r.Err? ==> r.error != Truncated || i + 1 + BlocksFor(SizeOf(blocks[i])) > |blocks|
  {
    var header := blocks[i];
    var size := SizeOf(header);
    var k := BlocksFor(size);
    if i + 1 + k > |blocks| then Err(Truncated)
    else
      var path := SplitLast(NameOf(header));
      if path.1 == [] then Ok((i + 1 + k, root))
      else match GotoInsert(path.0, root, path.1, FileNode(FileData(blocks, i, k, size)))
        case None => Err(IsAFile)
        case Some(updated) => Ok((i + 1 + k, updated))
  }

  /**
   * The entries from block `i` on, added to `root`: a directory header is
   * skipped, a file is added, and other entry types panic.
   */
  function Entries(blocks: seq<seq<u8>>, i: nat, root: map<Name, Node>): Result<map<Name, Node>, Panic>
    requires WholeBlocks(blocks) && i <= |blocks|
    decreases |blocks| - i
  {
    if i == |blocks| then Ok(root)
    else
      match TypeOf(blocks[i])
      case None => Err(UnknownType(blocks[i][TYPE_OFFSET]))
      case Some(Dir) => Entries(blocks, i + 1, root)
      case Some(File) =>
        match AddFile(blocks, i, root)
        case Err(e) => Err(e)
        case Ok(next) => Entries(blocks, next.0, next.1)
  }

  // ---- What a successful parse holds ------------------------------------------

  /** The path a file header's entry is stored under: its parent's directory names, then its file name. */
  function Key(header: seq<u8>): (k: seq<Name>)
    requires |header| == BLOCK
    ensures |k| > 0
  {
    var path := SplitLast(NameOf(header));
    Components(path.0) + [path.1]
  }

  /** `a` is `b` or one of the directories on the way to `b`. */
  predicate IsPrefix(a: seq<Name>, b: seq<Name>)
  {
    |a| <= |b| && b[..|a|] == a
  }

  /**
   * The header blocks, in order, of the file entries the loop inserts
   * from block `i` on (a file whose name ends in a slash is skipped). The
   * list stops where the loop would panic.
   */
  function Inserted(blocks: seq<seq<u8>>, i: nat): (hs: seq<nat>)
    requires WholeBlocks(blocks) && i <= |blocks|
    ensures forall m :: 0 <= m < |hs| ==> i <= hs[m] < |blocks|
    decreases |blocks| - i
  {
    if i == |blocks| then []
    else
      match TypeOf(blocks[i])
      case None => []
      case Some(Dir) => Inserted(blocks, i + 1)
      case Some(File) =>
        var k := BlocksFor(SizeOf(blocks[i]));
        if i + 1 + k > |blocks| then []
        else if SplitLast(NameOf(blocks[i])).1 == [] then Inserted(blocks, i + 1 + k)
        else [i] + Inserted(blocks, i + 1 + k)
  }

  /** A directory header is skipped by the loop and by the list of inserted headers. */
  lemma {:induction false} DirStep(blocks: seq<seq<u8>>, i: nat, root: map<Name, Node>)
    requires WholeBlocks(blocks) && i < |blocks| && TypeOf(blocks[i]) == Some(Dir)
    ensures Entries(blocks, i, root) == Entries(blocks, i + 1, root)
    ensures Inserted(blocks, i) == Inserted(blocks, i + 1)
  {
  }

  /** The file node a file header's entry holds: its data blocks cut to its size. */
  function FileOf(blocks: seq<seq<u8>>, i: nat): Node
    requires WholeBlocks(blocks) && i < |blocks| && i + 1 + BlocksFor(SizeOf(blocks[i])) <= |blocks|
  {
    var size := SizeOf(blocks[i]);
    FileNode(FileData(blocks, i, BlocksFor(size), size))
  }

  /**
   * A file header that the loop gets past: the loop goes on after its
   * data with the file inserted, unless its name ends in a slash, and the
   * list of inserted headers starts with it in that case only.
   */
  lemma {:induction false} FileStep(blocks: seq<seq<u8>>, i: nat, root: map<Name, Node>)
    requires WholeBlocks(blocks) && i < |blocks| && TypeOf(blocks[i]) == Some(File)
    requires Entries(blocks, i, root).Ok?
    ensures AddFile(blocks, i, root).Ok?
    ensures var next := AddFile(blocks, i, root).value; var path := SplitLast(NameOf(blocks[i]));
      && i + 1 + BlocksFor(SizeOf(blocks[i])) == next.0 <= |blocks|
      && Entries(blocks, i, root) == Entries(blocks, next.0, next.1)
      && (path.1 == [] ==> next.1 == root && Inserted(blocks, i) == Inserted(blocks, next.0))
      && (path.1 != [] ==>
            && GotoInsert(path.0, root, path.1, FileOf(blocks, i)) == Some(next.1)
            && Inserted(blocks, i) == [i] + Inserted(blocks, next.0))
  {
    FileLoopStep(blocks, i, root);
    FileAdded(blocks, i, root);
    FileInserted(blocks, i);
  }

  /** The loop gets past a file header exactly as `AddFile` says. */
  lemma {:induction false} FileLoopStep(blocks: seq<seq<u8>>, i: nat, root: map<Name, Node>)
    requires WholeBlocks(blocks) && i < |blocks| && TypeOf(blocks[i]) == Some(File)
    requires Entries(blocks, i, root).Ok?
    ensures AddFile(blocks, i, root).Ok?
    ensures Entries(blocks, i, root) == Entries(blocks, AddFile(blocks, i, root).value.0, AddFile(blocks, i, root).value.1)
  {
  }

  /** What `AddFile` does to the tree when it succeeds. */
  lemma {:induction false} FileAdded(blocks: seq<seq<u8>>, i: nat, root: map<Name, Node>)
    requires WholeBlocks(blocks) && i < |blocks| && AddFile(blocks, i, root).Ok?
    ensures var next := AddFile(blocks, i, root).value; var path := SplitLast(NameOf(blocks[i]));
      && (path.1 == [] ==> next.1 == root)
      && (path.1 != [] ==> GotoInsert(path.0, root, path.1, FileOf(blocks, i)) == Some(next.1))
  {
  }

  /** The inserted headers from a file header whose data fits in the archive. */
  lemma {:induction false} FileInserted(blocks: seq<seq<u8>>, i: nat)
    requires WholeBlocks(blocks) && i < |blocks| && TypeOf(blocks[i]) == Some(File)
    requires i + 1 + BlocksFor(SizeOf(blocks[i])) <= |blocks|
    ensures var k := i + 1 + BlocksFor(SizeOf(blocks[i])); var path := SplitLast(NameOf(blocks[i]));
      && (path.1 == [] ==> Inserted(blocks, i) == Inserted(blocks, k))
      && (path.1 != [] ==> Inserted(blocks, i) == [i] + Inserted(blocks, k))
  {
  }

  /** A header of an unknown type makes the loop panic. */
  lemma {:induction false} UnknownStep(blocks: seq<seq<u8>>, i: nat, root: map<Name, Node>)
    requires WholeBlocks(blocks) && i < |blocks| && TypeOf(blocks[i]).None?
    ensures Entries(blocks, i, root).Err?
  {
  }

  /**
   * An insert leaves a file where it was unless the new entry's path is
   * that file's path or one of its directories.
   */
  lemma {:induction false} InsertKeepsFile(path: seq<u8>, root: map<Name, Node>, name: Name, node: Node, k: seq<Name>, v: Node)
    requires GotoInsert(path, root, name, node).Some?
    requires |k| > 0 && Lookup(root, k) == Some(v) && v.FileNode?
    requires !IsPrefix(Components(path) + [name], k)
    ensures Lookup(GotoInsert(path, root, name, node).value, k) == Some(v)
    decreases |path|
  {
    if path != [] {
      var parts := SplitFirst(path);
      if parts.0 == [DOT] || parts.0 == [] {
        InsertKeepsFile(parts.1, root, name, node, k, v);
      } else if k[0] == parts.0 {
        var rest := Components(parts.1) + [name];
        assert Components(path) + [name] == [parts.0] + rest;
        assert |k| > 1;
        assert !IsPrefix(rest, k[1..]);
        InsertKeepsFile(parts.1, root[parts.0].nodes, name, node, k[1..], v);
      }
    }
  }

  /** A file in the tree stays through the rest of the loop while no later entry is put at its path or above it. */
  lemma {:induction false} EntriesKeepFile(blocks: seq<seq<u8>>, i: nat, root: map<Name, Node>, res: map<Name, Node>, k: seq<Name>, v: Node)
    requires WholeBlocks(blocks) && i <= |blocks| && Entries(blocks, i, root) == Ok(res)
    requires |k| > 0 && Lookup(root, k) == Some(v) && v.FileNode?
    requires var hs := Inserted(blocks, i); forall m :: 0 <= m < |hs| ==> !IsPrefix(Key(blocks[hs[m]]), k)
    ensures Lookup(res, k) == Some(v)
    decreases |blocks| - i
  {
    if i < |blocks| {
      var ty := TypeOf(blocks[i]);
      if ty == Some(Dir) {
        DirStep(blocks, i, root);
        EntriesKeepFile(blocks, i + 1, root, res, k, v);
      } else if ty == Some(File) {
        FileStep(blocks, i, root);
        var next := AddFile(blocks, i, root).value;
        var path := SplitLast(NameOf(blocks[i]));
        var rest := Inserted(blocks, next.0);
        if path.1 != [] {
          assert Inserted(blocks, i)[0] == i;
          InsertKeepsFile(path.0, root, path.1, FileOf(blocks, i), k, v);
          assert forall m :: 0 <= m < |rest| ==> rest[m] == Inserted(blocks, i)[m + 1];
        }
        EntriesKeepFile(blocks, next.0, next.1, res, k, v);
      } else {
        UnknownStep(blocks, i, root);
      }
    }
  }

  /**
   * After a successful parse, the path of an inserted file leads to the
   * data of that file when no later entry has the same path or is put
   * where one of its directories stands: of several entries with one
   * path, the last is kept, and a later file in place of a directory
   * replaces that directory.
   */
  lemma {:induction false} LastFileFound(blocks: seq<seq<u8>>, i: nat, root: map<Name, Node>, res: map<Name, Node>, n: nat)
    requires WholeBlocks(blocks) && i <= |blocks| && Entries(blocks, i, root) == Ok(res)
    requires n < |Inserted(blocks, i)|
    requires var hs := Inserted(blocks, i); forall m :: n < m < |hs| ==> !IsPrefix(Key(blocks[hs[m]]), Key(blocks[hs[n]]))
    ensures var j := Inserted(blocks, i)[n];
      j + 1 + BlocksFor(SizeOf(blocks[j])) <= |blocks| && Lookup(res, Key(blocks[j])) == Some(FileOf(blocks, j))
    decreases |blocks| - i, 2
  {
    var ty := TypeOf(blocks[i]);
    if ty == Some(Dir) {
      LastFileFoundPastDir(blocks, i, root, res, n);
    } else if ty == Some(File) {
      LastFileFoundAtFile(blocks, i, root, res, n);
    } else {
      UnknownStep(blocks, i, root);
    }
  }

  /** `LastFileFound` past a directory header. */
  lemma {:induction false} LastFileFoundPastDir(blocks: seq<seq<u8>>, i: nat, root: map<Name, Node>, res: map<Name, Node>, n: nat)
    requires WholeBlocks(blocks) && i < |blocks| && TypeOf(blocks[i]) == Some(Dir) && Entries(blocks, i, root) == Ok(res)
    requires n < |Inserted(blocks, i)|
    requires var hs := Inserted(blocks, i); forall m :: n < m < |hs| ==> !IsPrefix(Key(blocks[hs[m]]), Key(blocks[hs[n]]))
    ensures var j := Inserted(blocks, i)[n];
      j + 1 + BlocksFor(SizeOf(blocks[j])) <= |blocks| && Lookup(res, Key(blocks[j])) == Some(FileOf(blocks, j))
    decreases |blocks| - i, 1
  {
    DirStep(blocks, i, root);
    LastFileFound(blocks, i + 1, root, res, n);
  }

  /** `LastFileFound` when block `i` is a file header. */
  lemma {:induction false} LastFileFoundAtFile(blocks: seq<seq<u8>>, i: nat, root: map<Name, Node>, res: map<Name, Node>, n: nat)
    requires WholeBlocks(blocks) && i < |blocks| && TypeOf(blocks[i]) == Some(File) && Entries(blocks, i, root) == Ok(res)
    requires n < |Inserted(blocks, i)|
    requires var hs := Inserted(blocks, i); forall m :: n < m < |hs| ==> !IsPrefix(Key(blocks[hs[m]]), Key(blocks[hs[n]]))
    ensures var j := Inserted(blocks, i)[n];
      j + 1 + BlocksFor(SizeOf(blocks[j])) <= |blocks| && Lookup(res, Key(blocks[j])) == Some(FileOf(blocks, j))
    decreases |blocks| - i, 1
  {
    if SplitLast(NameOf(blocks[i])).1 == [] {
      LastFileFoundPastSkipped(blocks, i, root, res, n);
    } else if n == 0 {
      FileStep(blocks, i, root);
      FirstFileFound(blocks, i, root, res);
    } else {
      LastFileFoundPastInserted(blocks, i, root, res, n);
    }
  }

  /** `LastFileFound` past a file header whose name ends in a slash. */
  lemma {:induction false} LastFileFoundPastSkipped(blocks: seq<seq<u8>>, i: nat, root: map<Name, Node>, res: map<Name, Node>, n: nat)
    requires WholeBlocks(blocks) && i < |blocks| && TypeOf(blocks[i]) == Some(File) && Entries(blocks, i, root) == Ok(res)
    requires SplitLast(NameOf(blocks[i])).1 == []
    requires n < |Inserted(blocks, i)|
    requires var hs := Inserted(blocks, i); forall m :: n < m < |hs| ==> !IsPrefix(Key(blocks[hs[m]]), Key(blocks[hs[n]]))
    ensures var j := Inserted(blocks, i)[n];
      j + 1 + BlocksFor(SizeOf(blocks[j])) <= |blocks| && Lookup(res, Key(blocks[j])) == Some(FileOf(blocks, j))
    decreases |blocks| - i, 0
  {
    FileStep(blocks, i, root);
    var next := AddFile(blocks, i, root).value;
    LastFileFound(blocks, next.0, next.1, res, n);
  }

  /** `LastFileFound` for a later entry, past an inserted file header. */
  lemma {:induction false} LastFileFoundPastInserted(blocks: seq<seq<u8>>, i: nat, root: map<Name, Node>, res: map<Name, Node>, n: nat)
    requires WholeBlocks(blocks) && i < |blocks| && TypeOf(blocks[i]) == Some(File) && Entries(blocks, i, root) == Ok(res)
    requires SplitLast(NameOf(blocks[i])).1 != []
    requires 0 < n < |Inserted(blocks, i)|
    requires var hs := Inserted(blocks, i); forall m :: n < m < |hs| ==> !IsPrefix(Key(blocks[hs[m]]), Key(blocks[hs[n]]))
    ensures var j := Inserted(blocks, i)[n];
      j + 1 + BlocksFor(SizeOf(blocks[j])) <= |blocks| && Lookup(res, Key(blocks[j])) == Some(FileOf(blocks, j))
    decreases |blocks| - i, 0
  {
    FileStep(blocks, i, root);
    var next := AddFile(blocks, i, root).value;
    var hs := Inserted(blocks, i);
    var rest := Inserted(blocks, next.0);
    assert forall m :: 0 <= m < |rest| ==> rest[m] == hs[m + 1];
    assert rest[n - 1] == hs[n];
    LastFileFound(blocks, next.0, next.1, res, n - 1);
  }

  /** The file header at block `i` is found after the parse when no later entry is put at its path or above it. */
  lemma {:induction false} FirstFileFound(blocks: seq<seq<u8>>, i: nat, root: map<Name, Node>, res: map<Name, Node>)
    requires WholeBlocks(blocks) && i < |blocks| && TypeOf(blocks[i]) == Some(File) && Entries(blocks, i, root) == Ok(res)
    requires SplitLast(NameOf(blocks[i])).1 != []
    requires var hs := Inserted(blocks, i); forall m :: 0 < m < |hs| ==> !IsPrefix(Key(blocks[hs[m]]), Key(blocks[i]))
    ensures i + 1 + BlocksFor(SizeOf(blocks[i])) <= |blocks| && Lookup(res, Key(blocks[i])) == Some(FileOf(blocks, i))
  {
    FileStep(blocks, i, root);
    var next := AddFile(blocks, i, root).value;
    var path := SplitLast(NameOf(blocks[i]));
    var hs := Inserted(blocks, i);
    var rest := Inserted(blocks, next.0);
    InsertThenFind(path.0, root, path.1, FileOf(blocks, i));
    assert forall m :: 0 <= m < |rest| ==> rest[m] == hs[m + 1];
    EntriesKeepFile(blocks, next.0, next.1, res, Key(blocks[i]), FileOf(blocks, i));
  }

  /**
   * The data of a file whose header is block `i`: `ceil(size / 512)`
   * blocks are copied one by one and the copy is cut to `size` bytes.
   * There are not enough blocks left exactly when the result is `None`.
   */
  method ReadFile(blocks: seq<seq<u8>>, i: nat, size: nat) returns (r: Option<seq<u8>>)
    requires WholeBlocks(blocks) && i < |blocks|
    ensures r.None? <==> i + 1 + BlocksFor(size) > |blocks|
    ensures r.Some? ==> r.value == FileData(blocks, i, BlocksFor(size), size)
  {
    var k := BlocksFor(size);
    var buf: seq<u8> := [];
    var j := 0;
    while j < k
      invariant 0 <= j <= k
      invariant i + 1 + j <= |blocks|
      invariant buf == Joined(blocks, i + 1, i + 1 + j)
    {
      if i + 1 + j == |blocks| {
        return None;
      }
      buf := buf + blocks[i + 1 + j];
      j := j + 1;
    }
    r := Some(buf[..size]);
  }

  /** `AddFile` as the loop body does it: the data blocks are copied before the name is split. */
  method ReadEntry(blocks: seq<seq<u8>>, i: nat, root: map<Name, Node>) returns (r: Result<(nat, map<Name, Node>), Panic>)
    requires WholeBlocks(blocks) && i < |blocks|
    ensures r == AddFile(blocks, i, root)
  {
    var header := blocks[i];
    var size := SizeOf(header);
    var data := ReadFile(blocks, i, size);
    if data.None? {
      return Err(Truncated);
    }
    var k := BlocksFor(size);
    var path := SplitLast(NameOf(header));
    if path.1 == [] {
      return Ok((i + 1 + k, root));
    }
    assert data.value == FileData(blocks, i, k, size);
    var updated := GotoInsert(path.0, root, path.1, FileNode(data.value));
    if updated.None? {
      return Err(IsAFile);
    }
    r := Ok((i + 1 + k, updated.value));
  }

  /** The header-block loop of `parse_tar_gz`: every file is inserted into the tree. */
  method ParseBlocks(blocks: seq<seq<u8>>) returns (r: Result<map<Name, Node>, Panic>)
    requires WholeBlocks(blocks)
    ensures r == Entries(blocks, 0, map[])
  {
    var root: map<Name, Node> := map[];
    var i := 0;
    while i < |blocks|
      invariant i <= |blocks|
      invariant Entries(blocks, i, root) == Entries(blocks, 0, map[])
      decreases |blocks| - i
    {
      var ty := TypeOf(blocks[i]);
      if ty.None? {
        return Err(UnknownType(blocks[i][TYPE_OFFSET]));
      }
      if ty == Some(Dir) {
        i := i + 1;
        continue;
      }
      var step := ReadEntry(blocks, i, root);
      if step.Err? {
        return Err(step.error);
      }
      i, root := step.value.0, step.value.1;
    }
    r := Ok(root);
  }

  /**
   * `parse_tar_gz` after decompression: the GNU tar magic is checked,
   * then the archive's whole blocks are walked.
   */
  method ParseTar(tar: seq<u8>) returns (r: Result<map<Name, Node>, Panic>)
    requires |tar| >= MAGIC_OFFSET + |MAGIC| && tar[MAGIC_OFFSET..MAGIC_OFFSET + |MAGIC|] == MAGIC
    ensures r == Entries(Chunks(tar), 0, map[])
  {
    r := ParseBlocks(Chunks(tar));
  }
}
