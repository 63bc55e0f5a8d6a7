/**
 * The C string and memory routines of the user-space libc (ISO C11 section
 * 7.24). A pointer to a C string is modelled by the bytes stored from that
 * address on; a routine that writes memory works on an array.
 */
module CString {
  import opened Common

  /** Memory holding a terminated C string: some byte is NUL. */
  predicate IsCStr(s: seq<u8>) { 0 in s }

  /** The index of the first NUL: the string's length. */
  function StrLen(s: seq<u8>): (n: nat)
    requires IsCStr(s)
    ensures n < |s| && s[n] == 0
    ensures forall j :: 0 <= j < n ==> s[j] != 0
  {
    if s[0] == 0 then 0 else 1 + StrLen(s[1..])
  }

  /** What `c_str_iter` yields: the characters and then the terminating NUL. */
  function CIter(s: seq<u8>): (it: seq<u8>)
    requires IsCStr(s)
    ensures |it| == StrLen(s) + 1 && it[|it| - 1] == 0
    ensures forall j :: 0 <= j < |it| - 1 ==> it[j] != 0
  {
    s[..StrLen(s) + 1]
  }

  /** `c_char` is signed on x86_64: a byte read as `i8`. */
  function AsCChar(b: u8): int
  {
    if b < 0x80 then b else b - 0x100
  }

  /** `u8::to_ascii_lowercase`. */
  function AsciiLower(b: u8): (l: u8)
    ensures 0x41 <= b <= 0x5A ==> l == b + 0x20
    ensures !(0x41 <= b <= 0x5A) ==> l == b
  {
    if 0x41 <= b <= 0x5A then b + 0x20 else b
  }

  /**
   * `strncmp`: walks both strings together (terminators included) for at
   * most `num` positions and stops at the first difference or shared NUL,
   * returning the difference of the two characters as signed `c_char`s.
   */
  method Strncmp(lhs: seq<u8>, rhs: seq<u8>, num: nat) returns (r: int)
    requires IsCStr(lhs) && IsCStr(rhs)
    ensures var l, h, k := CIter(lhs), CIter(rhs), Min(num, Min(|CIter(lhs)|, |CIter(rhs)|));
      && (r == 0 <==> forall j :: 0 <= j < k ==> l[j] == h[j])
      && (r != 0 ==> exists i :: 0 <= i < k && l[i] != h[i] && r == AsCChar(l[i]) - AsCChar(h[i])
                                && forall j :: 0 <= j < i ==> l[j] == h[j])
  {
    var l, h := CIter(lhs), CIter(rhs);
    var k := Min(num, Min(|l|, |h|));
    var i := 0;
    while i < k
      invariant 0 <= i <= k
      invariant forall j :: 0 <= j < i ==> l[j] == h[j] && l[j] != 0
    {
      if l[i] != h[i] || l[i] == 0 {
        r := AsCChar(l[i]) - AsCChar(h[i]);
        if l[i] == h[i] {
          // a shared NUL ends both strings: no later position exists
          assert i == |l| - 1 && i == |h| - 1;
        }
        return;
      }
      i := i + 1;
    }
    return 0;
  }

  /** `strcmp`: `strncmp` with no length bound. */
  method Strcmp(lhs: seq<u8>, rhs: seq<u8>) returns (r: int)
    requires IsCStr(lhs) && IsCStr(rhs)
    requires |lhs| <= USIZE_MAX && |rhs| <= USIZE_MAX
    ensures r == 0 <==> CIter(lhs) == CIter(rhs)
    ensures var l, h := CIter(lhs), CIter(rhs);
      r != 0 ==> exists i :: 0 <= i < Min(|l|, |h|) && l[i] != h[i] && r == AsCChar(l[i]) - AsCChar(h[i])
                             && forall j :: 0 <= j < i ==> l[j] == h[j]
  {
    r := Strncmp(lhs, rhs, USIZE_MAX);
    var l, h := CIter(lhs), CIter(rhs);
    assert Min(USIZE_MAX, Min(|l|, |h|)) == Min(|l|, |h|);
    if r == 0 {
      var k := Min(|l|, |h|);
      assert l[k - 1] == h[k - 1];
      assert |l| == |h|;
      assert l == h;
    }
  }

  /**
   * `strncasecmp`: as `strncmp`, on ASCII-lower-cased characters taken as
   * unsigned bytes.
   */
  method Strncasecmp(lhs: seq<u8>, rhs: seq<u8>, num: nat) returns (r: int)
    requires IsCStr(lhs) && IsCStr(rhs)
    ensures var l, h, k := CIter(lhs), CIter(rhs), Min(num, Min(|CIter(lhs)|, |CIter(rhs)|));
      && (r == 0 <==> forall j :: 0 <= j < k ==> AsciiLower(l[j]) == AsciiLower(h[j]))
      && (r != 0 ==> exists i :: 0 <= i < k && r == AsciiLower(l[i]) as int - AsciiLower(h[i]) as int
                                && forall j :: 0 <= j < i ==> AsciiLower(l[j]) == AsciiLower(h[j]))
    ensures num == 0 ==> r == 0
  {
    var l, h := CIter(lhs), CIter(rhs);
    var k := Min(num, Min(|l|, |h|));
    var i := 0;
    while i < k
      invariant 0 <= i <= k
      invariant forall j :: 0 <= j < i ==> AsciiLower(l[j]) == AsciiLower(h[j]) && l[j] != 0
    {
      var a, b := AsciiLower(l[i]), AsciiLower(h[i]);
      if a != b || a == 0 {
        r := a as int - b as int;
        if a == b {
          assert i == |l| - 1 && i == |h| - 1;
        }
        return;
      }
      i := i + 1;
    }
    return 0;
  }

  /**
   * `strchr`: the index of the first occurrence of `character` (converted
   * to `c_char`), the terminator included, or null.
   */
  method Strchr(s: seq<u8>, character: int) returns (r: Option<nat>)
    requires IsCStr(s)
    ensures var it, c := CIter(s), character % 0x100;
      && (r.Some? ==> r.value <= StrLen(s) && it[r.value] == c && c !in it[..r.value])
      && (r.None? ==> c !in it)
    ensures character % 0x100 == 0 ==> r == Some(StrLen(s))
  {
    var it := CIter(s);
    var c := character % 0x100;
    var i := 0;
    while i < |it|
      invariant 0 <= i <= |it|
      invariant c !in it[..i]
    {
      if it[i] == c {
        return Some(i);
      }
      i := i + 1;
    }
    assert it[..i] == it;
    return None;
  }

  /**
   * `strncpy`: copies characters up to the first NUL or `num`, then fills
   * the rest of the `num` bytes with zeros.
   */
  method Strncpy(dst: array<u8>, src: seq<u8>, num: nat)
    requires IsCStr(src) && num <= dst.Length
    modifies dst
    ensures var k := Min(num, StrLen(src));
      && dst[..k] == src[..k]
      && (forall j :: k <= j < num ==> dst[j] == 0)
      && dst[num..] == old(dst[num..])
  {
    var i := 0;
    while src[i] != 0 && i < num
      decreases num - i
      invariant 0 <= i <= num && i <= StrLen(src)
      invariant dst[..i] == src[..i]
      invariant dst[num..] == old(dst[num..])
    {
      dst[i] := src[i];
      i := i + 1;
    }
    var j := i;
    while j < num
      invariant i <= j <= num
      invariant dst[..i] == src[..i]
      invariant forall m :: i <= m < j ==> dst[m] == 0
      invariant dst[num..] == old(dst[num..])
    {
      dst[j] := 0;
      j := j + 1;
    }
  }

  /** `strnlen`: counts characters before the first NUL, stopping after `size`. */
  method Strnlen(s: seq<u8>, size: nat) returns (n: nat)
    requires IsCStr(s)
    ensures n == Min(size, StrLen(s))
  {
    var it := CIter(s);
    n := 0;
    while n < size && n < |it| && it[n] != 0
      invariant 0 <= n <= Min(size, StrLen(s))
    {
      n := n + 1;
    }
  }

  /** `strlen`. */
  method Strlen(s: seq<u8>) returns (n: nat)
    requires IsCStr(s) && |s| <= USIZE_MAX
    ensures n == StrLen(s)
  {
    n := Strnlen(s, USIZE_MAX);
  }

  /** `memcmp`: the difference of the first differing bytes, as unsigned, or 0. */
  method Memcmp(lhs: seq<u8>, rhs: seq<u8>, count: nat) returns (r: int)
    requires count <= |lhs| && count <= |rhs|
    ensures r == 0 <==> lhs[..count] == rhs[..count]
    ensures r != 0 ==> exists i :: 0 <= i < count && lhs[..i] == rhs[..i] && r == lhs[i] as int - rhs[i] as int
  {
    var i := 0;
    while i < count
      invariant 0 <= i <= count
      invariant lhs[..i] == rhs[..i]
    {
      if lhs[i] != rhs[i] {
        return lhs[i] as int - rhs[i] as int;
      }
      i := i + 1;
    }
    return 0;
  }

  /** `memcpy`: a forward byte copy between two distinct buffers. */
  method Memcpy(dest: array<u8>, src: seq<u8>, count: nat)
    requires count <= dest.Length && count <= |src|
    modifies dest
    ensures dest[..count] == src[..count]
    ensures dest[count..] == old(dest[count..])
  {
    var i := 0;
    while i < count
      invariant 0 <= i <= count
      invariant dest[..i] == src[..i]
      invariant dest[count..] == old(dest[count..])
    {
      dest[i] := src[i];
      i := i + 1;
    }
  }

  /**
   * `memmove` within one memory `mem`: copies forwards when the destination
   * lies below the source and backwards otherwise, so overlapping ranges are
   * copied as if through a temporary buffer.
   */
  method Memmove(mem: array<u8>, dest: nat, src: nat, count: nat)
    requires dest + count <= mem.Length && src + count <= mem.Length
    modifies mem
    ensures mem[dest..dest + count] == old(mem[src..src + count])
    ensures forall k :: 0 <= k < mem.Length && !(dest <= k < dest + count) ==> mem[k] == old(mem[k])
  {
    if dest < src {
      var i := 0;
      while i < count
        invariant 0 <= i <= count
        invariant forall k :: dest <= k < dest + i ==> mem[k] == old(mem[k - dest + src])
        invariant forall k :: 0 <= k < mem.Length && !(dest <= k < dest + i) ==> mem[k] == old(mem[k])
      {
        mem[dest + i] := mem[src + i];
        i := i + 1;
      }
    } else {
      var i := count;
      while i > 0
        invariant 0 <= i <= count
        invariant forall k :: dest + i <= k < dest + count ==> mem[k] == old(mem[k - dest + src])
        invariant forall k :: 0 <= k < mem.Length && !(dest + i <= k < dest + count) ==> mem[k] == old(mem[k])
      {
        i := i - 1;
        mem[dest + i] := mem[src + i];
      }
    }
  }

  /** `memset`: the first `count` bytes become `ch as u8`; nothing else changes. */
  method Memset(dest: array<u8>, ch: int, count: nat)
    requires count <= dest.Length
    modifies dest
    ensures forall j :: 0 <= j < count ==> dest[j] == ch % 0x100
    ensures dest[count..] == old(dest[count..])
  {
    var i := 0;
    while i < count
      invariant 0 <= i <= count
      invariant forall j :: 0 <= j < i ==> dest[j] == ch % 0x100
      invariant dest[count..] == old(dest[count..])
    {
      dest[i] := ch % 0x100;
      i := i + 1;
    }
  }

  /** Test cases of the source, by sign: "a" vs "a" and "a" vs "a1". */
  method StrncmpExamples() returns (same: int, shorter: int)
    ensures same == 0 && shorter < 0
  {
    var a, a1 := [0x61, 0], [0x61, 0x31, 0];
    assert CIter(a) == a && CIter(a1) == a1;
    same := Strncmp(a, a, USIZE_MAX);
    shorter := Strncmp(a, a1, USIZE_MAX);
  }

  /** Test cases of the source: "teSt" vs "tEsT" over 4, and any pair over 0. */
  method StrncasecmpExamples() returns (r: int)
    ensures r == 0
  {
    var x, y := [0x74, 0x65, 0x53, 0x74, 0], [0x74, 0x45, 0x73, 0x54, 0];
    assert CIter(x) == x && CIter(y) == y;
    r := Strncasecmp(x, y, 4);
  }
}
