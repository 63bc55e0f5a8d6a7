/**
 * `StaticStr<SIZE>`: a fixed-size byte array holding a UTF-8 string that
 * ends at the first zero byte (or fills the whole array).
 */
module StaticStr {
  import opened Common

  /** The bytes before the first zero, or all of them when there is none. */
  function ZeroLimited(bytes: seq<u8>): (r: seq<u8>)
    ensures |r| <= |bytes| && r == bytes[..|r|]
    ensures 0 !in r
    ensures |r| < |bytes| ==> bytes[|r|] == 0
  {
    if |bytes| == 0 || bytes[0] == 0 then []
    else [bytes[0]] + ZeroLimited(bytes[1..])
  }

  /** A zero-free array is its own zero-limited prefix. */
  lemma {:induction false} ZeroLimitedNoZero(bytes: seq<u8>)
    requires 0 !in bytes
    ensures ZeroLimited(bytes) == bytes
  {
    if |bytes| > 0 {
      ZeroLimitedNoZero(bytes[1..]);
    }
  }

  predicate Cont(b: u8) { 0x80 <= b <= 0xBF }

  /**
   * The length of the well-formed UTF-8 encoding of one character at the
   * start of `s`, or 0 when `s` does not start with one (the well-formed
   * byte sequences of the Unicode Standard, table 3-7: no overlong forms,
   * no surrogates, nothing above U+10FFFF).
   */
  function CharWidth(s: seq<u8>): (w: nat)
    requires |s| > 0
    ensures w <= 4 && w <= |s|
  {
    var b0 := s[0];
    if b0 <= 0x7F then 1
    else if 0xC2 <= b0 <= 0xDF then
      if |s| >= 2 && Cont(s[1]) then 2 else 0
    else if 0xE0 <= b0 <= 0xEF then
      var lo := if b0 == 0xE0 then 0xA0 else 0x80;
      var hi := if b0 == 0xED then 0x9F else 0xBF;
      if |s| >= 3 && lo <= s[1] <= hi && Cont(s[2]) then 3 else 0
    else if 0xF0 <= b0 <= 0xF4 then
      var lo := if b0 == 0xF0 then 0x90 else 0x80;
      var hi := if b0 == 0xF4 then 0x8F else 0xBF;
      if |s| >= 4 && lo <= s[1] <= hi && Cont(s[2]) && Cont(s[3]) then 4 else 0
    else 0
  }

  /** `s` is a sequence of well-formed UTF-8 characters. */
  predicate ValidUtf8(s: seq<u8>)
    decreases |s|
  {
    |s| == 0 || (CharWidth(s) > 0 && ValidUtf8(s[CharWidth(s)..]))
  }

  /** The length of the longest prefix made of whole, well-formed characters (`valid_up_to`). */
  function ValidUpTo(s: seq<u8>): (n: nat)
    ensures n <= |s|
    ensures n == |s| <==> ValidUtf8(s)
    ensures ValidUtf8(s[..n])
    decreases |s|
  {
    if |s| == 0 || CharWidth(s) == 0 then
      assert s[..0] == [];
      0
    else
      var w := CharWidth(s);
      var rest := ValidUpTo(s[w..]);
      var p := s[..w + rest];
      assert |p| == w + rest > 0;
      assert p[w..] == s[w..][..rest];
      CharWidthPrefix(s, w + rest);
      w + rest
  }

  /** The width of the first character depends only on its own bytes. */
  lemma CharWidthPrefix(s: seq<u8>, n: nat)
    requires 0 < |s| && 0 < CharWidth(s) <= n <= |s|
    ensures CharWidth(s[..n]) == CharWidth(s)
  {
  }

  /** `Utf8Error`: the length of the valid prefix. */
  datatype Utf8Error = Utf8Error(valid_up_to: nat)

  /** The array and the invariant that its zero-limited prefix is valid UTF-8. */
  datatype StaticStr = StaticStr(bytes: seq<u8>) {
    predicate Valid() { ValidUtf8(ZeroLimited(bytes)) }

    /** `as_bytes`: the string's bytes, without the zero padding. */
    function AsBytes(): (r: seq<u8>)
      ensures |r| <= |bytes| && r == bytes[..|r|] && 0 !in r
    {
      ZeroLimited(bytes)
    }
  }

  /** Checks the zero-limited prefix and keeps the whole array when it is valid. */
  function FromUtf8(bytes: seq<u8>): (r: Result<StaticStr, Utf8Error>)
    ensures r.Ok? <==> ValidUtf8(ZeroLimited(bytes))
    ensures r.Ok? ==> r.value.bytes == bytes && r.value.Valid()
    ensures r.Err? ==> r.error.valid_up_to < |ZeroLimited(bytes)|
  {
    var prefix := ZeroLimited(bytes);
    var n := ValidUpTo(prefix);
    if n == |prefix| then Ok(StaticStr(bytes)) else Err(Utf8Error(n))
  }

  /** A string built by `from_utf8` gives back exactly the bytes before the first zero. */
  lemma AsBytesAfterFromUtf8(bytes: seq<u8>)
    requires FromUtf8(bytes).Ok?
    ensures FromUtf8(bytes).value.AsBytes() == ZeroLimited(bytes)
    ensures 0 !in bytes ==> FromUtf8(bytes).value.AsBytes() == bytes
  {
    if 0 !in bytes { ZeroLimitedNoZero(bytes); }
  }

  lemma Examples()
    ensures ZeroLimited([0x68, 0x69, 0, 0x41]) == [0x68, 0x69]
    ensures FromUtf8([0x68, 0x69, 0, 0xFF]).Ok?
    ensures FromUtf8([0xC3, 0x28, 0]) == Err(Utf8Error(0))
  {
    assert ZeroLimited([0x68, 0x69, 0, 0xFF]) == [0x68, 0x69];
    assert ZeroLimited([0xC3, 0x28, 0]) == [0xC3, 0x28];
  }
}
