/** RGB colours and the `#rrggbb` text form the shell and window manager accept. */
module Color {
  import opened Common

  datatype Color = Color(r: u8, g: u8, b: u8)

  const WHITE := Color(0xff, 0xff, 0xff)
  const BLACK := Color(0x00, 0x00, 0x00)
  const RED := Color(0xff, 0x00, 0x00)
  const GREEN := Color(0x00, 0xff, 0x00)
  const BLUE := Color(0x00, 0x00, 0xff)

  const HASH: u8 := 0x23

  /** A hex digit as written: '0'..'9' and 'a'..'f' give 0..15, any other byte stays as it is. */
  function ParseHexChar(c: u8): (v: u8)
    ensures 0x30 <= c <= 0x39 ==> v == c - 0x30
    ensures 0x61 <= c <= 0x66 ==> v == c - 0x61 + 10
    ensures !(0x30 <= c <= 0x39 || 0x61 <= c <= 0x66) ==> v == c
  {
    if 0x30 <= c <= 0x39 then c - 0x30
    else if 0x61 <= c <= 0x66 then c - 0x61 + 0xa
    else c
  }

  /** Bitwise or of two naturals, one bit at a time from the low end. */
  function BitOr(a: nat, b: nat): nat
    decreases a + b
  {
    if a == 0 then b
    else if b == 0 then a
    else 2 * BitOr(a / 2, b / 2) + (if a % 2 == 1 || b % 2 == 1 then 1 else 0)
  }

  function Pow2(k: nat): (p: nat)
    ensures p > 0
  {
    if k == 0 then 1 else 2 * Pow2(k - 1)
  }

  /** Or-ing values of `k` bits gives a value of `k` bits. */
  lemma {:induction false} BitOrBound(a: nat, b: nat, k: nat)
    requires a < Pow2(k) && b < Pow2(k)
    ensures BitOr(a, b) < Pow2(k)
    decreases a + b
  {
    if a != 0 && b != 0 {
      BitOrBound(a / 2, b / 2, k - 1);
    }
  }

  /** When the bits of `a` sit below the `k` low zero bits of `b`, or-ing them is adding them. */
  lemma {:induction false} BitOrDisjoint(a: nat, q: nat, k: nat)
    requires a < Pow2(k)
    ensures BitOr(a, Pow2(k) * q) == a + Pow2(k) * q
    decreases k
  {
    var b := Pow2(k) * q;
    if a != 0 && b != 0 {
      var c := Pow2(k - 1) * q;
      assert b == 2 * c;
      BitOrDisjoint(a / 2, q, k - 1);
    }
  }

  /** `parse_hex_char(s0) | parse_hex_char(s1) << 4` on `u8`: the shift drops the bits above the eighth. */
  function ParseByte(s0: u8, s1: u8): (v: u8)
    ensures ParseHexChar(s0) < 16 ==> v == ParseHexChar(s0) + 16 * (ParseHexChar(s1) % 16)
  {
    var a, b := ParseHexChar(s0), (ParseHexChar(s1) * 16) % 0x100;
    assert Pow2(8) == 0x100;
    BitOrBound(a, b, 8);
    ShiftedNibbleOr(a, ParseHexChar(s1));
    BitOr(a, b)
  }

  /** Or-ing a nibble with a byte shifted left by four adds them. */
  lemma ShiftedNibbleOr(a: nat, x: nat)
    ensures a < 16 ==> BitOr(a, (x * 16) % 0x100) == a + 16 * (x % 16)
  {
    if a < 16 {
      assert Pow2(4) == 16;
      assert (x * 16) % 0x100 == Pow2(4) * (x % 16);
      BitOrDisjoint(a, x % 16, 4);
    }
  }

  /** The lower-case hex digit of a nibble. */
  function HexDigit(d: int): (c: u8)
    requires 0 <= d < 16
    ensures 0x30 <= c <= 0x39 || 0x61 <= c <= 0x66
  {
    if d < 10 then 0x30 + d else 0x61 + d - 10
  }

  /** Decoding a lower-case hex digit gives back its nibble. */
  lemma ParseHexDigit(d: int)
    requires 0 <= d < 16
    ensures ParseHexChar(HexDigit(d)) == d
  {
  }

  /** For two hex digits, the FIRST digit is the low nibble and the second the high nibble. */
  lemma ParseByteDigits(lo: int, hi: int)
    requires 0 <= lo < 16 && 0 <= hi < 16
    ensures ParseByte(HexDigit(lo), HexDigit(hi)) == lo + 16 * hi
  {
    ParseHexDigit(lo);
    ParseHexDigit(hi);
    NibblesOr(lo, hi);
  }

  lemma NibblesOr(lo: int, hi: int)
    requires 0 <= lo < 16 && 0 <= hi < 16
    ensures BitOr(lo, (hi * 16) % 0x100) == lo + 16 * hi
  {
    assert Pow2(4) == 16;
    assert (hi * 16) % 0x100 == Pow2(4) * hi;
    BitOrDisjoint(lo, hi, 4);
  }

  /** `from_hex_bytes_2`: three two-character bytes, as written. */
  function FromHexBytes2(hex: seq<u8>): Color
    requires |hex| == 6
  {
    Color(ParseByte(hex[0], hex[1]), ParseByte(hex[2], hex[3]), ParseByte(hex[4], hex[5]))
  }

  /** A byte with its two nibbles exchanged. */
  function SwapNibbles(v: u8): (w: u8)
    ensures w / 16 == v % 16 && w % 16 == v / 16
  {
    (v % 16) * 16 + v / 16
  }

  /**
   * As written, a colour spelled "rrggbb" in lower case comes back with the
   * two digits of every channel exchanged.
   */
  lemma {:induction false} FromHexBytes2Swaps(c: Color)
    ensures FromHexBytes2(ToHex(c)[1..]) == Color(SwapNibbles(c.r), SwapNibbles(c.g), SwapNibbles(c.b))
  {
    ParseByteDigits(c.r / 16, c.r % 16);
    ParseByteDigits(c.g / 16, c.g % 16);
    ParseByteDigits(c.b / 16, c.b % 16);
  }

  /**
   * `from_hex_bytes`: six or eight characters, optionally after '#'; the
   * last two of eight are ignored. The patterns are tried in source order,
   * so an eight-byte input starting with '#' is read as eight characters.
   */
  function FromHexBytes(hex: seq<u8>): (c: Option<Color>)
    ensures c.Some? <==> |hex| in {6, 8} || (|hex| in {7, 9} && hex[0] == HASH)
    ensures c.Some? && |hex| in {6, 8} ==> c.value == FromHexBytes2(hex[..6])
    ensures c.Some? && |hex| in {7, 9} ==> c.value == FromHexBytes2(hex[1..7])
  {
    if |hex| == 8 || |hex| == 6 then Some(FromHexBytes2(hex[..6]))
    else if (|hex| == 9 || |hex| == 7) && hex[0] == HASH then Some(FromHexBytes2(hex[1..7]))
    else None
  }

  /** `as_u32`: `u32::from_le_bytes([b, g, r, 0])`. */
  function AsU32(c: Color): (v: u32)
    ensures v < 0x100_0000
    ensures v % 0x100 == c.b && (v / 0x100) % 0x100 == c.g && v / 0x1_0000 == c.r
  {
    c.b + 0x100 * c.g + 0x1_0000 * c.r
  }

  /** `from_u32`: bytes 0, 1 and 2 of the little-endian representation become r, g and b. */
  function FromU32(code: u32): (c: Color)
    ensures c.r == code % 0x100
    ensures c.g == (code / 0x100) % 0x100
    ensures c.b == (code / 0x1_0000) % 0x100
  {
    Color(code % 0x100, (code / 0x100) % 0x100, (code / 0x1_0000) % 0x100)
  }

  /** `as_u32` puts blue in the low byte and `from_u32` reads red from it: the round trip swaps red and blue. */
  lemma FromAsU32(c: Color)
    ensures FromU32(AsU32(c)) == Color(c.b, c.g, c.r)
  {
  }

  /** As written, "#141414" (the window manager's background) reads every channel as 0x41. */
  lemma NibbleOrderCounterexample()
    ensures FromHexBytes(Bytes("#141414")) == Some(Color(0x41, 0x41, 0x41))
  {
    ParseByteDigits(1, 4);
  }

  /** As written, upper-case digits are not decoded: "#00FFFF" gives green and blue 0x66. */
  lemma UpperCaseCounterexample()
    ensures FromHexBytes(Bytes("#00FFFF")) == Some(Color(0x00, 0x66, 0x66))
  {
    ParseByteDigits(0, 0);
    OrOfUpperF();
    assert ParseByte(0x46, 0x46) == 0x66;
  }

  /** 'F' is not decoded, so "FF" is 0x46 or-ed with 0x46 shifted left by 4 and cut to a byte. */
  lemma OrOfUpperF()
    ensures BitOr(0x46, (0x46 * 16) % 0x100) == 0x66
  {
    assert BitOr(1, 1) == 1;
    assert BitOr(2, 3) == 3;
    assert BitOr(4, 6) == 6;
    assert BitOr(8, 12) == 12;
    assert BitOr(0x11, 0x18) == 0x19;
    assert BitOr(0x23, 0x30) == 0x33;
    assert (0x46 * 16) % 0x100 == 0x60;
  }

  // The evidently intended reading: the first digit of a pair is the high
  // nibble, and 'A'..'F' count as digits as well as 'a'..'f'.

  function HexValue(c: u8): Option<int>
  {
    if 0x30 <= c <= 0x39 then Some(c - 0x30)
    else if 0x61 <= c <= 0x66 then Some(c - 0x61 + 10)
    else if 0x41 <= c <= 0x46 then Some(c - 0x41 + 10)
    else None
  }

  function ParsePair(hi: u8, lo: u8): Option<u8>
  {
    match (HexValue(hi), HexValue(lo))
    case (Some(h), Some(l)) => Some(16 * h + l)
    case _ => None
  }

  /** The corrected parser: both cases of hex digit, high nibble first, non-digits rejected. */
  function FromHexBytesIntended(hex: seq<u8>): (c: Option<Color>)
    ensures c.Some? ==> |hex| in {6, 8} || (|hex| in {7, 9} && hex[0] == HASH)
  {
    var body :=
      if |hex| == 8 || |hex| == 6 then Some(hex[..6])
      else if (|hex| == 9 || |hex| == 7) && hex[0] == HASH then Some(hex[1..7])
      else None;
    match body
    case None => None
    case Some(d) =>
      match (ParsePair(d[0], d[1]), ParsePair(d[2], d[3]), ParsePair(d[4], d[5]))
      case (Some(r), Some(g), Some(b)) => Some(Color(r, g, b))
      case _ => None
  }

  /** `#rrggbb` in lower case. */
  function ToHex(c: Color): (s: seq<u8>)
    ensures |s| == 7 && s[0] == HASH
  {
    [HASH, HexDigit(c.r / 16), HexDigit(c.r % 16), HexDigit(c.g / 16), HexDigit(c.g % 16),
     HexDigit(c.b / 16), HexDigit(c.b % 16)]
  }

  lemma PairOfDigits(v: u8)
    ensures ParsePair(HexDigit(v / 16), HexDigit(v % 16)) == Some(v)
  {
  }

  /** The corrected parser reads back every colour it is shown. */
  lemma {:induction false} IntendedRoundTrip(c: Color)
    ensures FromHexBytesIntended(ToHex(c)) == Some(c)
  {
    PairOfDigits(c.r);
    PairOfDigits(c.g);
    PairOfDigits(c.b);
  }

  /** On "#141414" the corrected parser gives 0x14 in every channel, and on "#00FFFF" cyan. */
  lemma IntendedExamples()
    ensures FromHexBytesIntended(Bytes("#141414")) == Some(Color(0x14, 0x14, 0x14))
    ensures FromHexBytesIntended(Bytes("#00FFFF")) == Some(Color(0x00, 0xff, 0xff))
  {
  }
}
