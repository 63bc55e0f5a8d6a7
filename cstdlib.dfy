/** `abs` and `atoi` of the user-space libc (ISO C11 sections 7.22.6.1 and 7.22.1.2). */
module CStdlib {
  import opened Common
  import CString

  const I32_MIN: int := -0x8000_0000
  const I32_MAX: int := 0x7FFF_FFFF

  /** `i32::abs`: the magnitude, except that `i32::MIN` has none and stays itself. */
  function Abs(n: int): (r: int)
    requires I32_MIN <= n <= I32_MAX
    ensures n != I32_MIN ==> 0 <= r && (r == n || r == -n)
    ensures n == I32_MIN ==> r == I32_MIN
  {
    if n == I32_MIN then I32_MIN else if n < 0 then -n else n
  }

  /** `isspace` in the "C" locale: space, '\t', '\n', '\v', '\f' and '\r'. */
  predicate IsSpace(c: u8) { c == 0x20 || 0x09 <= c <= 0x0D }

  /** `isdigit`. */
  predicate IsDigit(c: u8) { 0x30 <= c <= 0x39 }

  /** The number of leading white-space bytes. */
  function SpaceRun(s: seq<u8>): (n: nat)
    ensures n <= |s|
    ensures forall j :: 0 <= j < n ==> IsSpace(s[j])
    ensures n < |s| ==> !IsSpace(s[n])
  {
    if |s| == 0 || !IsSpace(s[0]) then 0 else 1 + SpaceRun(s[1..])
  }

  /** The number of leading decimal digits. */
  function DigitRun(s: seq<u8>): (n: nat)
    ensures n <= |s|
    ensures forall j :: 0 <= j < n ==> IsDigit(s[j])
    ensures n < |s| ==> !IsDigit(s[n])
  {
    if |s| == 0 || !IsDigit(s[0]) then 0 else 1 + DigitRun(s[1..])
  }

  /** The decimal value of a run of digits, most significant first. */
  function Value(d: seq<u8>): (v: nat)
    requires forall j :: 0 <= j < |d| ==> IsDigit(d[j])
  {
    if |d| == 0 then 0
    else
      var last := d[|d| - 1];
      assert IsDigit(last);
      10 * Value(d[..|d| - 1]) + (last - 0x30)
  }

  lemma ValueStep(d: seq<u8>, n: nat)
    requires forall j :: 0 <= j < |d| ==> IsDigit(d[j])
    requires n < |d|
    ensures Value(d[..n + 1]) == 10 * Value(d[..n]) + (d[n] - 0x30)
  {
    assert d[..n + 1][..n] == d[..n];
  }

  /** A prefix of a digit run never has a larger value than the run. */
  lemma {:induction false} ValuePrefix(d: seq<u8>, i: nat)
    requires forall j :: 0 <= j < |d| ==> IsDigit(d[j])
    requires i <= |d|
    ensures Value(d[..i]) <= Value(d)
    decreases |d| - i
  {
    if i < |d| {
      ValuePrefix(d, i + 1);
      ValueStep(d, i);
    } else {
      assert d[..i] == d;
    }
  }

  /** Where the digits start: after the white space and an optional sign. */
  function DigitsStart(s: seq<u8>): (n: nat)
    ensures SpaceRun(s) <= n <= |s|
  {
    var w := SpaceRun(s);
    if w < |s| && (s[w] == 0x2D || s[w] == 0x2B) then w + 1 else w
  }

  /** The parts of `atoi`'s input: whether the sign is '-', and the digits. */
  function Parts(s: seq<u8>): (p: (bool, seq<u8>))
    ensures forall j :: 0 <= j < |p.1| ==> IsDigit(p.1[j])
  {
    var w, n := SpaceRun(s), DigitsStart(s);
    (w < |s| && s[w] == 0x2D, s[n..][..DigitRun(s[n..])])
  }

  /** The value `atoi` denotes, before any range concern. */
  function AtoiValue(s: seq<u8>): int
  {
    var (neg, digits) := Parts(s);
    if neg then -(Value(digits) as int) else Value(digits)
  }

  /** A mathematical integer as the 32-bit `c_int` it wraps to (two's complement). */
  function Wrap32(x: int): (r: int)
    ensures I32_MIN <= r <= I32_MAX
    ensures I32_MIN <= x <= I32_MAX ==> r == x
    ensures (r - x) % 0x1_0000_0000 == 0
  {
    (x - I32_MIN) % 0x1_0000_0000 + I32_MIN
  }

  /** Wrapping forgets multiples of 2^32, so it can be applied at every step or only at the end. */
  lemma WrapShift(x: int, k: int)
    ensures Wrap32(x + k * 0x1_0000_0000) == Wrap32(x)
  {
    var m := 0x1_0000_0000;
    var q, r := (x - I32_MIN) / m, (x - I32_MIN) % m;
    assert x - I32_MIN + k * m == (q + k) * m + r;
  }

  /** One step of the wrapping accumulation agrees with wrapping the exact value. */
  lemma WrapStep(x: int, c: int)
    ensures Wrap32(10 * Wrap32(x) + c) == Wrap32(10 * x + c)
  {
    var k := (Wrap32(x) - x) / 0x1_0000_0000;
    assert Wrap32(x) == x + k * 0x1_0000_0000;
    assert 10 * Wrap32(x) + c == 10 * x + c + (10 * k) * 0x1_0000_0000;
    WrapShift(10 * x + c, 10 * k);
  }

  /** Negation wraps like every other step (`-i32::MIN` is `i32::MIN` again). */
  lemma WrapNeg(x: int)
    ensures Wrap32(-Wrap32(x)) == Wrap32(-x)
  {
    var k := (Wrap32(x) - x) / 0x1_0000_0000;
    assert Wrap32(x) == x + k * 0x1_0000_0000;
    assert -Wrap32(x) == -x + (-k) * 0x1_0000_0000;
    WrapShift(-x, -k);
  }

  /**
   * `atoi` on the characters of a C string (without its terminator): skips
   * white space, reads an optional sign, then accumulates the digits
   * NEGATIVELY and negates at the end unless the sign was '-', so that
   * `i32::MIN` itself can be read. Every step is 32-bit arithmetic that wraps,
   * as in a release build, so a value out of range comes back reduced modulo 2^32.
   */
  method Atoi(s: seq<u8>) returns (r: int)
    requires 0 !in s
    ensures r == Wrap32(AtoiValue(s))
    ensures I32_MIN <= AtoiValue(s) <= I32_MAX ==> r == AtoiValue(s)
  {
    var start, neg := SignedStart(s);
    ghost var digits := Parts(s).1;
    assert AtoiValue(s) == if neg then -(Value(digits) as int) else Value(digits);
    var res := NegatedDigits(s, start);
    if neg {
      r := res;
    } else {
      r := Wrap32(-res);
      WrapNeg(-(Value(digits) as int));
    }
  }

  /** The first half of `atoi`: skip the white space, then read the sign if there is one. */
  method SignedStart(s: seq<u8>) returns (i: nat, neg: bool)
    requires 0 !in s
    ensures i == DigitsStart(s) && neg == Parts(s).0
  {
    var it := s + [0];
    i := 0;
    while IsSpace(it[i])
      decreases SpaceRun(s) - i
      invariant i <= SpaceRun(s)
    {
      i := i + 1;
    }
    neg := it[i] == 0x2D;
    if it[i] == 0x2D || it[i] == 0x2B {
      i := i + 1;
    }
  }

  /** The second half of `atoi`: the digits from `start`, accumulated as a negative number that wraps. */
  method NegatedDigits(s: seq<u8>, start: nat) returns (res: int)
    requires 0 !in s && start == DigitsStart(s)
    ensures res == Wrap32(-(Value(Parts(s).1) as int))
  {
    var it := s + [0];
    ghost var digits := Parts(s).1;
    DigitsAt(s, start, digits);
    var i := start;
    res := 0;
    while IsDigit(it[i])
      decreases |s| - i
      invariant start <= i <= start + |digits|
      invariant res == Wrap32(-(Value(digits[..i - start]) as int))
    {
      ghost var n := i - start;
      assert n < |digits| && it[i] == digits[n];
      ValueStep(digits, n);
      WrapStep(-(Value(digits[..n]) as int), 0x30 - it[i] as int);
      res := Wrap32(10 * res + 0x30 - it[i] as int);
      i := i + 1;
    }
    assert digits[..i - start] == digits;
  }

  /** Where the digits sit in the terminated input. */
  lemma DigitsAt(s: seq<u8>, start: nat, digits: seq<u8>)
    requires digits == Parts(s).1 && start == DigitsStart(s)
    ensures start + |digits| <= |s|
    ensures forall j :: 0 <= j < |digits| ==> (s + [0])[start + j] == digits[j]
    ensures !IsDigit((s + [0])[start + |digits|])
  {
    var u := s[start..];
    assert digits == u[..DigitRun(u)];
    forall j | 0 <= j < |digits|
      ensures (s + [0])[start + j] == digits[j]
    {
      assert u[j] == s[start + j];
    }
    if start + |digits| < |s| {
      assert u[|digits|] == s[start + |digits|];
    }
  }

  /** Test inputs of the source: an empty string, and white space around a number. */
  lemma AtoiExamplesSpaces()
    ensures AtoiValue([]) == 0
    ensures AtoiValue([0x20, 0x20, 0x36, 0x35, 0x34, 0x20, 0x20]) == 654
  {
    var s: seq<u8> := [0x20, 0x20, 0x36, 0x35, 0x34, 0x20, 0x20];
    assert SpaceRun(s) == 2 && DigitsStart(s) == 2;
    assert DigitRun(s[2..]) == 3;
    assert s[2..][..3] == [0x36, 0x35, 0x34];
    ValueOf654();
  }

  lemma ValueOf654()
    ensures Value([0x36, 0x35, 0x34]) == 654
  {
    var d: seq<u8> := [0x36, 0x35, 0x34];
    assert d[..2] == [0x36, 0x35] && d[..2][..1] == [0x36] && [0x36][..0] == [];
  }

  /** Test input of the source: a letter after the number. */
  lemma AtoiExampleLetter()
    ensures AtoiValue([0x20, 0x33, 0x64]) == 3
  {
    var t: seq<u8> := [0x20, 0x33, 0x64];
    assert SpaceRun(t) == 1 && DigitsStart(t) == 1;
    assert t[1..][..1] == [0x33] && [0x33][..0] == [];
  }

  /** Test inputs of the source: signs, and a letter before the sign. */
  lemma AtoiExamplesSigned()
    ensures AtoiValue([0x2D, 0x33, 0x64]) == -3
    ensures AtoiValue([0x2B, 0x33, 0x64]) == 3
    ensures AtoiValue([0x61, 0x2D, 0x33, 0x64]) == 0
  {
    var m: seq<u8>, p: seq<u8>, a: seq<u8> := [0x2D, 0x33, 0x64], [0x2B, 0x33, 0x64], [0x61, 0x2D, 0x33, 0x64];
    assert [0x33][..0] == [] && Value([0x33]) == 3;
    assert SpaceRun(m) == 0 && DigitsStart(m) == 1 && m[1..][..1] == [0x33];
    assert SpaceRun(p) == 0 && DigitsStart(p) == 1 && p[1..][..1] == [0x33];
    assert SpaceRun(a) == 0 && DigitsStart(a) == 0 && DigitRun(a) == 0;
  }
}
