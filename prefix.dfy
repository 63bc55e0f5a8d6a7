/**
 * Human-readable magnitudes: a count is divided by 1000 (decimal prefixes)
 * or 1024 (binary prefixes) until it is below ten of those units, and the
 * matching prefix letter is kept beside it.
 */
module Prefix {

  /** A scaled number and its prefix (`into_inner` and `scale`). */
  datatype NumberFormatted = NumberFormatted(n: nat, scale: string)

  const DECIMAL: seq<string> := ["", "K", "M", "G", "T", "P", "E", "Z", "Y", "R"]
  const BINARY: seq<string> := ["", "Ki", "Mi", "Gi", "Ti", "Pi", "Ei", "Zi", "Yi", "Ri"]

  function Pow(b: nat, k: nat): (p: nat)
    ensures 0 < b ==> 0 < p
  {
    if k == 0 then 1 else Pow(b, k - 1) * b
  }

  /** `x` after `k` integer divisions by `base`. */
  function Shrink(x: nat, base: nat, k: nat): nat
    requires 0 < base
  {
    if k == 0 then x else Shrink(x, base, k - 1) / base
  }

  /** Repeated integer division is one division by the power. */
  lemma {:induction false} ShrinkIsDiv(x: nat, base: nat, k: nat)
    requires 0 < base
    ensures Shrink(x, base, k) == x / Pow(base, k)
  {
    if k > 0 {
      ShrinkIsDiv(x, base, k - 1);
      DivDiv(x, Pow(base, k - 1), base);
    }
  }

  lemma DivDiv(x: nat, a: nat, b: nat)
    requires 0 < a && 0 < b
    ensures x / a / b == x / (a * b)
  {
    var q, r := x / a, x % a;
    var q2, r2 := q / b, q % b;
    assert x == a * q + r;
    assert q == b * q2 + r2;
    assert a * q == (a * b) * q2 + a * r2 by {
      MulDistrib(a, b * q2, r2);
      MulAssoc(a, b, q2);
    }
    assert a * r2 + r < a * b by {
      MulLeft(a, r2, b - 1);
      MulDistrib(a, b - 1, 1);
    }
    DivUnique(x, a * b, q2, a * r2 + r);
  }

  lemma MulDistrib(a: int, b: int, c: int)
    ensures a * (b + c) == a * b + a * c
  {
  }

  lemma MulAssoc(a: int, b: int, c: int)
    ensures a * (b * c) == (a * b) * c
  {
  }

  lemma MulLeft(a: nat, x: int, y: int)
    requires x <= y
    ensures a * x <= a * y
  {
  }

  lemma DivUnique(x: nat, d: nat, q: nat, r: nat)
    requires 0 < d && r < d && x == d * q + r
    ensures x / d == q
  {
    var q', r' := x / d, x % d;
    assert d * q' + r' == d * q + r;
    if q' > q {
      MulLeft(d, q + 1, q');
      MulDistrib(d, q, 1);
    } else if q' < q {
      MulLeft(d, q' + 1, q);
      MulDistrib(d, q', 1);
    }
  }

  /**
   * The number of divisions the formatting loop performs: the first `k`
   * below ten at which the value is below ten units, or ten when the table
   * runs out.
   */
  function Steps(x: nat, base: nat, from: nat): (k: nat)
    requires 0 < base && from <= 10
    requires forall j :: 0 <= j < from ==> Shrink(x, base, j) >= 10 * base
    ensures from <= k <= 10
    ensures k < 10 ==> Shrink(x, base, k) < 10 * base
    ensures forall j :: 0 <= j < k ==> Shrink(x, base, j) >= 10 * base
    decreases 10 - from
  {
    if from == 10 then 10
    else if Shrink(x, base, from) < 10 * base then from
    else Steps(x, base, from + 1)
  }

  /** The prefix for `k` divisions: the table's entry, or `last` past its end. */
  function Label(table: seq<string>, last: string, k: nat): string
  {
    if k < |table| then table[k] else last
  }

  /** What the formatting loop produces: `x` after `Steps` divisions and the prefix for that count. */
  function Formatted(x: nat, base: nat, table: seq<string>, last: string): NumberFormatted
    requires 0 < base
  {
    var k := Steps(x, base, 0);
    NumberFormatted(x / Pow(base, k), Label(table, last, k))
  }

  /**
   * The loop shared by `decimal` and `binary`: walks the ten prefixes of
   * `table`, stopping at the first at which the value is below `10 * base`,
   * and dividing by `base` otherwise; past the table the prefix is `last`.
   */
  method Format(x: nat, base: nat, table: seq<string>, last: string) returns (r: NumberFormatted)
    requires 0 < base && |table| == 10
    ensures r == Formatted(x, base, table, last)
  {
    var n := x;
    var i := 0;
    while i < |table|
      invariant i <= 10 && n == Shrink(x, base, i)
      invariant forall j :: 0 <= j < i ==> Shrink(x, base, j) >= 10 * base
    {
      if n < base * 10 {
        ShrinkIsDiv(x, base, i);
        assert Steps(x, base, 0) == i by {
          StepsIs(x, base, 0, i);
        }
        return NumberFormatted(n, table[i]);
      }
      n := n / base;
      i := i + 1;
    }
    StepsIs(x, base, 0, 10);
    ShrinkIsDiv(x, base, 10);
    return NumberFormatted(n, last);
  }

  /** The search finds the first index that stops the loop. */
  lemma {:induction false} StepsIs(x: nat, base: nat, from: nat, k: nat)
    requires 0 < base && from <= k <= 10
    requires forall j :: 0 <= j < k ==> Shrink(x, base, j) >= 10 * base
    requires k < 10 ==> Shrink(x, base, k) < 10 * base
    ensures Steps(x, base, from) == k
    decreases 10 - from
  {
    if from < k {
      StepsIs(x, base, from + 1, k);
    }
  }

  /** `decimal`: prefixes by powers of 1000, "Q" beyond the table. */
  method Decimal(x: nat) returns (r: NumberFormatted)
    ensures r == Formatted(x, 1000, DECIMAL, "Q")
  {
    r := Format(x, 1000, DECIMAL, "Q");
  }

  /** `binary`: prefixes by powers of 1024, "Qi" beyond the table. */
  method Binary(x: nat) returns (r: NumberFormatted)
    ensures r == Formatted(x, 1024, BINARY, "Qi")
  {
    r := Format(x, 1024, BINARY, "Qi");
  }

  /** A chosen prefix keeps the value below ten units and at least ten of the next smaller unit. */
  lemma ScaledRange(x: nat, base: nat)
    requires 1 < base
    ensures var k := Steps(x, base, 0);
      k < 10 ==> x / Pow(base, k) < 10 * base
    ensures var k := Steps(x, base, 0);
      0 < k ==> x / Pow(base, k - 1) >= 10 * base
  {
    var k := Steps(x, base, 0);
    ShrinkIsDiv(x, base, k);
    if 0 < k {
      ShrinkIsDiv(x, base, k - 1);
    }
  }

  /** 12345 bytes are 12 K; 10239 stays unscaled in binary and 10240 becomes 10 Ki. */
  method FormatExamples() returns (d: NumberFormatted, below: NumberFormatted, at: NumberFormatted)
    ensures d == NumberFormatted(12, "K")
    ensures below == NumberFormatted(10239, "") && at == NumberFormatted(10, "Ki")
  {
    d := Decimal(12345);
    assert Shrink(12345, 1000, 0) >= 10000;
    assert Steps(12345, 1000, 0) == 1;
    below := Binary(10239);
    at := Binary(10240);
    assert Steps(10240, 1024, 0) == 1;
  }
}
