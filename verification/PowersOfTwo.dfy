/** mfbt/TemplateLib.h and mfbt/MathAlgorithms.h: logarithms, rounding and overflow masks, for a
    size_t of any width. */
module PowersOfTwo {

  function Pow2(k: nat): (p: nat)
    ensures p > 0
  {
    if k == 0 then 1 else 2 * Pow2(k - 1)
  }

  lemma {:induction false} Pow2Grows(j: nat, k: nat)
    requires j <= k
    ensures Pow2(j) <= Pow2(k)
    ensures j < k ==> 2 * Pow2(j) <= Pow2(k)
  {
    if j < k {
      Pow2Grows(j, k - 1);
    }
  }

  lemma {:induction false} Pow2Sum(j: nat, k: nat)
    ensures Pow2(j + k) == Pow2(j) * Pow2(k)
  {
    if j > 0 {
      Pow2Sum(j - 1, k);
      assert Pow2(j + k) == 2 * (Pow2(j - 1) * Pow2(k));
    }
  }

  /** The compile-time metafunctions. */
  function FloorLog2(i: nat): nat
    requires i > 0
  {
    if i == 1 then 0 else 1 + FloorLog2(i / 2)
  }

  function CeilingLog2(i: nat): nat
    requires i > 0
  {
    FloorLog2(2 * i - 1)
  }

  function RoundUpPow2(i: nat): nat {
    if i == 0 then 1 else Pow2(CeilingLog2(i))
  }

  lemma {:induction false} FloorLog2Bounds(i: nat)
    requires i > 0
    ensures Pow2(FloorLog2(i)) <= i < 2 * Pow2(FloorLog2(i))
  {
    if i > 1 {
      FloorLog2Bounds(i / 2);
    }
  }

  lemma CeilingLog2Bounds(i: nat)
    requires i > 0
    ensures i <= Pow2(CeilingLog2(i)) < 2 * i
    ensures CeilingLog2(i) > 0 ==> Pow2(CeilingLog2(i) - 1) < i
  {
    FloorLog2Bounds(2 * i - 1);
  }

  /** The logarithm is the only exponent whose power brackets the number. */
  lemma CeilingLog2Unique(i: nat, k: nat)
    requires i > 0 && i <= Pow2(k) && (k > 0 ==> Pow2(k - 1) < i)
    ensures CeilingLog2(i) == k
  {
    var c := CeilingLog2(i);
    CeilingLog2Bounds(i);
    if c < k {
      Pow2Grows(c, k - 1);
    } else if k < c {
      Pow2Grows(k, c - 1);
    }
  }

  /** The power of two that rounding up gives is the least one that is large enough. */
  lemma RoundUpPow2Least(i: nat, k: nat)
    ensures i <= RoundUpPow2(i) && exists c :: RoundUpPow2(i) == Pow2(c)
    ensures i <= Pow2(k) ==> RoundUpPow2(i) <= Pow2(k)
    ensures i > 0 ==> RoundUpPow2(i) < 2 * i
  {
    if i == 0 {
      assert RoundUpPow2(i) == Pow2(0);
    } else {
      var c := CeilingLog2(i);
      assert RoundUpPow2(i) == Pow2(c);
      CeilingLog2Bounds(i);
      if i <= Pow2(k) && k < c {
        Pow2Grows(k, c - 1);
      } else if c <= k {
        Pow2Grows(c, k);
      }
    }
  }

  /** The zeroes before the highest one, in a word of the given width. */
  function CountLeadingZeroes(bits: nat, v: nat): nat
    requires 0 < v < Pow2(bits)
  {
    if v >= Pow2(bits - 1) then 0 else 1 + CountLeadingZeroes(bits - 1, v)
  }

  /** The run-time logarithm, which counts leading zeroes. */
  function CeilingLog2Word(bits: nat, v: nat): int
    requires v < Pow2(bits)
  {
    if v <= 1 then 0 else bits - CountLeadingZeroes(bits, v - 1)
  }

  lemma {:induction false} LeadingZeroesBounds(bits: nat, v: nat)
    requires 0 < v < Pow2(bits)
    ensures CountLeadingZeroes(bits, v) < bits
    ensures Pow2(bits - CountLeadingZeroes(bits, v) - 1) <= v < Pow2(bits - CountLeadingZeroes(bits, v))
  {
    if v < Pow2(bits - 1) {
      LeadingZeroesBounds(bits - 1, v);
    }
  }

  /** The run-time function computes what the compile-time one does. */
  lemma LogarithmsAgree(bits: nat, v: nat)
    requires 0 < v < Pow2(bits)
    ensures CeilingLog2Word(bits, v) == CeilingLog2(v)
  {
    if v == 1 {
      CeilingLog2Unique(1, 0);
    } else {
      LeadingZeroesBounds(bits, v - 1);
      CeilingLog2Unique(v, CeilingLog2Word(bits, v));
    }
  }

  /** The run-time rounding. */
  function RoundUpPow2Word(bits: nat, v: nat): (p: nat)
    requires 0 < bits && v <= Pow2(bits - 1)
    ensures p == RoundUpPow2(v)
  {
    if v > 0 then
      LogarithmsAgree(bits, v);
      Pow2(CeilingLog2Word(bits, v))
    else Pow2(CeilingLog2Word(bits, v))
  }

  function BitAnd(a: nat, b: nat): nat {
    if a == 0 || b == 0 then 0 else 2 * BitAnd(a / 2, b / 2) + (a % 2) * (b % 2)
  }

  /** All bits from n on, in a word of the given width: the complement of NBitMask. */
  function HighBits(bits: nat, n: nat): nat
    requires n <= bits
  {
    Pow2Grows(n, bits);
    Pow2(bits) - 1 - (Pow2(n) - 1)
  }

  function MulOverflowMask(bits: nat, n: nat): nat
    requires 0 < n && CeilingLog2(n) <= bits
  {
    if n == 1 then 0 else HighBits(bits, bits - CeilingLog2(n))
  }

  lemma {:induction false} AndWithOnes(bits: nat, x: nat)
    requires x < Pow2(bits)
    ensures BitAnd(x, Pow2(bits) - 1) == x
  {
    if x > 0 {
      AndWithOnes(bits - 1, x / 2);
      assert (Pow2(bits) - 1) / 2 == Pow2(bits - 1) - 1 && (Pow2(bits) - 1) % 2 == 1;
      assert BitAnd(x, Pow2(bits) - 1) == 2 * BitAnd(x / 2, Pow2(bits - 1) - 1) + x % 2;
    }
  }

  /** A number has no bit from n on exactly if it is below the power n. */
  lemma {:induction false} MaskTest(bits: nat, n: nat, x: nat)
    requires n <= bits && x < Pow2(bits)
    ensures BitAnd(x, HighBits(bits, n)) == 0 <==> x < Pow2(n)
  {
    if n == 0 {
      AndWithOnes(bits, x);
    } else {
      MaskTest(bits - 1, n - 1, x / 2);
      var m := HighBits(bits, n);
      Pow2Grows(n, bits);
      assert m == 2 * HighBits(bits - 1, n - 1);
      assert m / 2 == HighBits(bits - 1, n - 1) && m % 2 == 0;
      if x > 0 && m > 0 {
        assert BitAnd(x, m) == 2 * BitAnd(x / 2, m / 2) + (x % 2) * 0;
      } else if m == 0 {
        assert BitAnd(x / 2, m / 2) == 0;
      }
    }
  }

  /** What the mask is for: a number it clears can be multiplied. It clears exactly the numbers
      below a power of two, and all that can be multiplied if the factor is a power of two. */
  lemma MulOverflowMaskSound(bits: nat, n: nat, x: nat)
    requires 0 < n && CeilingLog2(n) <= bits && x < Pow2(bits)
    ensures BitAnd(x, MulOverflowMask(bits, n)) == 0 <==> x < Pow2(bits - CeilingLog2(n))
    ensures x < Pow2(bits - CeilingLog2(n)) ==> x * n < Pow2(bits)
    ensures n == Pow2(CeilingLog2(n)) && x * n < Pow2(bits) ==> x < Pow2(bits - CeilingLog2(n))
  {
    var c := CeilingLog2(n);
    CeilingLog2Bounds(n);
    Pow2Sum(bits - c, c);
    if n == 1 {
      CeilingLog2Unique(1, 0);
    } else {
      MaskTest(bits, bits - c, x);
    }
    if x < Pow2(bits - c) {
      Product(x, Pow2(bits - c), n, Pow2(c));
    } else {
      Times(Pow2(bits - c), x, n);
    }
  }

  lemma Times(a: nat, b: nat, n: nat)
    requires a <= b
    ensures a * n <= b * n
  {
    assert (b - a) * n >= 0;
  }

  /** There is only one way to divide with a remainder. */
  lemma DividedOneWay(x: int, m: nat, k: int, rest: nat)
    requires x == k * m + rest && rest < m
    ensures x / m == k && x % m == rest
  {
    var d := x / m - k;
    assert x == (x / m) * m + x % m;
    assert d * m == (x / m) * m - k * m;
    Spread(d, m);
  }

  lemma Spread(k: int, m: nat)
    ensures k > 0 ==> k * m >= m
    ensures k < 0 ==> k * m <= -(m as int)
  {
  }

  lemma DividedTwice(x: nat, m: nat)
    requires m > 0
    ensures x / (2 * m) == x / 2 / m && x % (2 * m) == 2 * (x / 2 % m) + x % 2
  {
    var q, k := x / 2, x / 2 / m;
    assert q == k * m + q % m;
    assert k * (2 * m) == 2 * (k * m);
    DividedOneWay(x, 2 * m, k, 2 * (q % m) + x % 2);
  }

  /** What a mask of low bits leaves. */
  lemma {:induction false} MaskIsRest(x: nat, bits: nat)
    ensures BitAnd(x, Pow2(bits) - 1) == x % Pow2(bits)
  {
    if bits > 0 {
      MaskIsRest(x / 2, bits - 1);
      var p := Pow2(bits - 1);
      DividedTwice(x, p);
      assert Pow2(bits) == 2 * p;
      hide Pow2;
      assert (2 * p - 1) / 2 == p - 1 && (2 * p - 1) % 2 == 1;
      assert x > 0 ==> BitAnd(x, 2 * p - 1) == 2 * BitAnd(x / 2, p - 1) + x % 2;
    }
  }

  lemma Product(a: nat, b: nat, m: nat, n: nat)
    requires a < b && 0 < m <= n
    ensures a * m < b * n
  {
    Times(a, b - 1, m);
    Times(m, n, b);
    assert (b - 1) * m + m == b * m;
  }
}
