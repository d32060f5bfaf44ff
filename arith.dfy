/**
 * The C integer operators the driver's macros are built from, on unbounded
 * integers: `1 << k`, bitwise AND of two's-complement values, and division
 * and remainder truncated toward zero.
 *
 * Dafny's own `/` and `%` are Euclidean. For a positive divisor Euclidean
 * `/` is floor division, which is also what an arithmetic right shift
 * `x >> k` computes (`x / Pow2(k)`), so those need no separate model.
 */
module CArith {

  /** `1 << k`. */
  function Pow2(k: nat): (r: nat)
    ensures r >= 1
  {
    if k == 0 then 1 else 2 * Pow2(k - 1)
  }

  function Abs(x: int): nat { if x < 0 then -x else x }

  /** Bit `i` of the two's-complement value `x`. */
  predicate Bit(x: int, i: nat) { (x / Pow2(i)) % 2 == 1 }

  lemma HalfShrinks(x: int)
    requires x != 0 && x != -1
    ensures Abs(x / 2) < Abs(x)
  {
  }

  /**
   * `x & y` on two's-complement integers of unbounded width: 0 and -1 (all
   * bits clear, all bits set) are the fixed points of an arithmetic right
   * shift; otherwise the lowest bit is `x % 2` and the rest is `x / 2`.
   */
  function BitAnd(x: int, y: int): (r: int)
    ensures y >= 0 ==> 0 <= r <= y
    ensures x >= 0 ==> 0 <= r <= x
    decreases Abs(x) + Abs(y)
  {
    if x == 0 || y == 0 then 0
    else if x == -1 then y
    else if y == -1 then x
    else
      HalfShrinks(x);
      HalfShrinks(y);
      2 * BitAnd(x / 2, y / 2) + (if x % 2 == 1 && y % 2 == 1 then 1 else 0)
  }

  /** Euclidean division is determined by the two facts that define it. */
  lemma DivModUnique(x: int, m: int, t: int, v: int)
    requires m > 0 && 0 <= v < m && x == m * t + v
    ensures x / m == t && x % m == v
  {
    var q, r := x / m, x % m;
    assert m * (t - q) == r - v;
    MulBounds(m, t - q);
  }

  lemma MulBounds(m: int, e: int)
    requires m > 0
    ensures e >= 1 ==> m * e >= m
    ensures e <= -1 ==> m * e <= -m
  {
    if e >= 1 {
      assert m * e == m + m * (e - 1);
    } else if e <= -1 {
      assert m * e == -m + m * (e + 1);
    }
  }

  lemma Pow2Add(a: nat, b: nat)
    ensures Pow2(a + b) == Pow2(a) * Pow2(b)
    decreases a
  {
    if a > 0 {
      Pow2Add(a - 1, b);
    }
  }

  /** Division by `a` and then by `b` is division by `a * b`. */
  lemma DivDiv(x: int, a: int, b: int)
    requires a > 0 && b > 0
    ensures a * b > 0 && (x / a) / b == x / (a * b)
  {
    var q, r := x / a, x % a;
    var q2, r2 := q / b, q % b;
    MulPositive(a, b);
    MulNonneg(a, r2);
    MulNonneg(a, b - 1 - r2);
    assert a * (b - 1 - r2) == a * b - a - a * r2 by { Distrib(a, b - 1, r2); }
    assert a * q == (a * b) * q2 + a * r2 by { Distrib(a, b * q2, r2); }
    DivModUnique(x, a * b, q2, a * r2 + r);
  }

  lemma MulPositive(a: int, b: int)
    requires a > 0 && b > 0
    ensures a * b > 0
  {
  }

  lemma MulNonneg(a: int, b: int)
    requires a >= 0 && b >= 0
    ensures a * b >= 0
  {
  }

  lemma Distrib(a: int, u: int, v: int)
    ensures a * (u + v) == a * u + a * v
    ensures a * (u - v) == a * u - a * v
  {
  }

  lemma {:induction false} ModHalves(x: int, p: int)
    requires p >= 1
    ensures x % (2 * p) == 2 * ((x / 2) % p) + x % 2
  {
    var q, r := x / 2, x % 2;
    var t, u := q / p, q % p;
    assert x == (2 * p) * t + (2 * u + r) by {
      assert x == 2 * q + r;
      assert q == p * t + u;
    }
    DivModUnique(x, 2 * p, t, 2 * u + r);
  }

  /**
   * Masking with `(1 << k) - 1` keeps the low `k` bits: it is the Euclidean
   * remainder modulo `1 << k`, also for negative `x`.
   */
  lemma {:induction false} BitAndLowMask(x: int, k: nat)
    ensures BitAnd(x, Pow2(k) - 1) == x % Pow2(k)
    decreases k
  {
    if k == 0 {
    } else if x == 0 {
      DivModUnique(0, Pow2(k), 0, 0);
    } else if x == -1 {
      DivModUnique(-1, Pow2(k), -1, Pow2(k) - 1);
    } else {
      BitAndLowMask(x / 2, k - 1);
      BitAndLowMaskStep(x, k);
    }
  }

  /** The inductive step of `BitAndLowMask`, from `x / 2` and `k - 1` to `x` and `k`. */
  lemma BitAndLowMaskStep(x: int, k: nat)
    requires k >= 1 && x != 0 && x != -1
    requires BitAnd(x / 2, Pow2(k - 1) - 1) == (x / 2) % Pow2(k - 1)
    ensures BitAnd(x, Pow2(k) - 1) == x % Pow2(k)
  {
    var p := Pow2(k - 1);
    var m := 2 * p - 1;
    assert Pow2(k) - 1 == m;
    DivModUnique(m, 2, p - 1, 1);
    BitAndStep(x, m);
    ModHalves(x, p);
  }

  /** One step of the definition of `BitAnd`, away from its fixed points. */
  lemma BitAndStep(x: int, y: int)
    requires x != 0 && x != -1 && y != 0 && y != -1
    ensures BitAnd(x, y) == 2 * BitAnd(x / 2, y / 2) + (if x % 2 == 1 && y % 2 == 1 then 1 else 0)
  {
  }

  /** Masking with `1 << j` isolates bit `j`. */
  lemma {:induction false} BitAndSingleBit(x: int, j: nat)
    ensures BitAnd(x, Pow2(j)) == if Bit(x, j) then Pow2(j) else 0
    decreases j
  {
    if x == 0 || x == -1 {
      assert Pow2(j) >= 1;
      if x == -1 {
        DivModUnique(-1, Pow2(j), -1, Pow2(j) - 1);
      }
    } else if j == 0 {
      BitAndStep(x, 1);
    } else {
      var p := Pow2(j - 1);
      assert Pow2(j) == 2 * p && (2 * p) / 2 == p && (2 * p) % 2 == 0;
      BitAndStep(x, 2 * p);
      BitAndSingleBit(x / 2, j - 1);
      DivDiv(x, 2, p);
    }
  }

  /** C's `n / d`: the quotient truncated toward zero. */
  function CDiv(n: int, d: int): (q: int)
    requires d != 0
    ensures n >= 0 && d > 0 ==> q == n / d
  {
    var q := Abs(n) / Abs(d);
    if (n < 0) == (d < 0) then q else -q
  }

  /** C's `n % d`: the remainder takes the sign of the dividend. */
  function CMod(n: int, d: int): (r: int)
    requires d != 0
    ensures n >= 0 && d > 0 ==> r == n % d
  {
    if n < 0 then -(Abs(n) % Abs(d)) else Abs(n) % Abs(d)
  }

  /**
   * The two operators satisfy the identity C requires of them,
   * `(n / d) * d + n % d == n`, with a remainder smaller than the divisor
   * and of the dividend's sign; these facts determine both uniquely.
   */
  lemma CDivModIdentity(n: int, d: int)
    requires d != 0
    ensures d * CDiv(n, d) + CMod(n, d) == n
    ensures Abs(CMod(n, d)) < Abs(d)
    ensures n >= 0 ==> CMod(n, d) >= 0
    ensures n <= 0 ==> CMod(n, d) <= 0
  {
    var a: int, b: int := Abs(n), Abs(d);
    var q: int, r: int := a / b, a % b;
    assert a == b * q + r && 0 <= r < b;
    assert CDiv(n, d) == if (n < 0) == (d < 0) then q else -q;
    assert CMod(n, d) == if n < 0 then -r else r;
    SignedProduct(n, d, q, a, b, r);
  }

  /** The sign cases of `CDivModIdentity`, with the division already done. */
  lemma SignedProduct(n: int, d: int, q: int, a: int, b: int, r: int)
    requires a == Abs(n) && b == Abs(d) && a == b * q + r
    ensures d * (if (n < 0) == (d < 0) then q else -q) + (if n < 0 then -r else r) == n
  {
    MulSigns(b, q);
    if d < 0 {
      assert d == -b;
    } else {
      assert d == b;
    }
  }

  lemma MulSigns(b: int, q: int)
    ensures (-b) * q == -(b * q) && b * (-q) == -(b * q) && (-b) * (-q) == b * q
  {
  }

  /** Truncation is symmetric in the signs of both operands. */
  lemma CDivSigns(n: int, d: int)
    requires d != 0
    ensures CDiv(-n, d) == -CDiv(n, d)
    ensures CDiv(n, -d) == -CDiv(n, d)
  {
    var a, b := Abs(n), Abs(d);
    assert Abs(-n) == a && Abs(-d) == b;
    if n == 0 {
      DivModUnique(0, b, 0, 0);
      assert CDiv(n, d) == 0 && CDiv(-n, d) == 0 && CDiv(n, -d) == 0;
    } else {
      assert (-n < 0) != (n < 0) && (-d < 0) != (d < 0);
    }
  }
}
