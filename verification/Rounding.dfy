/** Decimals, powers of ten, and rounding half up (ties away from zero). */
module Rounding {

  function Pow10(n: nat): (p: nat)
    ensures p > 0
    decreases n
  {
    if n == 0 then 1 else 10 * Pow10(n - 1)
  }

  lemma {:induction false} Pow10Add(a: nat, b: nat)
    ensures Pow10(a + b) == Pow10(a) * Pow10(b)
    decreases b
  {
    if b > 0 {
      Pow10Add(a, b - 1);
      assert 10 * (Pow10(a) * Pow10(b - 1)) == Pow10(a) * (10 * Pow10(b - 1));
    }
  }

  function Magnitude(n: int): nat { if n < 0 then -n else n }

  /** The value coef / 10^places. */
  datatype Decimal = Decimal(coef: int, places: nat)

  // ------------------------------------------------------------------------- half up

  /** r is n / d rounded to the nearest, a tie going up. */
  predicate Nearest(n: nat, d: nat, r: nat) { (2 * r - 1) * d <= 2 * n < (2 * r + 1) * d }

  /** r is n / d rounded to the nearest, a tie going away from zero. */
  predicate IsHalfUp(n: int, d: nat, r: int) {
    if n < 0 then r <= 0 && Nearest(-n, d, -r) else r >= 0 && Nearest(n, d, r)
  }

  /** The quotient by adding half the divisor and truncating. */
  function HalfUp(n: int, d: nat): int
    requires d > 0
  {
    (if n < 0 then -1 else 1) * ((Magnitude(n) + d / 2) / d)
  }

  lemma DivisionBounds(n: nat, d: nat)
    requires d > 0
    ensures n / d * d <= n < n / d * d + d
  {
  }

  lemma HalfUpNearest(n: nat, d: nat)
    requires d > 0
    ensures Nearest(n, d, (n + d / 2) / d)
  {
    var q := (n + d / 2) / d;
    DivisionBounds(n + d / 2, d);
    assert (2 * q - 1) * d == 2 * (q * d) - d && (2 * q + 1) * d == 2 * (q * d) + d;
  }

  lemma HalfUpMeets(n: int, d: nat)
    requires d > 0
    ensures IsHalfUp(n, d, HalfUp(n, d))
  {
    HalfUpNearest(Magnitude(n), d);
  }

  lemma Times(a: int, b: int, k: nat)
    ensures a <= b ==> a * k <= b * k
  {
    if a <= b { Product(b - a, k); }
  }

  lemma Product(a: nat, k: nat)
    ensures a * k >= 0
    ensures a > 0 && k > 0 ==> a * k >= k
  {
  }

  lemma NearestOrdered(n: nat, d: nat, r: nat, s: nat)
    requires d > 0 && Nearest(n, d, r) && Nearest(n, d, s)
    ensures r <= s
  {
    Times(2 * s + 1, 2 * r - 1, d);
  }

  /** Rounding half up is a function: what meets the definition is unique. */
  lemma HalfUpUnique(n: int, d: nat, r: int, s: int)
    requires d > 0 && IsHalfUp(n, d, r) && IsHalfUp(n, d, s)
    ensures r == s
  {
    if n < 0 {
      NearestOrdered(-n, d, -r, -s);
      NearestOrdered(-n, d, -s, -r);
    } else {
      NearestOrdered(n, d, r, s);
      NearestOrdered(n, d, s, r);
    }
  }

  lemma Cancel(a: int, b: int, k: nat)
    requires k > 0
    ensures a * k <= b * k <==> a <= b
  {
    Times(a, b, k);
    if a > b {
      Product(a - b, k);
      assert (a - b) * k == a * k - b * k;
    }
  }

  lemma NearestScaled(n: nat, d: nat, k: nat, r: nat)
    requires k > 0
    ensures Nearest(n * k, d * k, r) <==> Nearest(n, d, r)
  {
    Cancel((2 * r - 1) * d, 2 * n, k);
    Cancel((2 * r + 1) * d, 2 * n, k);
    assert (2 * r - 1) * (d * k) == (2 * r - 1) * d * k;
    assert (2 * r + 1) * (d * k) == (2 * r + 1) * d * k;
    assert 2 * (n * k) == 2 * n * k;
  }

  /** Scaling both sides of a quotient does not change how it rounds. */
  lemma HalfUpScaled(n: int, d: nat, k: nat, r: int)
    requires k > 0
    ensures IsHalfUp(n * k, d * k, r) <==> IsHalfUp(n, d, r)
  {
    assert n < 0 <==> n * k < 0;
    assert (-n) * k == -(n * k);
    if r <= 0 && n < 0 { NearestScaled(-n, d, k, -r); }
    if r >= 0 && n >= 0 { NearestScaled(n, d, k, r); }
  }

  // ------------------------------------------------------------------------- quantize

  /** r units of 10^-e are the value x, rounded half up. */
  predicate Rounds(x: Decimal, e: nat, r: int) {
    IsHalfUp(x.coef * Pow10(e), Pow10(x.places), r)
  }

  /** Two results of rounding one value to one exponent are equal. */
  lemma RoundsUnique(x: Decimal, e: nat, r: int, s: int)
    requires Rounds(x, e, r) && Rounds(x, e, s)
    ensures r == s
  {
    HalfUpUnique(x.coef * Pow10(e), Pow10(x.places), r, s);
  }

  /** The units that quantizing to e places leaves. */
  function Quantize(x: Decimal, e: nat): int {
    if x.places <= e then x.coef * Pow10(e - x.places)
    else HalfUp(x.coef, Pow10(x.places - e))
  }

  lemma QuantizeRounds(x: Decimal, e: nat)
    ensures Rounds(x, e, Quantize(x, e))
  {
    if x.places <= e {
      Pow10Add(x.places, e - x.places);
      ExactRounds(x.coef * Pow10(e - x.places), Pow10(x.places));
      assert x.coef * Pow10(e) == x.coef * Pow10(e - x.places) * Pow10(x.places);
    } else {
      var k := x.places - e;
      Pow10Add(k, e);
      HalfUpMeets(x.coef, Pow10(k));
      HalfUpScaled(x.coef, Pow10(k), Pow10(e), Quantize(x, e));
    }
  }

  /** A whole quotient rounds to itself. */
  lemma ExactRounds(r: int, d: nat)
    requires d > 0
    ensures IsHalfUp(r * d, d, r)
  {
    assert r < 0 <==> r * d < 0;
    var m := Magnitude(r);
    assert (2 * m - 1) * d == 2 * (m * d) - d && (2 * m + 1) * d == 2 * (m * d) + d;
    assert r < 0 ==> -(r * d) == m * d;
  }
}
