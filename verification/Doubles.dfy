/**
 The finite 64-bit floats of IEEE 754, section 3.4, as exact reals: which of them have another one within
 `f64::EPSILON`.
 */
module Doubles {
  import opened Bytes
  import opened Expressions

  const SIGNIFICANDS: int := 0x20_0000_0000_0000
  const MAX_EXPONENT: nat := 971
  const MAX_SCALE: nat := 1074

  predicate Large(x: real, m: int, e: nat) {
    e <= MAX_EXPONENT && x == (m * Pow2(e)) as real
  }

  predicate Scaled(x: real, m: int, e: nat) {
    e <= MAX_SCALE && x * Pow2(e) as real == m as real
  }

  /** A significand of 53 bits times a power of two. */
  ghost predicate IsDouble(x: real) {
    exists m: int, e: nat :: -SIGNIFICANDS < m < SIGNIFICANDS && (Large(x, m, e) || Scaled(x, m, e))
  }

  /** The comparison of the engine calls them equal. */
  predicate Near(x: real, y: real) {
    -EPSILON < x - y < EPSILON
  }

  lemma Pow2Values()
    ensures Pow2(52) == 4503599627370496 && Pow2(53) == SIGNIFICANDS
    ensures EPSILON * Pow2(52) as real == 1.0 && EPSILON * Pow2(53) as real == 2.0
  {
    assert Pow2(13) == 8192;
    Pow2Add(13, 13);
    Pow2Add(26, 26);
    assert Pow2(53) == 2 * Pow2(52);
  }

  lemma {:induction false} Pow2Grows(a: nat, b: nat)
    requires a <= b
    ensures Pow2(a) <= Pow2(b)
  {
    Pow2Add(a, b - a);
    assert Pow2(a) * Pow2(b - a) >= Pow2(a) * 1;
  }

  lemma MulReal(a: int, b: int)
    ensures (a * b) as real == a as real * b as real
  {
  }

  // A fraction with a denominator of at most two to the power k, scaled by that power.
  lemma ScaledUp(x: real, m: int, e: nat, k: nat) returns (n: int)
    requires Large(x, m, e) || (Scaled(x, m, e) && e <= k)
    ensures x * Pow2(k) as real == n as real
    ensures Scaled(x, m, e) && e == k ==> n == m
  {
    hide Pow2;
    if Scaled(x, m, e) && e <= k {
      n := m * Pow2(k - e);
      Pow2Add(e, k - e);
      MulReal(Pow2(e), Pow2(k - e));
      MulReal(m, Pow2(k - e));
      Regroup(x, Pow2(e) as real, Pow2(k - e) as real);
      if e == k {
        assert Pow2(0) == 1;
      }
    } else {
      n := m * Pow2(e) * Pow2(k);
      MulReal(m * Pow2(e), Pow2(k));
    }
  }

  lemma Regroup(x: real, a: real, b: real)
    ensures x * (a * b) == (x * a) * b
  {
  }

  // At least 1 in size: the denominator is at most two to the power 52.
  lemma CoarseAboveOne(x: real) returns (n: int)
    requires IsDouble(x) && x >= 1.0
    ensures x * Pow2(52) as real == n as real
  {
    hide Pow2, Large, Scaled;
    var m: int, e: nat :| -SIGNIFICANDS < m < SIGNIFICANDS && (Large(x, m, e) || Scaled(x, m, e));
    if Scaled(x, m, e) {
      NotTooFine(x, m, e);
    }
    n := ScaledUp(x, m, e, 52);
  }

  lemma NotTooFine(x: real, m: int, e: nat)
    requires x >= 1.0 && m < SIGNIFICANDS && Scaled(x, m, e)
    ensures e <= 52
  {
    hide Pow2;
    Monotone(x, 1.0, Pow2(e) as real);
    Pow2Values();
    if e > 52 {
      Pow2Grows(53, e);
    }
  }

  lemma Monotone(a: real, b: real, p: real)
    requires p >= 0.0
    ensures a >= b ==> a * p >= b * p
  {
  }

  // Above 1 the spacing is at least epsilon.
  lemma AloneAboveOne(x: real, f: real)
    requires IsDouble(f) && IsDouble(x) && f > 1.0 && Near(x, f)
    ensures x == f
  {
    hide IsDouble, Pow2;
    Pow2Values();
    var p := Pow2(52) as real;
    var n := CoarseAboveOne(f);
    assert n as real > p;
    Spread(x, f, p, n as real);
    var k := CoarseAboveOne(x);
    assert k == n;
  }

  lemma Spread(x: real, f: real, p: real, n: real)
    requires Near(x, f) && p * EPSILON == 1.0 && f * p == n && p > 0.0
    ensures n - 1.0 < x * p < n + 1.0
    ensures n >= p + 1.0 ==> x >= 1.0
    ensures x * p == n ==> x == f
  {
    Distribute(x, f, p);
    Strictly(x - f, EPSILON, p);
    Strictly(-EPSILON, x - f, p);
    Strictly(x, 1.0, p);
    Strictly(x, f, p);
    Strictly(f, x, p);
  }

  lemma Distribute(x: real, f: real, p: real)
    ensures (x - f) * p == x * p - f * p
    ensures -EPSILON * p == -(p * EPSILON) && EPSILON * p == p * EPSILON
  {
  }

  lemma Strictly(a: real, b: real, p: real)
    requires p > 0.0
    ensures a < b ==> a * p < b * p
  {
  }

  // Up to 1, in units of a scale of at least two to the power 53 ...
  lemma Units(f: real) returns (units: int, q: nat)
    requires IsDouble(f) && -1.0 <= f <= 1.0
    ensures 53 <= q <= MAX_SCALE && f * Pow2(q) as real == units as real
    ensures -SIGNIFICANDS <= units <= SIGNIFICANDS && Pow2(q) >= SIGNIFICANDS
  {
    hide Pow2;
    var m: int, e: nat :| -SIGNIFICANDS < m < SIGNIFICANDS && (Large(f, m, e) || Scaled(f, m, e));
    q := if Scaled(f, m, e) && e > 53 then e else 53;
    units := ScaledUp(f, m, e, q);
    Pow2Values();
    Pow2Grows(53, q);
    InUnits(f, Pow2(53) as real, units, q);
  }

  // ... there is a neighbour one unit away.
  lemma Neighbour(f: real) returns (x: real)
    requires IsDouble(f) && -1.0 <= f <= 1.0
    ensures IsDouble(x) && x != f && Near(x, f)
  {
    hide Pow2, Near;
    var units, q := Units(f);
    var next := if units > 0 then units - 1 else units + 1;
    var p := Pow2(q) as real;
    x := next as real / p;
    Quotient(next as real, p);
    assert Scaled(x, next, q);
    EpsilonUnits();
    OneUnit(x, f, p, SIGNIFICANDS as real);
  }

  lemma EpsilonUnits()
    ensures EPSILON * SIGNIFICANDS as real == 2.0
  {
  }

  lemma InUnits(f: real, p: real, units: int, q: nat)
    requires -1.0 <= f <= 1.0 && f * Pow2(q) as real == units as real && p == Pow2(53) as real > 0.0
    ensures q == 53 ==> -p <= units as real <= p
  {
    hide Pow2;
    assert f * p <= 1.0 * p;
    assert f * p >= -1.0 * p;
  }

  lemma Quotient(a: real, p: real)
    requires p > 0.0
    ensures a / p * p == a
  {
  }

  lemma OneUnit(x: real, f: real, p: real, p53: real)
    requires x * p - f * p == 1.0 || x * p - f * p == -1.0
    requires p >= p53 > 0.0 && EPSILON * p53 == 2.0
    ensures x != f && Near(x, f)
  {
    var d := x - f;
    assert d * p == x * p - f * p;
    assert EPSILON * p >= EPSILON * p53;
    Monotone(d, EPSILON, p);
    Monotone(-EPSILON, d, p);
  }

  lemma Negated(x: real)
    requires IsDouble(x)
    ensures IsDouble(-x)
  {
    hide Pow2;
    var m: int, e: nat :| -SIGNIFICANDS < m < SIGNIFICANDS && (Large(x, m, e) || Scaled(x, m, e));
    MulReal(m, Pow2(e));
    MulReal(-m, Pow2(e));
    assert Large(x, m, e) ==> Large(-x, -m, e);
    assert Scaled(x, m, e) ==> Scaled(-x, -m, e);
  }

  /** A double compares equal to no other double exactly if its size is above 1. */
  lemma AloneExact(f: real)
    requires IsDouble(f)
    ensures (forall x :: IsDouble(x) && Near(x, f) ==> x == f) <==> f > 1.0 || f < -1.0
  {
    hide IsDouble;
    if -1.0 <= f <= 1.0 {
      var x := Neighbour(f);
    } else {
      forall x | IsDouble(x) && Near(x, f) ensures x == f {
        if f > 1.0 {
          AloneAboveOne(x, f);
        } else {
          Negated(x);
          Negated(f);
          AloneAboveOne(-x, -f);
        }
      }
    }
  }
}
