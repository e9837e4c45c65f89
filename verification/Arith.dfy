/** Floor and ceiling division over unbounded integers, and integer powers. */
module Arith {

  function CeilDiv(a: nat, d: nat): nat
    requires d > 0
  {
    (a + d - 1) / d
  }

  function Min(a: int, b: int): int {
    if a <= b then a else b
  }

  function Max(a: int, b: int): int {
    if a >= b then a else b
  }

  function SatSub(a: nat, b: nat): nat {
    if a >= b then a - b else 0
  }

  lemma MulMono(a: int, b: int, c: int)
    requires a <= b && 0 <= c
    ensures a * c <= b * c && c * a <= c * b
  {
  }

  lemma MulCancel(a: int, b: int, c: int)
    requires a * c <= b * c && 0 < c
    ensures a <= b
  {
    if b + 1 <= a {
      MulMono(b + 1, a, c);
    }
  }

  lemma DivBounds(a: int, d: int)
    requires d > 0
    ensures a / d * d <= a < a / d * d + d
  {
  }

  lemma DivAtLeast(a: int, d: int, q: int)
    requires d > 0 && q * d <= a
    ensures q <= a / d
  {
    DivBounds(a, d);
    if a / d + 1 <= q {
      MulMono(a / d + 1, q, d);
    }
  }

  lemma DivAtMost(a: int, d: int, q: int)
    requires d > 0 && a < (q + 1) * d
    ensures a / d <= q
  {
    DivBounds(a, d);
    if q + 1 <= a / d {
      MulMono(q + 1, a / d, d);
    }
  }

  lemma DivMono(a: int, b: int, d: int)
    requires d > 0 && a <= b
    ensures a / d <= b / d
  {
    DivBounds(a, d);
    DivAtLeast(b, d, a / d);
  }

  /** Truncating twice is truncating once by the product. */
  lemma DivDiv(a: nat, b: nat, c: nat)
    requires b > 0 && c > 0
    ensures b * c > 0 && a / b / c == a / (b * c)
  {
    var q := a / b / c;
    DivBounds(a, b);
    DivBounds(a / b, c);
    MulMono(q * c, a / b, b);
    MulMono(a / b + 1, q * c + c, b);
    assert q * c * b == q * (b * c);
    assert (q * c + c) * b == (q + 1) * (b * c);
    assert b * c > 0;
    DivAtLeast(a, b * c, q);
    DivAtMost(a, b * c, q);
  }

  lemma DivOfMultiple(q: int, d: int)
    requires d > 0
    ensures q * d / d == q
  {
    DivAtLeast(q * d, d, q);
    DivAtMost(q * d, d, q);
  }

  /** A common factor cancels out of a floored quotient. */
  lemma DivCancel(a: nat, d: nat, k: nat)
    requires d > 0 && k > 0
    ensures d * k > 0 && a * k / (d * k) == a / d
  {
    DivDiv(a * k, k, d);
    DivOfMultiple(a, k);
    assert k * d == d * k;
  }

  lemma CeilBounds(a: nat, d: nat)
    requires d > 0
    ensures a <= CeilDiv(a, d) * d < a + d
  {
    DivBounds(a + d - 1, d);
  }

  lemma CeilAtMost(a: nat, d: nat, q: nat)
    requires d > 0 && a <= q * d
    ensures CeilDiv(a, d) <= q
  {
    assert a + d - 1 < (q + 1) * d by { assert (q + 1) * d == q * d + d; }
    DivAtMost(a + d - 1, d, q);
  }

  /** Rounding up twice is rounding up once by the product. */
  lemma CeilCeil(a: nat, b: nat, c: nat)
    requires b > 0 && c > 0
    ensures b * c > 0 && CeilDiv(CeilDiv(a, b), c) == CeilDiv(a, b * c)
  {
    var q := CeilDiv(a, b * c);
    assert b * c > 0;
    CeilBounds(a, b * c);
    assert q * (b * c) == q * c * b;
    CeilAtMost(a, b, q * c);
    CeilAtMost(CeilDiv(a, b), c, q);
    var p := CeilDiv(CeilDiv(a, b), c);
    CeilBounds(CeilDiv(a, b), c);
    CeilBounds(a, b);
    MulMono(CeilDiv(a, b), p * c, b);
    assert p * c * b == p * (b * c);
    CeilAtMost(a, b * c, p);
  }

  function Pow(b: nat, e: nat): nat {
    if e == 0 then 1 else b * Pow(b, e - 1)
  }

  lemma {:induction false} PowPositive(b: nat, e: nat)
    requires b > 0
    ensures Pow(b, e) > 0
  {
    if e > 0 {
      PowPositive(b, e - 1);
    }
  }

  lemma {:induction false} PowMono(a: nat, b: nat, e: nat)
    requires a <= b
    ensures Pow(a, e) <= Pow(b, e)
  {
    if e > 0 {
      PowMono(a, b, e - 1);
      MulMono(Pow(a, e - 1), Pow(b, e - 1), a);
      MulMono(a, b, Pow(b, e - 1));
    }
  }

  lemma Exchange(a: int, b: int, x: int, y: int)
    ensures a * b * (x * y) == a * x * (b * y)
  {
    assert a * b * (x * y) == a * (b * x * y);
    assert a * x * (b * y) == a * (x * b * y);
  }

  lemma {:induction false} PowOfProduct(a: nat, b: nat, e: nat)
    ensures Pow(a * b, e) == Pow(a, e) * Pow(b, e)
  {
    if e > 0 {
      PowOfProduct(a, b, e - 1);
      Exchange(a, b, Pow(a, e - 1), Pow(b, e - 1));
    }
  }

  lemma {:induction false} PowOfSquare(b: nat, h: nat)
    ensures Pow(b * b, h) == Pow(b, 2 * h)
  {
    if h > 0 {
      PowOfSquare(b, h - 1);
      var x := Pow(b, 2 * (h - 1));
      assert Pow(b, 2 * h - 1) == b * x;
      assert b * b * x == b * (b * x);
    }
  }

  /** The floored quotient of two naturals. */
  function Quotient(a: nat, d: nat): nat
    requires d > 0
  {
    DivAtLeast(a, d, 0);
    a / d
  }

  lemma MulBelowLimits(a: nat, b: nat, m: nat, n: nat)
    requires a < m && b < n
    ensures a * b < m * n
  {
    MulMono(a, m, b);
    MulMono(b, n, m);
    assert m * b < m * n by { MulMono(b + 1, n, m); }
  }

  lemma QuotientMono(a: nat, b: nat, d: nat)
    requires d > 0 && a <= b
    ensures Quotient(a, d) <= Quotient(b, d)
  {
    DivMono(a, b, d);
  }

  /** Ratios that do not fall, chained. */
  lemma RatioTransitive(a0: nat, b0: nat, a1: nat, b1: nat, a2: nat, b2: nat)
    requires b1 > 0 && a1 * b0 >= a0 * b1 && a2 * b1 >= a1 * b2
    ensures a2 * b0 >= a0 * b2
  {
    MulMono(a1 * b2, a2 * b1, b0);
    MulMono(a0 * b1, a1 * b0, b2);
    assert a1 * b2 * b0 == a1 * b0 * b2;
    assert a2 * b1 * b0 == a2 * b0 * b1;
    assert a0 * b1 * b2 == a0 * b2 * b1;
    MulCancel(a0 * b2, a2 * b0, b1);
  }

  /** The floored part of more at a ratio that has not fallen. */
  lemma FlooredRatioMono(x: nat, y: nat, a0: nat, b0: nat, a1: nat, b1: nat)
    requires b0 > 0 && b1 > 0 && x <= y && a1 * b0 >= a0 * b1
    ensures Quotient(x * a0, b0) <= Quotient(y * a1, b1)
  {
    var q := x * a0 / b0;
    DivBounds(x * a0, b0);
    MulMono(q * b0, x * a0, b1);
    MulMono(a0 * b1, a1 * b0, x);
    MulMono(x, y, a1);
    assert q * b0 * b1 == q * b1 * b0;
    assert x * a0 * b1 == x * (a0 * b1);
    assert x * (a1 * b0) == x * a1 * b0;
    MulCancel(q * b1, x * a1, b0);
    DivAtLeast(y * a1, b1, q);
  }

  /** `climbed` is the part of `rise` that `part` is of `whole`, but for what two roundings in `unit` lose. */
  ghost predicate StraightPart(unit: nat, rise: nat, part: nat, whole: nat, climbed: nat) {
    && climbed * whole <= part * rise
    && part * rise * unit <= (climbed + 1) * unit * whole + whole * rise
  }

  /** A fraction rounded down in fixed point and multiplied out, rounded down again. */
  lemma TwoFloors(unit: nat, rise: nat, part: nat, whole: nat)
    requires unit > 0 && whole > 0
    ensures StraightPart(unit, rise, part, whole, Quotient(Quotient(part * unit, whole) * rise, unit))
  {
    var share := Quotient(part * unit, whole);
    DivBounds(part * unit, whole);
    DivBounds(share * rise, unit);
    TwoFloorsOf(unit, rise, part, whole, share, Quotient(share * rise, unit));
  }

  lemma TwoFloorsOf(unit: nat, rise: nat, part: nat, whole: nat, share: nat, climbed: nat)
    requires unit > 0 && share * whole <= part * unit <= share * whole + whole
    requires climbed * unit <= share * rise <= climbed * unit + unit
    ensures StraightPart(unit, rise, part, whole, climbed)
  {
    MulMono(share * whole, part * unit, rise);
    MulMono(part * unit, share * whole + whole, rise);
    assert part * unit * rise == part * rise * unit;
    assert share * whole * rise == share * rise * whole;
    assert (share * whole + whole) * rise == share * rise * whole + whole * rise;
    MulMono(climbed * unit, share * rise, whole);
    MulMono(share * rise, climbed * unit + unit, whole);
    assert climbed * unit * whole == climbed * whole * unit;
    assert (climbed * unit + unit) * whole == (climbed + 1) * unit * whole;
    MulCancel(climbed * whole, part * rise, unit);
  }

  /** A floored share of a debt grown by a factor that is short of the exact one. */
  lemma GrownShort(unit: nat, debt: nat, growth: nat, grown: nat, exact: nat, p: nat)
    requires unit > 0 && debt * growth < (grown + 1) * unit && unit * exact <= growth * p
    ensures debt * exact <= (grown + 1) * p
  {
    MulMono(unit * exact, growth * p, debt);
    MulMono(debt * growth, (grown + 1) * unit, p);
    assert debt * (unit * exact) == debt * exact * unit;
    assert debt * (growth * p) == debt * growth * p;
    assert (grown + 1) * unit * p == (grown + 1) * p * unit;
    MulCancel(debt * exact, (grown + 1) * p, unit);
  }
}
