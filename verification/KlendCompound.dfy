/** Klend's truncated compound interest. */
module KlendCompound {
  import opened Arith
  import opened Outcome
  import opened Fixed

  /** The growth factor after `n` units at `rate` per year: exact shapes up to 4, three Taylor terms beyond. */
  function Compound(rate: Fraction, n: u64, unitsPerYear: u128): Result<Fraction>
    requires unitsPerYear > 0
  {
    var base: Fraction := PerUnit(rate, unitsPerYear);
    if n == 0 then Ok(ONE)
    else if n == 1 then Add(ONE, base)
    else if n == 2 then Square(base)
    else if n == 3 then
      var two :- Square(base);
      var once :- Add(ONE, base);
      Mul(two, once)
    else if n == 4 then
      var two :- Square(base);
      Mul(two, two)
    else
      var first :- Scale(base, n);
      var second :- NextTerm(first, base, n - 1, 2);
      var third :- NextTerm(second, base, n - 2, 3);
      var one :- Add(ONE, first);
      var two :- Add(one, second);
      Add(two, third)
  }

  function PerUnit(rate: Fraction, unitsPerYear: u128): (base: Fraction)
    requires unitsPerYear > 0
    ensures base * unitsPerYear <= rate < base * unitsPerYear + unitsPerYear
  {
    DivBounds(rate, unitsPerYear);
    DivInt(rate, unitsPerYear)
  }

  function Square(base: Fraction): Result<Fraction> {
    var once :- Add(ONE, base);
    Mul(once, once)
  }

  /** The next term of the expansion from the one before it. */
  function NextTerm(term: Fraction, base: Fraction, factor: u64, divisor: nat): Result<Fraction>
    requires divisor > 0
  {
    var product :- Mul(term, base);
    var scaled :- Scale(product, factor);
    Ok(DivInt(scaled, divisor))
  }

  // ---------------------------------------------------------------- monotone in the rate

  lemma MulMonotone(a: Fraction, b: Fraction, c: Fraction, d: Fraction)
    requires a <= c && b <= d && Mul(c, d).Ok?
    ensures Mul(a, b).Ok? && Mul(a, b).value <= Mul(c, d).value
  {
    MulMono(a, c, b);
    MulMono(b, d, c);
    DivMono(a * b, c * d, ONE);
    DivAtLeast(a * b, ONE, 0);
  }

  lemma NextTermMonotone(t: Fraction, b: Fraction, u: Fraction, c: Fraction, factor: u64, divisor: nat)
    requires t <= u && b <= c && divisor > 0 && NextTerm(u, c, factor, divisor).Ok?
    ensures NextTerm(t, b, factor, divisor).Ok?
    ensures NextTerm(t, b, factor, divisor).value <= NextTerm(u, c, factor, divisor).value
  {
    MulMonotone(t, b, u, c);
    var x, y := Mul(t, b).value, Mul(u, c).value;
    MulMono(x, y, factor);
    DivMono(x * factor, y * factor, divisor);
  }

  /** A higher rate compounds to at least as much, and never fails where a higher rate succeeds. */
  lemma CompoundMonotone(r: Fraction, s: Fraction, n: u64, unitsPerYear: u128)
    requires unitsPerYear > 0 && r <= s && Compound(s, n, unitsPerYear).Ok?
    ensures Compound(r, n, unitsPerYear).Ok?
    ensures Compound(r, n, unitsPerYear).value <= Compound(s, n, unitsPerYear).value
  {
    var b, c := PerUnit(r, unitsPerYear), PerUnit(s, unitsPerYear);
    DivMono(r, s, unitsPerYear);
    if n <= 1 {
    } else if n <= 4 {
      MulMonotone(ONE + b, ONE + b, ONE + c, ONE + c);
      if n == 3 {
        MulMonotone(Square(b).value, ONE + b, Square(c).value, ONE + c);
      } else if n == 4 {
        MulMonotone(Square(b).value, Square(b).value, Square(c).value, Square(c).value);
      }
    } else {
      MulMono(b, c, n);
      NextTermMonotone(b * n, b, c * n, c, n - 1, 2);
      var t, u := NextTerm(b * n, b, n - 1, 2).value, NextTerm(c * n, c, n - 1, 2).value;
      NextTermMonotone(t, b, u, c, n - 2, 3);
    }
  }

  // ---------------------------------------------------------------- at least simple interest

  lemma MulAtLeast(a: nat, x: nat, y: nat)
    requires a >= ONE + x
    ensures a * (ONE + y) / ONE >= ONE + x + y
  {
    MulMono(ONE + x, a, ONE + y);
    assert (ONE + x) * (ONE + y) == (ONE + x + y) * ONE + x * y;
    DivAtLeast(a * (ONE + y), ONE, ONE + x + y);
  }

  lemma CompoundAtLeastSimple(rate: Fraction, n: u64, unitsPerYear: u128)
    requires unitsPerYear > 0 && Compound(rate, n, unitsPerYear).Ok?
    ensures Compound(rate, n, unitsPerYear).value >= ONE + n * PerUnit(rate, unitsPerYear)
  {
    var b := PerUnit(rate, unitsPerYear);
    if 2 <= n <= 4 {
      MulAtLeast(ONE + b, b, b);
      var two := Square(b).value;
      if n == 3 {
        MulAtLeast(two, 2 * b, b);
      } else if n == 4 {
        MulAtLeast(two, 2 * b, two - ONE);
      }
    }
  }

  // ---------------------------------------------------------------- at most exact compounding

  /** The j-th term of the binomial expansion of (d + b)^n. */
  function Term(d: nat, b: nat, j: nat, n: nat): nat {
    if n == 0 then (if j == 0 then 1 else 0)
    else d * Term(d, b, j, n - 1) + (if j == 0 then 0 else b * Term(d, b, j - 1, n - 1))
  }

  lemma Swap(k: int, a: int, x: int)
    ensures k * (a * x) == a * (k * x)
  {
  }

  /** With u, t, s three consecutive terms of one row, the ratio carries over to the next row. */
  lemma RatioStep(d: nat, b: nat, s: nat, t: nat, u: nat, j: nat, n: int)
    requires (j + 1) * (d * u) == (n - j) * (b * t)
    requires j * (d * t) == (n + 1 - j) * (b * s)
    ensures (j + 1) * (d * (d * u + b * t)) == (n + 1 - j) * (b * (d * t + b * s))
  {
    calc {
      (j + 1) * (d * (d * u + b * t));
      { Swap(j + 1, d, d * u + b * t); }
      d * ((j + 1) * (d * u + b * t));
      d * ((j + 1) * (d * u) + (j + 1) * (b * t));
      d * ((n - j) * (b * t) + (j + 1) * (b * t));
      d * ((n + 1) * (b * t));
      { Swap(d, n + 1, b * t); Swap(d, b, t); }
      (n + 1) * (b * (d * t));
      { Swap(n + 1, b, d * t); }
      b * ((n + 1) * (d * t));
      b * ((n + 1 - j) * (d * t) + j * (d * t));
      b * ((n + 1 - j) * (d * t) + (n + 1 - j) * (b * s));
      b * ((n + 1 - j) * (d * t + b * s));
      { Swap(b, n + 1 - j, d * t + b * s); }
      (n + 1 - j) * (b * (d * t + b * s));
    }
  }

  /** Consecutive terms are in the ratio (n - j) b : (j + 1) d. */
  lemma {:induction false} TermRatio(d: nat, b: nat, j: nat, n: nat)
    ensures (j + 1) * (d * Term(d, b, j + 1, n)) == (n - j) * (b * Term(d, b, j, n))
  {
    if n == 0 {
      assert Term(d, b, j + 1, n) == 0;
      assert j == 0 || Term(d, b, j, n) == 0;
    } else {
      TermRatio(d, b, j, n - 1);
      if j == 0 {
        RatioStep(d, b, 0, Term(d, b, 0, n - 1), Term(d, b, 1, n - 1), 0, n - 1);
      } else {
        TermRatio(d, b, j - 1, n - 1);
        RatioStep(d, b, Term(d, b, j - 1, n - 1), Term(d, b, j, n - 1), Term(d, b, j + 1, n - 1), j, n - 1);
      }
    }
  }

  /** The first four terms of the expansion do not exceed the whole power. */
  lemma {:induction false} FourTermsBelowPower(d: nat, b: nat, n: nat)
    ensures Term(d, b, 0, n) + Term(d, b, 1, n) + Term(d, b, 2, n) + Term(d, b, 3, n) <= Pow(d + b, n)
  {
    if n > 0 {
      FourTermsBelowPower(d, b, n - 1);
      NextRowBelow(d, b, Term(d, b, 0, n - 1), Term(d, b, 1, n - 1), Term(d, b, 2, n - 1), Term(d, b, 3, n - 1),
                   Pow(d + b, n - 1));
    }
  }

  /** The first four terms of a row from those of the row before. */
  lemma NextRowBelow(d: nat, b: nat, t0: nat, t1: nat, t2: nat, t3: nat, p: nat)
    requires t0 + t1 + t2 + t3 <= p
    ensures d * t0 + (d * t1 + b * t0) + (d * t2 + b * t1) + (d * t3 + b * t2) <= (d + b) * p
  {
    MulMono(t0 + t1 + t2 + t3, p, d);
    MulMono(t0 + t1 + t2, p, b);
    assert d * (t0 + t1 + t2 + t3) == d * t0 + d * t1 + d * t2 + d * t3;
    assert b * (t0 + t1 + t2) == b * t0 + b * t1 + b * t2;
    assert (d + b) * p == d * p + b * p;
  }

  /** A computed term stays below the exact one after one more truncated step. */
  lemma NextTermBelow(t: Fraction, b: Fraction, j: nat, n: u64, p: nat)
    requires j < n && NextTerm(t, b, n - j, j + 1).Ok?
    requires t * p <= ONE * Term(ONE, b, j, n)
    ensures NextTerm(t, b, n - j, j + 1).value * p <= ONE * Term(ONE, b, j + 1, n)
  {
    var x, v := Mul(t, b).value, NextTerm(t, b, n - j, j + 1).value;
    var f, k := n - j, j + 1;
    var tj, tk := Term(ONE, b, j, n), Term(ONE, b, j + 1, n);
    DivBounds(t * b, ONE);
    DivBounds(x * f, k);
    TermRatio(ONE, b, j, n);
    BelowStep(v, k, x, f, t, b, p, tj, tk);
  }

  lemma BelowStep(v: nat, k: nat, x: nat, f: nat, t: nat, b: nat, p: nat, tj: nat, tk: nat)
    requires k > 0 && v * k <= x * f && x * ONE <= t * b
    requires t * p <= ONE * tj && k * (ONE * tk) == f * (b * tj)
    ensures v * p <= ONE * tk
  {
    Truncated(v, k, x, f, t * b, p);
    calc {
      t * b * f * p;
      f * b * (t * p);
    <= { MulMono(0, f, b); MulMono(t * p, ONE * tj, f * b); }
      f * b * (ONE * tj);
      { Swap(f * b, ONE, tj); }
      ONE * (f * (b * tj));
      ONE * (k * (ONE * tk));
      ONE * tk * (k * ONE);
    }
    MulCancel(v * p, ONE * tk, k * ONE);
  }

  lemma Truncated(v: nat, k: nat, x: nat, f: nat, y: nat, p: nat)
    requires v * k <= x * f && x * ONE <= y
    ensures v * p * (k * ONE) <= y * f * p
  {
    MulMono(v * k, x * f, ONE);
    MulMono(x * ONE, y, f);
    assert x * f * ONE == x * ONE * f;
    MulMono(v * k * ONE, y * f, p);
    assert v * k * ONE * p == v * p * (k * ONE);
  }

  /** A truncated product of two factors, against the product of their exact bounds. */
  lemma MulBelow(a: nat, b: nat, p: nat, q: nat, x: nat, y: nat)
    requires a * p <= ONE * x && b * q <= ONE * y
    ensures a * b / ONE * (p * q) <= ONE * (x * y)
  {
    var v := a * b / ONE;
    DivBounds(a * b, ONE);
    MulMono(0, p, q);
    MulMono(v * ONE, a * b, p * q);
    Exchange(a, b, p, q);
    MulMono(a * p, ONE * x, b * q);
    MulMono(b * q, ONE * y, ONE * x);
    assert ONE * x * (ONE * y) == ONE * (x * y) * ONE;
    assert v * ONE * (p * q) == v * (p * q) * ONE;
    MulCancel(v * (p * q), ONE * (x * y), ONE);
  }

  /**
   The approximation never exceeds exact compounding: as a fraction of one it is at most
   (1 + base)^n, stated without division.
   */
  lemma CompoundAtMostExact(rate: Fraction, n: u64, unitsPerYear: u128)
    requires unitsPerYear > 0 && Compound(rate, n, unitsPerYear).Ok?
    ensures Compound(rate, n, unitsPerYear).value * Pow(ONE, n)
         <= ONE * Pow(ONE + PerUnit(rate, unitsPerYear), n)
  {
    var o := ONE + PerUnit(rate, unitsPerYear);
    if n <= 4 {
      SmallPowers(ONE);
      SmallPowers(o);
      hide Pow;
      if n >= 2 {
        MulBelow(o, o, ONE, ONE, o, o);
        var two := Square(PerUnit(rate, unitsPerYear)).value;
        if n == 3 {
          MulBelow(two, o, ONE * ONE, ONE, o * o, o);
        } else if n == 4 {
          MulBelow(two, two, ONE * ONE, ONE * ONE, o * o, o * o);
        }
      }
    } else {
      LongBelow(rate, n, unitsPerYear);
    }
  }

  lemma LongBelow(rate: Fraction, n: u64, unitsPerYear: u128)
    requires unitsPerYear > 0 && n > 4 && Compound(rate, n, unitsPerYear).Ok?
    ensures Compound(rate, n, unitsPerYear).value * Pow(ONE, n)
         <= ONE * Pow(ONE + PerUnit(rate, unitsPerYear), n)
  {
    var b := PerUnit(rate, unitsPerYear);
    var p := Pow(ONE, n);
    TermZero(ONE, b, n);
    TermRatio(ONE, b, 0, n);
    FirstBelow(b, n, p, Term(ONE, b, 1, n));
    NextTermBelow(b * n, b, 1, n, p);
    var second := NextTerm(b * n, b, n - 1, 2).value;
    NextTermBelow(second, b, 2, n, p);
    var third := NextTerm(second, b, n - 2, 3).value;
    FourTermsBelowPower(ONE, b, n);
    SumOfFour(ONE, b * n, second, third, p, ONE, Term(ONE, b, 0, n), Term(ONE, b, 1, n),
              Term(ONE, b, 2, n), Term(ONE, b, 3, n), Pow(ONE + b, n));
  }

  lemma FirstBelow(b: nat, n: nat, p: nat, t1: nat)
    requires ONE * t1 == n * (b * p)
    ensures b * n * p <= ONE * t1
  {
  }

  lemma SumOfFour(v0: nat, v1: nat, v2: nat, v3: nat, p: nat, d: nat,
                  t0: nat, t1: nat, t2: nat, t3: nat, whole: nat)
    requires v0 * p <= d * t0 && v1 * p <= d * t1 && v2 * p <= d * t2 && v3 * p <= d * t3
    requires t0 + t1 + t2 + t3 <= whole
    ensures (v0 + v1 + v2 + v3) * p <= d * whole
  {
    MulMono(t0 + t1 + t2 + t3, whole, d);
  }

  lemma {:induction false} TermZero(d: nat, b: nat, n: nat)
    ensures Term(d, b, 0, n) == Pow(d, n)
  {
    if n > 0 {
      TermZero(d, b, n - 1);
    }
  }

  lemma SmallPowers(x: nat)
    ensures Pow(x, 0) == 1 && Pow(x, 1) == x && Pow(x, 2) == x * x
    ensures Pow(x, 3) == x * x * x && Pow(x, 4) == x * x * (x * x)
  {
    assert Pow(x, 2) == x * Pow(x, 1);
    assert Pow(x, 3) == x * Pow(x, 2);
    assert Pow(x, 4) == x * Pow(x, 3);
    assert x * (x * x * x) == x * x * (x * x);
  }

  // ---------------------------------------------------------------- how close to exact compounding

  function FourTerms(d: nat, b: nat, n: nat): nat {
    Term(d, b, 0, n) + Term(d, b, 1, n) + Term(d, b, 2, n) + Term(d, b, 3, n)
  }

  /** What the truncations of the two computed terms lose of the last bit, times 6 * ONE. */
  function Lost(b: nat, n: nat): nat
    requires n > 4
  {
    MulMono(0, n - 2, b);
    MulMono(0, n, 5 * ONE + (n - 2) * b);
    n * (5 * ONE + (n - 2) * b)
  }

  /**
   The growth `v` is not below exact compounding of `b` over `n` periods but for its roundings: up to four
   periods a last bit in every factor; beyond, it has the first four terms of the binomial expansion.
   */
  ghost predicate NearExact(v: nat, b: nat, n: nat) {
    if n <= 4 then ONE * Pow(ONE + b, n) <= v * Pow(ONE + 1, n)
    else 6 * ONE * (ONE * FourTerms(ONE, b, n)) <= (6 * ONE * v + Lost(b, n)) * Pow(ONE, n)
  }

  /** A truncated product that is at least one loses at most a last bit of itself. */
  lemma MulNear(a: nat, b: nat)
    requires a >= ONE && b >= ONE
    ensures a * b / ONE >= ONE && a * b <= a * b / ONE * (ONE + 1)
  {
    DivBounds(a * b, ONE);
    MulMono(ONE, a, b);
    DivAtLeast(a * b, ONE, ONE);
  }

  lemma NearCube(o: nat, w: nat, two: nat, three: nat)
    requires o * o <= two * w && two * o <= three * w
    ensures o * o * o <= three * (w * w)
  {
    MulMono(o * o, two * w, o);
    MulMono(two * o, three * w, w);
    assert two * w * o == two * o * w;
  }

  lemma NearFourth(o: nat, w: nat, two: nat, four: nat)
    requires o * o <= two * w && two * two <= four * w
    ensures o * o * (o * o) <= four * (w * w * w)
  {
    MulMono(o * o, two * w, o * o);
    MulMono(o * o, two * w, two * w);
    MulMono(two * two, four * w, w * w);
    assert two * w * (two * w) == two * two * (w * w);
    assert four * w * (w * w) == four * (w * w * w);
  }

  lemma OneMorePeriod(x: nat, v: nat, p: nat)
    requires x <= v * p
    ensures ONE * x <= v * ((ONE + 1) * p)
  {
    MulMono(x, v * p, ONE);
    assert v * ((ONE + 1) * p) == v * p * ONE + v * p;
  }

  lemma ShortNear(rate: Fraction, n: u64, unitsPerYear: u128)
    requires unitsPerYear > 0 && n <= 4 && Compound(rate, n, unitsPerYear).Ok?
    ensures NearExact(Compound(rate, n, unitsPerYear).value, PerUnit(rate, unitsPerYear), n)
  {
    var o, w := ONE + PerUnit(rate, unitsPerYear), ONE + 1;
    var v := Compound(rate, n, unitsPerYear).value;
    SmallPowers(o);
    SmallPowers(w);
    hide Pow;
    if n == 1 {
      OneMorePeriod(o, v, 1);
    } else if n >= 2 {
      MulNear(o, o);
      var two := Square(PerUnit(rate, unitsPerYear)).value;
      if n == 2 {
        OneMorePeriod(o * o, v, w);
      } else if n == 3 {
        MulNear(two, o);
        NearCube(o, w, two, v);
        OneMorePeriod(o * o * o, v, w * w);
      } else {
        MulNear(two, two);
        NearFourth(o, w, two, v);
        OneMorePeriod(o * o * (o * o), v, w * w * w);
      }
    }
    assert w * w * w == w * (w * w) && w * w * (w * w) == w * (w * w * w);
  }

  /** One truncated step of the recurrence: a term short by `short / scale` and the one computed from it. */
  lemma AboveStep(v: nat, k: nat, x: nat, f: nat, t: nat, b: nat, p: nat, tj: nat, tk: nat, scale: nat, short: nat)
    requires k > 0 && x * f < (v + 1) * k && t * b < (x + 1) * ONE
    requires scale * (ONE * tj) <= (scale * t + short) * p && k * (ONE * tk) == f * (b * tj)
    ensures k * scale * ONE * (ONE * tk) <= (k * scale * ONE * v + scale * ONE * (k - 1 + f) + f * b * short) * p
  {
    StepExact(k, f, b, tj, tk, scale);
    StepUp(v, k, x, f, t * b, scale);
    MulMono(0, f, b);
    MulMono(scale * (ONE * tj), (scale * t + short) * p, f * b);
    StepGrouped(f, b, scale, t, short, p);
    var most := scale * ONE * (v * k + (k - 1 + f));
    assert k * scale * ONE * v + scale * ONE * (k - 1 + f) == most;
    MulMono(scale * f * (t * b) + f * b * short, most + f * b * short, p);
  }

  lemma StepGrouped(f: nat, b: nat, scale: nat, t: nat, short: nat, p: nat)
    ensures f * b * ((scale * t + short) * p) == (scale * f * (t * b) + f * b * short) * p
  {
    assert f * b * (scale * t + short) == scale * f * (t * b) + f * b * short;
    assert f * b * ((scale * t + short) * p) == f * b * (scale * t + short) * p;
  }

  lemma StepExact(k: nat, f: nat, b: nat, tj: nat, tk: nat, scale: nat)
    requires k * (ONE * tk) == f * (b * tj)
    ensures k * scale * ONE * (ONE * tk) == f * b * (scale * (ONE * tj))
  {
    assert k * scale * ONE * (ONE * tk) == scale * ONE * (k * (ONE * tk));
    assert scale * ONE * (f * (b * tj)) == f * b * (scale * (ONE * tj));
  }

  lemma StepUp(v: nat, k: nat, x: nat, f: nat, y: nat, scale: nat)
    requires x * f < (v + 1) * k && y < (x + 1) * ONE
    ensures scale * f * y <= scale * ONE * (v * k + (k - 1 + f))
  {
    MulMono(y, (x + 1) * ONE, f);
    assert f * ((x + 1) * ONE) == (x * f + f) * ONE;
    MulMono(x * f, v * k + k - 1, ONE);
    MulMono(f * y, (v * k + (k - 1 + f)) * ONE, scale);
    assert scale * ((v * k + (k - 1 + f)) * ONE) == scale * ONE * (v * k + (k - 1 + f));
  }

  /** A computed term is short of the exact one by what its own two truncations and the term before it lost. */
  lemma NextTermAbove(t: Fraction, b: Fraction, j: nat, n: u64, p: nat, scale: nat, short: nat)
    requires j < n && NextTerm(t, b, n - j, j + 1).Ok?
    requires scale * (ONE * Term(ONE, b, j, n)) <= (scale * t + short) * p
    ensures (j + 1) * scale * ONE * (ONE * Term(ONE, b, j + 1, n))
         <= ((j + 1) * scale * ONE * NextTerm(t, b, n - j, j + 1).value + scale * ONE * n + (n - j) * b * short) * p
  {
    var x, v := Mul(t, b).value, NextTerm(t, b, n - j, j + 1).value;
    DivBounds(t * b, ONE);
    DivBounds(x * (n - j), j + 1);
    TermRatio(ONE, b, j, n);
    AboveStep(v, j + 1, x, n - j, t, b, p, Term(ONE, b, j, n), Term(ONE, b, j + 1, n), scale, short);
  }

  /** The four terms with their shortfalls added up. */
  lemma AddShortfalls(b: nat, n: nat, p: nat, t0: nat, t1: nat, t2: nat, t3: nat, first: nat, second: nat, third: nat)
    requires n > 4 && t0 == p && ONE * t1 <= first * p
    requires 2 * ONE * (ONE * t2) <= (2 * ONE * second + ONE * n) * p
    requires 3 * (2 * ONE) * ONE * (ONE * t3)
          <= (3 * (2 * ONE) * ONE * third + 2 * ONE * ONE * n + (n - 2) * b * (ONE * n)) * p
    ensures 6 * ONE * (ONE * (t0 + t1 + t2 + t3)) <= (6 * ONE * (ONE + first + second + third) + Lost(b, n)) * p
  {
    var y := 2 * ONE * n + (n - 2) * b * n;
    MulMono(0, n - 2, b);
    MulMono(0, (n - 2) * b, n);
    assert 2 * ONE * ONE * n + (n - 2) * b * (ONE * n) == ONE * y;
    assert 3 * (2 * ONE) * ONE * (ONE * t3) == 6 * ONE * (ONE * t3) * ONE;
    assert (3 * (2 * ONE) * ONE * third + ONE * y) * p == (6 * ONE * third + y) * p * ONE;
    MulCancel(6 * ONE * (ONE * t3), (6 * ONE * third + y) * p, ONE);
    assert Lost(b, n) == 3 * (ONE * n) + y;
    Distribute(p, 2 * ONE * second, ONE * n);
    Distribute(p, 6 * ONE * third, y);
    Distribute(p, 6 * ONE * (ONE + first + second + third), Lost(b, n));
    assert 6 * ONE * (ONE + first + second + third) * p
        == 6 * ONE * (ONE * p) + 6 * ONE * (first * p) + 3 * (2 * ONE * second * p) + 6 * ONE * third * p;
  }

  lemma Distribute(p: nat, x: nat, y: nat)
    ensures (x + y) * p == x * p + y * p
  {
  }

  lemma FirstTerms(b: nat, n: nat)
    ensures Term(ONE, b, 0, n) == Pow(ONE, n) && ONE * Term(ONE, b, 1, n) == b * n * Pow(ONE, n)
  {
    TermZero(ONE, b, n);
    TermRatio(ONE, b, 0, n);
    assert n * (b * Pow(ONE, n)) == b * n * Pow(ONE, n);
  }

  lemma TermsNear(b: Fraction, n: u64, second: Fraction, third: Fraction)
    requires n > 4 && b * n < U128_LIMIT
    requires NextTerm(b * n, b, n - 1, 2) == Ok(second) && NextTerm(second, b, n - 2, 3) == Ok(third)
    ensures NearExact(ONE + b * n + second + third, b, n)
  {
    hide Pow, Term, Lost, NextTerm;
    var p := Pow(ONE, n);
    FirstTerms(b, n);
    NextTermAbove(b * n, b, 1, n, p, 1, 0);
    NextTermAbove(second, b, 2, n, p, 2 * ONE, ONE * n);
    AddShortfalls(b, n, p, Term(ONE, b, 0, n), Term(ONE, b, 1, n), Term(ONE, b, 2, n), Term(ONE, b, 3, n),
                  b * n, second, third);
  }

  lemma LongNear(rate: Fraction, n: u64, unitsPerYear: u128)
    requires unitsPerYear > 0 && n > 4 && Compound(rate, n, unitsPerYear).Ok?
    ensures NearExact(Compound(rate, n, unitsPerYear).value, PerUnit(rate, unitsPerYear), n)
  {
    hide NextTerm, NearExact;
    var b := PerUnit(rate, unitsPerYear);
    var second := NextTerm(b * n, b, n - 1, 2).value;
    TermsNear(b, n, second, NextTerm(second, b, n - 2, 3).value);
  }

  /**
   The approximation keeps what it promises from below too: see NearExact. With CompoundAtMostExact, every
   growth lies between those two.
   */
  lemma CompoundNearExact(rate: Fraction, n: u64, unitsPerYear: u128)
    requires unitsPerYear > 0 && Compound(rate, n, unitsPerYear).Ok?
    ensures NearExact(Compound(rate, n, unitsPerYear).value, PerUnit(rate, unitsPerYear), n)
  {
    hide NearExact, Compound;
    if n <= 4 {
      ShortNear(rate, n, unitsPerYear);
    } else {
      LongNear(rate, n, unitsPerYear);
    }
  }
}
