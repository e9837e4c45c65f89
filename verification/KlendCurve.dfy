/** The piecewise-linear borrow-rate curve of a klend reserve. */
module KlendCurve {
  import opened Arith
  import opened Fixed
  import opened Checked

  const POINTS_IN_CURVE: nat := 11

  datatype CurvePoint = CurvePoint(util: u32, rate: u32)

  type Curve = c: seq<CurvePoint> | |c| == POINTS_IN_CURVE
    witness seq(POINTS_IN_CURVE, _ => CurvePoint(0, 0))

  function BpsToFraction(bps: u32): Fraction {
    bps * ONE / FULL_BPS
  }

  function Capped(utilization: Fraction): Fraction {
    if utilization > ONE then ONE else utilization
  }

  /** Utilization as a whole number of basis points, rounded to nearest, ties up. */
  function UtilBps(utilization: Fraction): (b: nat)
    ensures b <= FULL_BPS
    ensures b * ONE <= Capped(utilization) * FULL_BPS + ONE / 2 < b * ONE + ONE
  {
    Min(Round(Capped(utilization) * FULL_BPS), FULL_BPS)
  }

  /** A utilization whose rounded basis points lie above a point lies above that point itself. */
  lemma AbovePoint(utilization: Fraction, util: u32)
    requires util < UtilBps(utilization)
    ensures BpsToFraction(util) < Capped(utilization)
  {
    var u := Capped(utilization);
    DivBounds(u * FULL_BPS + ONE / 2, ONE);
    MulMono(util + 1, Round(u * FULL_BPS), ONE);
    DivBounds(util * ONE, FULL_BPS);
  }

  /** The rise reached `coef` along a segment. */
  function Along(coef: nat, rise: nat, width: nat): nat
    requires width > 0
  {
    MulMono(0, coef, rise);
    DivAtLeast(coef * rise, width, 0);
    coef * rise / width
  }

  /** The line from `p` to `q`, evaluated at the unrounded utilization. */
  function OnSegment(p: CurvePoint, q: CurvePoint, utilization: Fraction): nat
    requires p.util < UtilBps(utilization) < q.util
  {
    AbovePoint(utilization, p.util);
    var coef := Capped(utilization) - BpsToFraction(p.util);
    Along(coef, SatSub(q.rate, p.rate), q.util - p.util) + BpsToFraction(p.rate)
  }

  /** The scan from point `i` on, `i - 1` being the point scanned before. */
  function RateFrom(curve: Curve, i: nat, utilization: Fraction): nat
    requires 1 <= i <= POINTS_IN_CURVE
    decreases POINTS_IN_CURVE - i
  {
    var b := UtilBps(utilization);
    if i == POINTS_IN_CURVE then BpsToFraction(curve[i - 1].rate)
    else if b == curve[i].util then BpsToFraction(curve[i].rate)
    else if curve[i - 1].util < b < curve[i].util then OnSegment(curve[i - 1], curve[i], utilization)
    else RateFrom(curve, i + 1, utilization)
  }

  function BorrowRate(curve: Curve, utilization: Fraction): nat {
    if UtilBps(utilization) == curve[0].util then BpsToFraction(curve[0].rate)
    else RateFrom(curve, 1, utilization)
  }

  /** The scan as the reserve program runs it. */
  method LookupBorrowRate(curve: Curve, utilization: Fraction) returns (rate: nat)
    ensures rate == BorrowRate(curve, utilization)
  {
    var b := UtilBps(utilization);
    var prev := curve[0];
    if b == prev.util {
      return BpsToFraction(prev.rate);
    }
    for i := 1 to POINTS_IN_CURVE
      invariant prev == curve[i - 1]
      invariant BorrowRate(curve, utilization) == RateFrom(curve, i, utilization)
    {
      var cur := curve[i];
      if b == cur.util {
        return BpsToFraction(cur.rate);
      }
      if prev.util < b < cur.util {
        return OnSegment(prev, cur, utilization);
      }
      prev := cur;
    }
    return BpsToFraction(prev.rate);
  }

  // ---------------------------------------------------------------- properties

  ghost predicate WellFormed(curve: Curve) {
    && curve[0].util == 0 && curve[POINTS_IN_CURVE - 1].util == FULL_BPS
    && forall i, j :: 0 <= i <= j < POINTS_IN_CURVE ==>
         && curve[i].util <= curve[j].util && curve[i].rate <= curve[j].rate
         && (curve[i].util == curve[j].util ==> curve[i].rate == curve[j].rate)
  }

  /** Where the scan stops: at the first point not below the rounded utilization. */
  lemma {:induction false} ScanStops(curve: Curve, i: nat, utilization: Fraction) returns (j: nat)
    requires WellFormed(curve) && 1 <= i < POINTS_IN_CURVE
    requires curve[i - 1].util < UtilBps(utilization)
    ensures i <= j < POINTS_IN_CURVE
    ensures curve[j - 1].util < UtilBps(utilization) <= curve[j].util
    ensures RateFrom(curve, i, utilization)
         == if UtilBps(utilization) == curve[j].util then BpsToFraction(curve[j].rate)
            else OnSegment(curve[j - 1], curve[j], utilization)
    decreases POINTS_IN_CURVE - i
  {
    if UtilBps(utilization) <= curve[i].util {
      j := i;
    } else {
      j := ScanStops(curve, i + 1, utilization);
    }
  }

  lemma BpsMono(a: u32, b: u32)
    requires a <= b
    ensures BpsToFraction(a) <= BpsToFraction(b)
  {
    DivMono(a * ONE, b * ONE, FULL_BPS);
  }

  lemma AlongBelow(coef: nat, rise: nat, width: nat)
    requires width > 0 && coef * FULL_BPS <= width * ONE
    ensures Along(coef, rise, width) <= rise * ONE / FULL_BPS
  {
    var top := rise * ONE / FULL_BPS;
    DivBounds(rise * ONE, FULL_BPS);
    MulMono(coef * FULL_BPS, width * ONE, rise);
    assert coef * FULL_BPS * rise == coef * rise * FULL_BPS;
    assert width * ONE * rise == width * (rise * ONE);
    MulMono(rise * ONE + 1, (top + 1) * FULL_BPS, width);
    assert width * ((top + 1) * FULL_BPS) == (top + 1) * width * FULL_BPS;
    MulCancel(coef * rise + 1, (top + 1) * width, FULL_BPS);
    DivAtMost(coef * rise, width, top);
  }

  /**
   Interpolating with the unrounded utilization still stays below the next point's rate: the
   utilization rounds to less than that point, so it is at least half a basis point short of it.
   */
  lemma SegmentBounds(p: CurvePoint, q: CurvePoint, utilization: Fraction)
    requires p.util < UtilBps(utilization) < q.util <= FULL_BPS && p.rate <= q.rate
    ensures BpsToFraction(p.rate) <= OnSegment(p, q, utilization) <= BpsToFraction(q.rate)
  {
    AbovePoint(utilization, p.util);
    var coef := Capped(utilization) - BpsToFraction(p.util);
    var w, h := q.util - p.util, q.rate - p.rate;
    assert coef * FULL_BPS <= w * ONE by {
      DivBounds(Capped(utilization) * FULL_BPS + ONE / 2, ONE);
      MulMono(UtilBps(utilization) + 1, q.util, ONE);
      DivBounds(p.util * ONE, FULL_BPS);
    }
    AlongBelow(coef, h, w);
    assert h * ONE + p.rate * ONE == q.rate * ONE;
    DivBounds(h * ONE, FULL_BPS);
    DivBounds(p.rate * ONE, FULL_BPS);
    DivBounds(q.rate * ONE, FULL_BPS);
  }

  /**
   A rate is on the straight line from `p` to `q` at the unrounded utilization, but for roundings of the last
   bit: two below, and above a part of the slope.
   */
  ghost predicate OnLine(p: CurvePoint, q: CurvePoint, utilization: Fraction, rate: nat)
    requires p.util <= q.util && p.rate <= q.rate
  {
    var (width, rise) := (q.util - p.util, q.rate - p.rate);
    var run := Capped(utilization) * FULL_BPS - p.util * ONE;
    && rate * FULL_BPS * width <= p.rate * ONE * width + run * rise + FULL_BPS * rise
    && p.rate * ONE * width + run * rise < (rate + 2) * FULL_BPS * width
  }

  lemma SegmentOnLine(p: CurvePoint, q: CurvePoint, utilization: Fraction)
    requires p.util < UtilBps(utilization) < q.util && p.rate <= q.rate
    ensures OnLine(p, q, utilization, OnSegment(p, q, utilization))
  {
    AbovePoint(utilization, p.util);
    var coef, width, rise := Capped(utilization) - BpsToFraction(p.util), q.util - p.util, q.rate - p.rate;
    DivBounds(p.util * ONE, FULL_BPS);
    DivBounds(p.rate * ONE, FULL_BPS);
    DivBounds(coef * rise, width);
    var run := Capped(utilization) * FULL_BPS - p.util * ONE;
    LineBounds(coef, width, rise, run, Along(coef, rise, width), BpsToFraction(p.rate), p.rate * ONE);
  }

  lemma LineBounds(coef: nat, width: nat, rise: nat, run: int, along: nat, base: nat, start: nat)
    requires run <= coef * FULL_BPS < run + FULL_BPS
    requires along * width <= coef * rise < along * width + width
    requires base * FULL_BPS <= start < base * FULL_BPS + FULL_BPS
    ensures (along + base) * FULL_BPS * width <= start * width + run * rise + FULL_BPS * rise
    ensures start * width + run * rise < (along + base + 2) * FULL_BPS * width
  {
    MulMono(run, coef * FULL_BPS, rise);
    MulMono(coef * FULL_BPS, run + FULL_BPS, rise);
    assert coef * FULL_BPS * rise == coef * rise * FULL_BPS;
    assert (run + FULL_BPS) * rise == run * rise + FULL_BPS * rise;
    MulMono(base * FULL_BPS, start, width);
    MulMono(start + 1, base * FULL_BPS + FULL_BPS, width);
    assert (along + base) * FULL_BPS * width == along * width * FULL_BPS + base * FULL_BPS * width;
    assert (along + base + 2) * FULL_BPS * width
        == along * width * FULL_BPS + width * FULL_BPS + (base * FULL_BPS + FULL_BPS) * width;
    assert (start + 1) * width == start * width + width;
  }

  /** A well-formed curve is its points joined by straight lines: each rate is a point's or on the line between two. */
  lemma BorrowRateOnCurve(curve: Curve, utilization: Fraction) returns (j: nat)
    requires WellFormed(curve)
    ensures j < POINTS_IN_CURVE
    ensures UtilBps(utilization) == curve[j].util ==> BorrowRate(curve, utilization) == BpsToFraction(curve[j].rate)
    ensures UtilBps(utilization) != curve[j].util ==>
      && j > 0 && curve[j - 1].util < UtilBps(utilization) < curve[j].util
      && OnLine(curve[j - 1], curve[j], utilization, BorrowRate(curve, utilization))
  {
    j := 0;
    if UtilBps(utilization) != curve[0].util {
      j := ScanStops(curve, 1, utilization);
      if UtilBps(utilization) != curve[j].util {
        SegmentOnLine(curve[j - 1], curve[j], utilization);
      }
    }
  }

  lemma SegmentMono(p: CurvePoint, q: CurvePoint, u: Fraction, v: Fraction)
    requires u <= v && p.util < UtilBps(u) < q.util && p.util < UtilBps(v) < q.util
    ensures OnSegment(p, q, u) <= OnSegment(p, q, v)
  {
    var h := SatSub(q.rate, p.rate);
    AbovePoint(u, p.util);
    AbovePoint(v, p.util);
    var start := BpsToFraction(p.util);
    MulMono(Capped(u) - start, Capped(v) - start, h);
    DivMono((Capped(u) - start) * h, (Capped(v) - start) * h, q.util - p.util);
  }

  /** The rate at a utilization is sandwiched by every point of the curve around it. */
  lemma RateBetweenPoints(curve: Curve, utilization: Fraction, j: nat)
    requires WellFormed(curve) && j < POINTS_IN_CURVE
    ensures curve[j].util <= UtilBps(utilization)
        ==> BpsToFraction(curve[j].rate) <= BorrowRate(curve, utilization)
    ensures UtilBps(utilization) <= curve[j].util
        ==> BorrowRate(curve, utilization) <= BpsToFraction(curve[j].rate)
  {
    var b := UtilBps(utilization);
    var k := 0;
    if b != curve[0].util {
      k := ScanStops(curve, 1, utilization);
      if b < curve[k].util {
        SegmentBounds(curve[k - 1], curve[k], utilization);
        if curve[j].util <= b {
          assert j <= k - 1;
          BpsMono(curve[j].rate, curve[k - 1].rate);
        } else {
          assert k <= j;
          BpsMono(curve[k].rate, curve[j].rate);
        }
        return;
      }
    }
    if curve[j].util < b {
      assert j < k;
      BpsMono(curve[j].rate, curve[k].rate);
    } else if b < curve[j].util {
      assert k < j;
      BpsMono(curve[k].rate, curve[j].rate);
    } else {
      assert if j <= k then curve[j].rate == curve[k].rate else curve[k].rate == curve[j].rate;
    }
  }

  /** The whole curve lies between its first and its last rate. */
  lemma BorrowRateBounds(curve: Curve, utilization: Fraction)
    requires WellFormed(curve)
    ensures BpsToFraction(curve[0].rate) <= BorrowRate(curve, utilization)
         <= BpsToFraction(curve[POINTS_IN_CURVE - 1].rate)
  {
    RateBetweenPoints(curve, utilization, 0);
    RateBetweenPoints(curve, utilization, POINTS_IN_CURVE - 1);
  }

  /** Higher utilization never borrows cheaper, across snapping, segments and duplicate points. */
  lemma BorrowRateMonotone(curve: Curve, u: Fraction, v: Fraction)
    requires WellFormed(curve) && u <= v
    ensures BorrowRate(curve, u) <= BorrowRate(curve, v)
  {
    assert UtilBps(u) <= UtilBps(v) by {
      MulMono(Capped(u), Capped(v), FULL_BPS);
      DivMono(Capped(u) * FULL_BPS + ONE / 2, Capped(v) * FULL_BPS + ONE / 2, ONE);
    }
    var j := 0;
    if UtilBps(u) != 0 {
      j := ScanStops(curve, 1, u);
      if UtilBps(v) < curve[j].util {
        var k := ScanStops(curve, 1, v);
        assert k == j by {
          assert !(k < j) && !(j < k);
        }
        SegmentMono(curve[j - 1], curve[j], u, v);
        return;
      }
    }
    RateBetweenPoints(curve, u, j);
    RateBetweenPoints(curve, v, j);
  }
}
