/** Quotes over a marginfi bank: 48-bit fixed point, share values and the seven-point rate curve. */
module Marginfi {
  import opened Arith
  import opened Outcome
  import opened Fixed
  import opened Checked

  /** One, in 48-bit fixed point. */
  const ONE48: nat := 0x1_0000_0000_0000

  const FIXED_LIMIT: nat := 0x8000_0000_0000_0000_0000_0000_0000_0000

  const SECONDS_PER_YEAR: nat := 31_536_000

  /** Non-negative I80F48 values, by their bits. */
  type fixed48 = n: nat | n < FIXED_LIMIT

  function Fit48(n: nat): Result<fixed48> {
    if n < FIXED_LIMIT then Ok(n) else Err(Overflow)
  }

  function FromNum48(n: u64): fixed48 {
    n * ONE48
  }

  function Mul48(a: fixed48, b: fixed48): Result<fixed48> {
    Fit48(Quotient(a * b, ONE48))
  }

  function Div48(a: fixed48, b: fixed48): Result<fixed48> {
    if b == 0 then Err(DivideByZero) else Fit48(Quotient(a * ONE48, b))
  }

  // ---------------------------------------------------------------- the rate curve

  datatype RatePoint = RatePoint(util: u32, rate: u32)

  datatype Knot = Knot(x: fixed48, y: fixed48)

  function UtilFromU32(util: u32): fixed48 {
    util * ONE48 / (U32_LIMIT - 1)
  }

  function RateFromU32(rate: u32): fixed48 {
    rate * ONE48 / (U32_LIMIT - 1) * 10
  }

  function KnotOf(p: RatePoint): Knot {
    Knot(UtilFromU32(p.util), RateFromU32(p.rate))
  }

  /** Straight interpolation from `a` to `b`, refusing targets outside and falling values. */
  function Lerp(a: Knot, b: Knot, x: fixed48): Result<fixed48> {
    if b.x <= a.x then Ok(a.y)
    else if x < a.x || x > b.x || b.y < a.y then Err(LerpRange)
    else
      var proportion :- Div48(x - a.x, b.x - a.x);
      var rise :- Mul48(b.y - a.y, proportion);
      Fit48(a.y + rise)
  }

  /** The curve from knot `prev` on: the first knot not left of `x` ends the segment. */
  function CurveFrom(prev: Knot, points: seq<RatePoint>, last: Knot, x: fixed48): Result<fixed48>
    decreases |points|
  {
    if points == [] then Lerp(prev, last, x)
    else if points[0].util == 0 then CurveFrom(prev, points[1..], last, x)
    else if x <= UtilFromU32(points[0].util) then Lerp(prev, KnotOf(points[0]), x)
    else CurveFrom(KnotOf(points[0]), points[1..], last, x)
  }

  datatype RateCurve = RateCurve(zeroRate: u32, points: seq<RatePoint>, hundredRate: u32) {
    function Start(): Knot {
      Knot(0, RateFromU32(zeroRate))
    }

    function End(): Knot {
      Knot(ONE48, RateFromU32(hundredRate))
    }

    function RateAt(utilization: fixed48): Result<fixed48> {
      CurveFrom(Start(), points, End(), Min(utilization, ONE48))
    }
  }

  /** The scan as the bank runs it. */
  method InterestRateMultipointCurve(curve: RateCurve, utilization: fixed48) returns (r: Result<fixed48>)
    ensures r == curve.RateAt(utilization)
  {
    hide Lerp, KnotOf, UtilFromU32;
    var x: fixed48 := Min(utilization, ONE48);
    var prev := curve.Start();
    for i := 0 to |curve.points|
      invariant CurveFrom(prev, curve.points[i..], curve.End(), x) == curve.RateAt(utilization)
    {
      assert curve.points[i..][1..] == curve.points[i + 1..];
      var p := curve.points[i];
      if p.util != 0 {
        if x <= UtilFromU32(p.util) {
          return Lerp(prev, KnotOf(p), x);
        }
        prev := KnotOf(p);
      }
    }
    return Lerp(prev, curve.End(), x);
  }

  /** A segment stays between its ends, hits its right end exactly and never falls. */
  lemma LerpBounds(a: Knot, b: Knot, x: fixed48)
    requires a.x <= x <= b.x && a.y <= b.y
    ensures Lerp(a, b, x).Ok? && a.y <= Lerp(a, b, x).value <= b.y
    ensures x == b.x && a.x < b.x ==> Lerp(a, b, x).value == b.y
  {
    if a.x < b.x {
      var offset, width, rise := x - a.x, b.x - a.x, b.y - a.y;
      MulMono(offset, width, ONE48);
      var p := offset * ONE48 / width;
      DivMono(offset * ONE48, width * ONE48, width);
      assert width * ONE48 == ONE48 * width;
      DivOfMultiple(ONE48, width);
      DivAtLeast(offset * ONE48, width, 0);
      MulMono(p, ONE48, rise);
      MulMono(0, rise, p);
      DivMono(rise * p, rise * ONE48, ONE48);
      DivOfMultiple(rise, ONE48);
      DivAtLeast(rise * p, ONE48, 0);
    }
  }

  lemma LerpMono(a: Knot, b: Knot, x: fixed48, y: fixed48)
    requires a.x <= x <= y <= b.x && a.y <= b.y
    ensures Lerp(a, b, x).Ok? && Lerp(a, b, y).Ok? && Lerp(a, b, x).value <= Lerp(a, b, y).value
  {
    LerpBounds(a, b, x);
    LerpBounds(a, b, y);
    if a.x < b.x {
      var width, rise := b.x - a.x, b.y - a.y;
      MulMono(x - a.x, y - a.x, ONE48);
      QuotientMono((x - a.x) * ONE48, (y - a.x) * ONE48, width);
      var p, q := Quotient((x - a.x) * ONE48, width), Quotient((y - a.x) * ONE48, width);
      MulMono(p, q, rise);
      QuotientMono(rise * p, rise * q, ONE48);
    }
  }

  /** A rising segment is straight, but for roundings of the last bit. */
  lemma LerpOnLine(a: Knot, b: Knot, x: fixed48)
    requires a.x <= x <= b.x && a.x < b.x && a.y <= b.y
    ensures Lerp(a, b, x).Ok? && Lerp(a, b, x).value >= a.y
    ensures StraightPart(ONE48, b.y - a.y, x - a.x, b.x - a.x, Lerp(a, b, x).value - a.y)
  {
    LerpBounds(a, b, x);
    LerpIs(a, b, x);
    hide Lerp, StraightPart;
    TwoFloors(ONE48, b.y - a.y, x - a.x, b.x - a.x);
  }

  lemma LerpIs(a: Knot, b: Knot, x: fixed48)
    requires a.x <= x <= b.x && a.x < b.x && a.y <= b.y && Lerp(a, b, x).Ok?
    ensures Lerp(a, b, x).value
         == a.y + Quotient(Quotient((x - a.x) * ONE48, b.x - a.x) * (b.y - a.y), ONE48)
  {
    var share := Quotient((x - a.x) * ONE48, b.x - a.x);
    assert share * (b.y - a.y) == (b.y - a.y) * share;
  }

  /** Percentages and rates travel as fractions of the greatest 32-bit number, rates up to tenfold. */
  lemma KnotScale(p: RatePoint)
    ensures var (full, k) := (U32_LIMIT - 1, KnotOf(p));
      && k.x * full <= p.util * ONE48 < (k.x + 1) * full
      && k.y * full <= 10 * p.rate * ONE48 < (k.y + 10) * full && k.y % 10 == 0
  {
    DivBounds(p.util * ONE48, U32_LIMIT - 1);
    DivBounds(p.rate * ONE48, U32_LIMIT - 1);
  }

  /** The used points in order, and the last knot. */
  ghost function Knots(points: seq<RatePoint>, last: Knot): (ks: seq<Knot>)
    ensures ks != []
    decreases |points|
  {
    if points == [] then [last]
    else if points[0].util == 0 then Knots(points[1..], last)
    else [KnotOf(points[0])] + Knots(points[1..], last)
  }

  /** Where on a climbing curve a utilization lies: between which of its knots, in the first place that holds it. */
  lemma {:induction false} CurveSegment(prev: Knot, points: seq<RatePoint>, last: Knot, x: fixed48) returns (i: nat)
    requires Climbs(prev, points, last) && prev.x <= x <= last.x
    ensures var ks := [prev] + Knots(points, last);
      && i + 1 < |ks| && ks[i].x <= x <= ks[i + 1].x && ks[i].y <= ks[i + 1].y && (i > 0 ==> ks[i].x < x)
      && CurveFrom(prev, points, last, x) == Lerp(ks[i], ks[i + 1], x)
    decreases |points|
  {
    hide Lerp, KnotOf;
    i := 0;
    if points != [] {
      if points[0].util == 0 {
        i := CurveSegment(prev, points[1..], last, x);
      } else {
        var knot := KnotOf(points[0]);
        KnotCoordinates(points[0]);
        if x > knot.x {
          ClimbsToEnd(knot, points[1..], last);
          var j := CurveSegment(knot, points[1..], last, x);
          i := j + 1;
          assert [prev] + Knots(points, last) == [prev] + ([knot] + Knots(points[1..], last));
        }
      }
    }
  }

  /** So the base rate is on the straight line between two neighbouring knots, or at the knots where they meet. */
  lemma RateOnLine(curve: RateCurve, utilization: fixed48) returns (i: nat)
    requires Climbs(curve.Start(), curve.points, curve.End())
    ensures var (ks, x) := ([curve.Start()] + Knots(curve.points, curve.End()), Min(utilization, ONE48));
      && i + 1 < |ks| && ks[i].x <= x <= ks[i + 1].x && ks[i].y <= ks[i + 1].y && (i > 0 ==> ks[i].x < x)
      && curve.RateAt(utilization).Ok? && curve.RateAt(utilization).value >= ks[i].y
      && if ks[i].x == ks[i + 1].x then curve.RateAt(utilization).value == ks[i].y
         else StraightPart(ONE48, ks[i + 1].y - ks[i].y, x - ks[i].x, ks[i + 1].x - ks[i].x,
                           curve.RateAt(utilization).value - ks[i].y)
  {
    var x := Min(utilization, ONE48);
    i := CurveSegment(curve.Start(), curve.points, curve.End(), x);
    var ks := [curve.Start()] + Knots(curve.points, curve.End());
    if ks[i].x < ks[i + 1].x {
      LerpOnLine(ks[i], ks[i + 1], x);
    }
    hide StraightPart, Knots, CurveFrom;
  }

  /** Knots ascend in both coordinates from `prev` through the used points to `last`. */
  ghost predicate Climbs(prev: Knot, points: seq<RatePoint>, last: Knot)
    decreases |points|
  {
    if points == [] then prev.x <= last.x && prev.y <= last.y
    else if points[0].util == 0 then Climbs(prev, points[1..], last)
    else
      && prev.x <= KnotOf(points[0]).x && prev.y <= KnotOf(points[0]).y
      && Climbs(KnotOf(points[0]), points[1..], last)
  }

  lemma {:induction false} ClimbsToEnd(prev: Knot, points: seq<RatePoint>, last: Knot)
    requires Climbs(prev, points, last)
    ensures prev.x <= last.x && prev.y <= last.y
    decreases |points|
  {
    if points != [] {
      ClimbsToEnd(if points[0].util == 0 then prev else KnotOf(points[0]), points[1..], last);
    }
  }

  lemma {:induction false} CurveBounds(prev: Knot, points: seq<RatePoint>, last: Knot, x: fixed48)
    requires Climbs(prev, points, last) && prev.x <= x <= last.x
    ensures CurveFrom(prev, points, last, x).Ok?
    ensures prev.y <= CurveFrom(prev, points, last, x).value <= last.y
    decreases |points|
  {
    hide Lerp, KnotOf;
    if points == [] {
      LerpBounds(prev, last, x);
    } else if points[0].util == 0 {
      CurveBounds(prev, points[1..], last, x);
    } else {
      var knot := KnotOf(points[0]);
      ClimbsToEnd(knot, points[1..], last);
      assert knot.x == UtilFromU32(points[0].util) by { KnotCoordinates(points[0]); }
      if x <= knot.x {
        LerpBounds(prev, knot, x);
      } else {
        CurveBounds(knot, points[1..], last, x);
      }
    }
  }

  lemma KnotCoordinates(p: RatePoint)
    ensures KnotOf(p).x == UtilFromU32(p.util)
  {
  }

  lemma {:induction false} CurveMono(prev: Knot, points: seq<RatePoint>, last: Knot, x: fixed48, y: fixed48)
    requires Climbs(prev, points, last) && prev.x <= x <= y <= last.x
    ensures CurveFrom(prev, points, last, x).Ok? && CurveFrom(prev, points, last, y).Ok?
    ensures CurveFrom(prev, points, last, x).value <= CurveFrom(prev, points, last, y).value
    decreases |points|
  {
    hide Lerp, KnotOf;
    if points == [] {
      LerpMono(prev, last, x, y);
    } else if points[0].util == 0 {
      CurveMono(prev, points[1..], last, x, y);
    } else {
      var knot := KnotOf(points[0]);
      KnotCoordinates(points[0]);
      if y <= knot.x {
        LerpMono(prev, knot, x, y);
      } else {
        CurveBounds(knot, points[1..], last, y);
        if x <= knot.x {
          LerpBounds(prev, knot, x);
        } else {
          CurveMono(knot, points[1..], last, x, y);
        }
      }
    }
  }

  /** On a climbing curve no utilization is refused, and higher utilization never earns less. */
  lemma RateMonotone(curve: RateCurve, u: fixed48, v: fixed48)
    requires Climbs(curve.Start(), curve.points, curve.End()) && u <= v
    ensures curve.RateAt(u).Ok? && curve.RateAt(v).Ok?
    ensures curve.Start().y <= curve.RateAt(u).value <= curve.RateAt(v).value <= curve.End().y
  {
    CurveBounds(curve.Start(), curve.points, curve.End(), Min(u, ONE48));
    CurveBounds(curve.Start(), curve.points, curve.End(), Min(v, ONE48));
    CurveMono(curve.Start(), curve.points, curve.End(), Min(u, ONE48), Min(v, ONE48));
  }

  // ---------------------------------------------------------------- share values

  datatype Bank = Bank(
    operational: bool, reduceOnly: bool, driftTag: bool,
    assetShareValue: fixed48, liabilityShareValue: fixed48,
    totalAssetShares: fixed48, totalLiabilityShares: fixed48,
    feeRate: fixed48, feeFixed: fixed48, curve: RateCurve,
    lastUpdate: int, depositLimit: u64, userShares: int)

  datatype ShareValues = ShareValues(asset: fixed48, liability: fixed48)

  /** What one becomes after `seconds` at a yearly rate. */
  function Growth(apr: fixed48, seconds: u64): Result<fixed48> {
    var scaled :- Mul48(apr, FromNum48(seconds));
    var perPeriod :- Div48(scaled, FromNum48(SECONDS_PER_YEAR));
    Fit48(ONE48 + perPeriod)
  }

  /** `value` after `seconds` at a yearly rate. */
  function Accrued(apr: fixed48, seconds: u64, value: fixed48): Result<fixed48> {
    var factor :- Growth(apr, seconds);
    Mul48(value, factor)
  }

  datatype Rates = Rates(lending: fixed48, borrowing: fixed48)

  /** Lenders earn the base rate on what is lent out; borrowers pay it with the fees on top. */
  function RatesFrom(baseRate: fixed48, utilization: fixed48, feeRate: fixed48, feeFixed: fixed48): Result<Rates> {
    var lending :- Mul48(baseRate, utilization);
    var markup :- Fit48(ONE48 + feeRate);
    var marked :- Mul48(baseRate, markup);
    var borrowing :- Fit48(marked + feeFixed);
    Ok(Rates(lending, borrowing))
  }

  function AccrueShareValues(b: Bank, now: int): Result<ShareValues> {
    var current := ShareValues(b.assetShareValue, b.liabilityShareValue);
    if b.lastUpdate <= 0 || now <= b.lastUpdate then Ok(current)
    else
      var assets :- Mul48(b.totalAssetShares, b.assetShareValue);
      var liabilities :- Mul48(b.totalLiabilityShares, b.liabilityShareValue);
      if assets == 0 || liabilities == 0 then Ok(current)
      else
        var seconds :- FitU64(now - b.lastUpdate);
        var utilization :- Div48(liabilities, assets);
        var baseRate :- b.curve.RateAt(utilization);
        var rates :- RatesFrom(baseRate, utilization, b.feeRate, b.feeFixed);
        var asset :- Accrued(rates.lending, seconds, b.assetShareValue);
        var liability :- Accrued(rates.borrowing, seconds, b.liabilityShareValue);
        Ok(ShareValues(asset, liability))
  }

  /** The square of one, times the seconds of a year: rates per year in this scale add up without rounding. */
  const YEAR_SCALE: nat := ONE48 * ONE48 * SECONDS_PER_YEAR

  /** `after` is `value` grown at a yearly rate of `apr`, in units of the square of one, but for roundings. */
  ghost predicate GrownBy(value: nat, after: nat, apr: int, seconds: nat) {
    && after * YEAR_SCALE <= value * (YEAR_SCALE + apr * seconds)
    && value * (YEAR_SCALE + apr * seconds) <= (after + 1) * YEAR_SCALE + value * (ONE48 * (SECONDS_PER_YEAR + seconds))
  }

  /** Lenders earn the base rate on what is lent out, borrowers pay it with the fees on top, over the time passed. */
  ghost predicate GrownAt(b: Bank, utilization: nat, baseRate: nat, seconds: nat, values: ShareValues) {
    && GrownBy(b.assetShareValue, values.asset, baseRate * utilization, seconds)
    && GrownBy(b.liabilityShareValue, values.liability, baseRate * (ONE48 + b.feeRate) + b.feeFixed * ONE48, seconds)
    && (utilization <= ONE48 ==>
          values.asset * b.liabilityShareValue <= b.assetShareValue * (values.liability + 1))
  }

  /** What accrual makes of the share values: nothing without time or on an empty side, else growth at the curve. */
  ghost predicate Accrues(b: Bank, now: int, values: ShareValues) {
    hide GrownAt, RateCurve.RateAt;
    var (assets, liabilities) := (Mul48(b.totalAssetShares, b.assetShareValue),
                                  Mul48(b.totalLiabilityShares, b.liabilityShareValue));
    var current := ShareValues(b.assetShareValue, b.liabilityShareValue);
    if b.lastUpdate <= 0 || now <= b.lastUpdate then values == current
    else
      && assets.Ok? && liabilities.Ok?
      && if assets.value == 0 || liabilities.value == 0 then values == current
         else
           var u := Quotient(liabilities.value * ONE48, assets.value);
           u < FIXED_LIMIT && b.curve.RateAt(u).Ok?
           && GrownAt(b, u, b.curve.RateAt(u).value, now - b.lastUpdate, values)
  }

  lemma AccruedBracket(apr: fixed48, seconds: u64, value: fixed48, exact: nat)
    requires Accrued(apr, seconds, value).Ok? && apr * ONE48 <= exact < (apr + 1) * ONE48
    ensures GrownBy(value, Accrued(apr, seconds, value).value, exact, seconds)
  {
    GrowthExact(apr, seconds);
    var f := Quotient(apr * seconds, SECONDS_PER_YEAR);
    DivBounds(apr * seconds, SECONDS_PER_YEAR);
    DivBounds(value * (ONE48 + f), ONE48);
    hide Growth;
    GrowthBracket(apr, seconds, value, exact, f, Accrued(apr, seconds, value).value);
  }

  lemma GrowthBracket(apr: nat, seconds: nat, value: nat, exact: nat, f: nat, after: nat)
    requires apr * ONE48 <= exact < (apr + 1) * ONE48
    requires f * SECONDS_PER_YEAR <= apr * seconds < f * SECONDS_PER_YEAR + SECONDS_PER_YEAR
    requires after * ONE48 <= value * (ONE48 + f) < after * ONE48 + ONE48
    ensures GrownBy(value, after, exact, seconds)
  {
    var y := SECONDS_PER_YEAR;
    MulMono(apr * ONE48, exact, seconds);
    MulMono(exact, (apr + 1) * ONE48, seconds);
    assert apr * ONE48 * seconds == apr * seconds * ONE48;
    assert (apr + 1) * ONE48 * seconds == apr * seconds * ONE48 + seconds * ONE48;
    GrowthScaled(seconds, value, exact * seconds, f, after);
  }

  lemma GrowthScaled(seconds: nat, value: nat, grown: nat, f: nat, after: nat)
    requires f * SECONDS_PER_YEAR * ONE48 <= grown <= (f * SECONDS_PER_YEAR + SECONDS_PER_YEAR) * ONE48 + seconds * ONE48
    requires after * ONE48 <= value * (ONE48 + f) < after * ONE48 + ONE48
    ensures after * YEAR_SCALE <= value * (YEAR_SCALE + grown)
    ensures value * (YEAR_SCALE + grown) <= (after + 1) * YEAR_SCALE + value * (ONE48 * (SECONDS_PER_YEAR + seconds))
  {
    var k := ONE48 * SECONDS_PER_YEAR;
    assert YEAR_SCALE + f * SECONDS_PER_YEAR * ONE48 == (ONE48 + f) * k;
    MulMono(after * ONE48, value * (ONE48 + f), k);
    MulMono((ONE48 + f) * k, YEAR_SCALE + grown, value);
    assert after * ONE48 * k == after * YEAR_SCALE;
    assert value * (ONE48 + f) * k == value * ((ONE48 + f) * k);
    MulMono(value * (ONE48 + f), after * ONE48 + ONE48, k);
    assert (after * ONE48 + ONE48) * k == (after + 1) * YEAR_SCALE;
    var extra := ONE48 * (SECONDS_PER_YEAR + seconds);
    MulMono(YEAR_SCALE + grown, (ONE48 + f) * k + extra, value);
    assert value * ((ONE48 + f) * k + extra) == value * ((ONE48 + f) * k) + value * extra;
  }

  /** A bank brought up to date in place. */
  class LiveBank {
    var bank: Bank

    constructor (b: Bank)
      ensures bank == b
    {
      bank := b;
    }

    method PreAccrue(now: int) returns (r: Result<()>)
      modifies this
      ensures r.Ok? <==> AccrueShareValues(old(bank), now).Ok?
      ensures r.Err? ==> bank == old(bank)
      ensures r.Ok? ==> var values := AccrueShareValues(old(bank), now).value;
        && bank == old(bank).(assetShareValue := values.asset, liabilityShareValue := values.liability, lastUpdate := now)
        && AccrueShareValues(bank, now) == Ok(values)
      ensures r.Ok? ==> Accrues(old(bank), now, ShareValues(bank.assetShareValue, bank.liabilityShareValue))
    {
      AccrualExact(bank, now);
      hide Accrues;
      var values := AccrueShareValues(bank, now);
      if values.Err? {
        return Err(values.error);
      }
      bank := bank.(assetShareValue := values.value.asset);
      bank := bank.(liabilityShareValue := values.value.liability);
      bank := bank.(lastUpdate := now);
      return Ok(());
    }
  }

  lemma AccruedGrows(apr: fixed48, seconds: u64, value: fixed48)
    requires Accrued(apr, seconds, value).Ok?
    ensures Accrued(apr, seconds, value).value >= value
  {
    var factor := Growth(apr, seconds).value;
    MulMono(ONE48, factor, value);
    DivAtLeast(value * factor, ONE48, value);
  }

  /** Neither share value ever falls under accrual. */
  lemma ShareValuesNeverFall(b: Bank, now: int)
    requires AccrueShareValues(b, now).Ok?
    ensures AccrueShareValues(b, now).value.asset >= b.assetShareValue
    ensures AccrueShareValues(b, now).value.liability >= b.liabilityShareValue
  {
    hide Accrued, RatesFrom, RateCurve.RateAt;
    if b.lastUpdate > 0 && now > b.lastUpdate {
      var assets := Mul48(b.totalAssetShares, b.assetShareValue).value;
      var liabilities := Mul48(b.totalLiabilityShares, b.liabilityShareValue).value;
      if assets != 0 && liabilities != 0 {
        var utilization := Div48(liabilities, assets).value;
        var rates := RatesFrom(b.curve.RateAt(utilization).value, utilization, b.feeRate, b.feeFixed).value;
        AccruedGrows(rates.lending, now - b.lastUpdate, b.assetShareValue);
        AccruedGrows(rates.borrowing, now - b.lastUpdate, b.liabilityShareValue);
      }
    }
  }

  /** Growth is linear in the time passed, in one floor. */
  lemma GrowthExact(apr: fixed48, seconds: u64)
    ensures Growth(apr, seconds).Ok? ==>
      Growth(apr, seconds).value == ONE48 + Quotient(apr * seconds, SECONDS_PER_YEAR)
  {
    MulMono(0, apr, seconds);
    assert apr * (seconds * ONE48) == apr * seconds * ONE48;
    DivOfMultiple(apr * seconds, ONE48);
    DivCancel(apr * seconds, SECONDS_PER_YEAR, ONE48);
  }

  /** A higher rate grows a share value by at least as much. */
  lemma GrowthMonotone(apr: fixed48, more: fixed48, seconds: u64)
    requires apr <= more && Growth(more, seconds).Ok?
    ensures Growth(apr, seconds).Ok? && Growth(apr, seconds).value <= Growth(more, seconds).value
  {
    var t := FromNum48(seconds);
    MulMono(apr, more, t);
    QuotientMono(apr * t, more * t, ONE48);
    var x, y := Quotient(apr * t, ONE48), Quotient(more * t, ONE48);
    QuotientMono(x * ONE48, y * ONE48, FromNum48(SECONDS_PER_YEAR));
  }

  /** Up to full utilization lenders earn at most the rate that borrowers pay. */
  lemma LendingAtMostBorrowing(baseRate: fixed48, utilization: fixed48, feeRate: fixed48, feeFixed: fixed48)
    requires utilization <= ONE48
    ensures RatesFrom(baseRate, utilization, feeRate, feeFixed).Ok? ==>
      var rates := RatesFrom(baseRate, utilization, feeRate, feeFixed).value;
      rates.lending <= baseRate && rates.lending <= rates.borrowing && baseRate + feeFixed <= rates.borrowing
  {
    MulMono(utilization, ONE48, baseRate);
    MulMono(ONE48, ONE48 + feeRate, baseRate);
    QuotientMono(baseRate * utilization, baseRate * ONE48, ONE48);
    QuotientMono(baseRate * ONE48, baseRate * (ONE48 + feeRate), ONE48);
    DivOfMultiple(baseRate, ONE48);
  }

  /** Both rates are the exact ones rounded down. */
  lemma RatesExact(baseRate: fixed48, utilization: fixed48, feeRate: fixed48, feeFixed: fixed48)
    requires RatesFrom(baseRate, utilization, feeRate, feeFixed).Ok?
    ensures var rates := RatesFrom(baseRate, utilization, feeRate, feeFixed).value;
      && rates.lending * ONE48 <= baseRate * utilization < (rates.lending + 1) * ONE48
      && rates.borrowing * ONE48 <= baseRate * (ONE48 + feeRate) + feeFixed * ONE48 < (rates.borrowing + 1) * ONE48
  {
    DivBounds(baseRate * utilization, ONE48);
    DivBounds(baseRate * (ONE48 + feeRate), ONE48);
  }

  /** Below the same growth or more, a ratio of two grown values cannot rise but by a rounding. */
  lemma GrowsNoFaster(asset: nat, liability: nat, g: nat, h: nat, assetAfter: nat, liabilityAfter: nat)
    requires g <= h && assetAfter * ONE48 <= asset * g && liability * h < (liabilityAfter + 1) * ONE48
    ensures assetAfter * liability <= asset * (liabilityAfter + 1)
  {
    MulMono(assetAfter * ONE48, asset * g, liability);
    MulMono(g, h, asset * liability);
    MulMono(liability * h, (liabilityAfter + 1) * ONE48, asset);
    assert asset * g * liability == asset * liability * g;
    assert asset * liability * h == asset * (liability * h);
    assert assetAfter * ONE48 * liability == assetAfter * liability * ONE48;
    assert asset * ((liabilityAfter + 1) * ONE48) == asset * (liabilityAfter + 1) * ONE48;
    MulCancel(assetAfter * liability, asset * (liabilityAfter + 1), ONE48);
  }

  lemma GrownInOrder(lending: fixed48, borrowing: fixed48, seconds: u64, asset: fixed48, liability: fixed48)
    requires lending <= borrowing && Accrued(lending, seconds, asset).Ok? && Accrued(borrowing, seconds, liability).Ok?
    ensures Accrued(lending, seconds, asset).value * liability
         <= asset * (Accrued(borrowing, seconds, liability).value + 1)
  {
    GrowthMonotone(lending, borrowing, seconds);
    var g, h := Growth(lending, seconds).value, Growth(borrowing, seconds).value;
    hide Growth;
    DivBounds(asset * g, ONE48);
    DivBounds(liability * h, ONE48);
    GrowsNoFaster(asset, liability, g, h, Accrued(lending, seconds, asset).value,
                  Accrued(borrowing, seconds, liability).value);
  }

  lemma GrownAtRates(b: Bank, utilization: fixed48, baseRate: fixed48, seconds: u64, values: ShareValues)
    requires RatesFrom(baseRate, utilization, b.feeRate, b.feeFixed).Ok?
    requires var rates := RatesFrom(baseRate, utilization, b.feeRate, b.feeFixed).value;
      && Accrued(rates.lending, seconds, b.assetShareValue) == Ok(values.asset)
      && Accrued(rates.borrowing, seconds, b.liabilityShareValue) == Ok(values.liability)
    ensures GrownAt(b, utilization, baseRate, seconds, values)
  {
    var rates := RatesFrom(baseRate, utilization, b.feeRate, b.feeFixed).value;
    RatesExact(baseRate, utilization, b.feeRate, b.feeFixed);
    MulMono(0, baseRate, utilization);
    MulMono(0, baseRate, ONE48 + b.feeRate);
    AccruedBracket(rates.lending, seconds, b.assetShareValue, baseRate * utilization);
    AccruedBracket(rates.borrowing, seconds, b.liabilityShareValue,
                   baseRate * (ONE48 + b.feeRate) + b.feeFixed * ONE48);
    hide Accrued, GrownBy;
    if utilization <= ONE48 {
      LendingAtMostBorrowing(baseRate, utilization, b.feeRate, b.feeFixed);
      hide RatesFrom;
      GrownInOrder(rates.lending, rates.borrowing, seconds, b.assetShareValue, b.liabilityShareValue);
    }
  }

  /**
   Accrual in full: over the time passed the asset share value grows at the base rate on the part lent out,
   the liability share value at the base rate with the fees, and up to full utilization the first no faster
   than the second.
   */
  lemma AccrualExact(b: Bank, now: int)
    ensures AccrueShareValues(b, now).Ok? ==> Accrues(b, now, AccrueShareValues(b, now).value)
  {
    hide Accrued, RatesFrom, RateCurve.RateAt, GrownAt;
    if AccrueShareValues(b, now).Ok? && b.lastUpdate > 0 && now > b.lastUpdate {
      var assets := Mul48(b.totalAssetShares, b.assetShareValue).value;
      var liabilities := Mul48(b.totalLiabilityShares, b.liabilityShareValue).value;
      if assets != 0 && liabilities != 0 {
        var utilization := Div48(liabilities, assets).value;
        GrownAtRates(b, utilization, b.curve.RateAt(utilization).value, now - b.lastUpdate,
                     AccrueShareValues(b, now).value);
      }
    }
  }

  // ---------------------------------------------------------------- quotes

  /** Wrapper shares for new bank shares: three nested truncations. */
  function MintFor(added: fixed48, supply: u64, held: fixed48): Result<u64> {
    var scaled :- Mul48(added, FromNum48(supply));
    var ratio :- Div48(scaled, held);
    FitU64(ratio / ONE48)
  }

  function QuoteDeposit(b: Bank, now: int, supply: u64, creatorBps: u16, protocolBps: u16, amount: u64): Result<u64> {
    var _ :- Require(amount != 0, ZeroAmount);
    var _ :- Require(!b.driftTag && b.operational && !b.reduceOnly, BankClosed);
    var net :- Checked.NetAmount(amount, protocolBps, creatorBps);
    var _ :- Require(net != 0, NetZero);
    var values :- AccrueShareValues(b, now);
    var _ :- Require(values.asset != 0, DivideByZero);
    var added :- Div48(FromNum48(net), values.asset);
    var _ :- DepositLimitCheck(b, values.asset, added);
    DepositAt(b, supply, net, added)
  }

  function DepositLimitCheck(b: Bank, shareValue: fixed48, added: fixed48): Result<()> {
    if b.depositLimit == 0 || b.depositLimit == U64_MAX then Ok(())
    else
      var shares :- Fit48(b.totalAssetShares + added);
      var assets :- Mul48(shares, shareValue);
      Require(assets < FromNum48(b.depositLimit), CapacityExceeded)
  }

  function DepositAt(b: Bank, supply: u64, net: u64, added: fixed48): Result<u64> {
    var _ :- Require(added > 0, CollateralZero);
    var minted :- if supply == 0 then Ok(net)
                  else if b.userShares <= 0 then Err(OutOfSync)
                  else if b.userShares >= FIXED_LIMIT then Err(Overflow)
                  else MintFor(added, supply, b.userShares);
    var _ :- Require(minted != 0, MintZero);
    var held: u128 :- FitU128(Max(b.userShares, 0));
    var newHeld :- FitU128(held + added);
    var newSupply :- FitU64(supply + minted);
    var _ :- RequireNoValuePerShareLoss(held, supply, newHeld, newSupply);
    Ok(minted)
  }

  function QuoteWithdraw(b: Bank, now: int, supply: u64, amount: u64): Result<u64> {
    var _ :- Require(amount != 0, ZeroAmount);
    var _ :- Require(!b.driftTag && b.operational, BankClosed);
    var _ :- Require(amount <= supply, BurnExceedsSupply);
    var held: u128 :- if b.userShares <= 0 then Err(NoIntermediate) else FitU128(b.userShares);
    var product :- FitU128(amount * held);
    var shares: fixed48 :- if supply == 0 then Err(DivideByZero) else Fit48(Quotient(product, supply));
    var _ :- Require(shares != 0, RedeemZero);
    var values :- AccrueShareValues(b, now);
    var paid :- PayFor(b, values, shares);
    var newHeld: u128 :- Sub(held, shares);
    var newSupply: u64 :- Sub(supply, amount);
    var _ :- RequireNoValuePerShareLoss(held, supply, newHeld, newSupply);
    Ok(paid)
  }

  /** The underlying for bank shares, as long as the bank keeps covering its liabilities. */
  function PayFor(b: Bank, values: ShareValues, shares: fixed48): Result<u64> {
    var underlying :- Mul48(shares, values.asset);
    var paid :- FitU64(underlying / ONE48);
    var _ :- Require(paid != 0, UnderlyingZero);
    var assets :- Mul48(b.totalAssetShares, values.asset);
    var liabilities :- Mul48(b.totalLiabilityShares, values.liability);
    var _ :- Require(FromNum48(paid) + liabilities <= assets, InsufficientLiquidity);
    Ok(paid)
  }

  /** The nested truncations of a mint are one floor. */
  lemma MintExact(added: fixed48, supply: u64, held: fixed48)
    requires held > 0 && MintFor(added, supply, held).Ok?
    ensures MintFor(added, supply, held).value == added * supply / held
    ensures added * supply / held * held <= added * supply
  {
    var p := added * supply;
    assert added * (supply * ONE48) == p * ONE48;
    MulMono(0, added, supply);
    DivOfMultiple(p, ONE48);
    DivDiv(p * ONE48, held, ONE48);
    DivCancel(p, held, ONE48);
    DivBounds(p, held);
  }

  /** The guard never rejects a marginfi deposit. */
  lemma DepositGuardNeverRejects(b: Bank, supply: u64, net: u64, added: fixed48)
    ensures DepositAt(b, supply, net, added) != Err(ValuePerShareLoss)
    ensures DepositAt(b, supply, net, added).Ok? ==>
      var minted := DepositAt(b, supply, net, added).value;
      && minted > 0
      && minted == if supply == 0 then net
                   else if 0 < b.userShares < FIXED_LIMIT then added * supply / b.userShares else 0
  {
    hide MintFor;
    if 0 < b.userShares < FIXED_LIMIT && supply > 0 {
      MintFails(added, supply, b.userShares);
      var minted := MintFor(added, supply, b.userShares);
      if minted.Ok? {
        MintExact(added, supply, b.userShares);
        if supply + minted.value < U64_LIMIT {
          MintPassesGuard(b.userShares, supply, added, b.userShares + added, minted.value, supply + minted.value);
        }
      }
    }
  }

  /** When bank shares can be minted against, in closed form. */
  lemma DepositAtExact(b: Bank, supply: u64, net: u64, added: fixed48)
    requires net > 0
    ensures DepositAt(b, supply, net, added).Ok? <==>
      && added > 0
      && if supply == 0 then Max(b.userShares, 0) + added < U128_LIMIT
         else
           && 0 < b.userShares < FIXED_LIMIT && added * supply < FIXED_LIMIT
           && added * supply * ONE48 / b.userShares < FIXED_LIMIT
           && 0 < added * supply / b.userShares && supply + added * supply / b.userShares < U64_LIMIT
  {
    hide MintFor;
    DepositGuardNeverRejects(b, supply, net, added);
    if supply > 0 && 0 < b.userShares < FIXED_LIMIT {
      MintFits(added, supply, b.userShares);
    }
  }

  lemma MintFits(added: fixed48, supply: u64, held: fixed48)
    requires held > 0
    ensures MintFor(added, supply, held).Ok? <==>
      && added * supply < FIXED_LIMIT && added * supply * ONE48 / held < FIXED_LIMIT
      && added * supply / held < U64_LIMIT
    ensures MintFor(added, supply, held).Ok? ==> MintFor(added, supply, held).value == added * supply / held
  {
    var p := added * supply;
    assert added * (supply * ONE48) == p * ONE48;
    MulMono(0, added, supply);
    DivOfMultiple(p, ONE48);
    DivDiv(p * ONE48, held, ONE48);
    DivCancel(p, held, ONE48);
  }

  /** A bank with a limit holds less than it in all. */
  ghost predicate BelowLimit(b: Bank, shares: nat, shareValue: nat) {
    b.depositLimit == 0 || b.depositLimit == U64_MAX || shares * shareValue < b.depositLimit * ONE48 * ONE48
  }

  /**
   What a deposit does, in closed form: the net amount buys bank shares at the accrued asset share value, one
   floor, and mints the pro-rata floor of them; a bank with a limit stays below it.
   */
  lemma DepositExact(b: Bank, now: int, supply: u64, creatorBps: u16, protocolBps: u16, amount: u64)
    ensures QuoteDeposit(b, now, supply, creatorBps, protocolBps, amount).Ok? ==>
      var (net, values) := (Checked.NetAmount(amount, protocolBps, creatorBps), AccrueShareValues(b, now));
      && amount > 0 && !b.driftTag && b.operational && !b.reduceOnly
      && net.Ok? && net.value > 0 && values.Ok? && values.value.asset > 0
      && var added := Quotient(net.value * ONE48 * ONE48, values.value.asset);
      && 0 < added && BelowLimit(b, b.totalAssetShares + added, values.value.asset)
      && (supply > 0 ==> b.userShares > 0)
      && QuoteDeposit(b, now, supply, creatorBps, protocolBps, amount).value
           == if supply == 0 then net.value else Quotient(added * supply, b.userShares)
  {
    hide AccrueShareValues, DepositAt, DepositLimitCheck, Checked.NetAmount, BelowLimit;
    if QuoteDeposit(b, now, supply, creatorBps, protocolBps, amount).Ok? {
      var net := Checked.NetAmount(amount, protocolBps, creatorBps).value;
      var asset := AccrueShareValues(b, now).value.asset;
      DepositAdds(b, supply, net, Div48(FromNum48(net), asset).value);
      WithinLimit(b, asset, Div48(FromNum48(net), asset).value);
    }
  }

  /** And nothing else is asked: a deposit that meets these is accepted. */
  lemma DepositAccepted(b: Bank, now: int, supply: u64, creatorBps: u16, protocolBps: u16, amount: u64)
    requires amount > 0 && !b.driftTag && b.operational && !b.reduceOnly
    requires Checked.NetAmount(amount, protocolBps, creatorBps).Ok?
    requires AccrueShareValues(b, now).Ok? && AccrueShareValues(b, now).value.asset > 0
    ensures var (net, asset) := (Checked.NetAmount(amount, protocolBps, creatorBps).value,
                                 AccrueShareValues(b, now).value.asset);
      var added := Quotient(net * ONE48 * ONE48, asset);
      && net > 0 && added < FIXED_LIMIT && DepositAt(b, supply, net, added).Ok?
      && (b.depositLimit == 0 || b.depositLimit == U64_MAX || b.totalAssetShares + added < FIXED_LIMIT)
      && BelowLimit(b, b.totalAssetShares + added, asset) ==>
      QuoteDeposit(b, now, supply, creatorBps, protocolBps, amount).Ok?
  {
    hide AccrueShareValues, DepositAt, DepositLimitCheck, Checked.NetAmount, BelowLimit;
    var net, asset := Checked.NetAmount(amount, protocolBps, creatorBps).value, AccrueShareValues(b, now).value.asset;
    var added := Quotient(net * ONE48 * ONE48, asset);
    if added < FIXED_LIMIT {
      LimitAccepts(b, asset, added);
    }
  }

  lemma LimitAccepts(b: Bank, shareValue: fixed48, added: fixed48)
    ensures BelowLimit(b, b.totalAssetShares + added, shareValue)
            && (b.depositLimit == 0 || b.depositLimit == U64_MAX || b.totalAssetShares + added < FIXED_LIMIT) ==>
      DepositLimitCheck(b, shareValue, added).Ok?
  {
    MulMono(0, b.totalAssetShares + added, shareValue);
    if b.depositLimit > 0 && BelowLimit(b, b.totalAssetShares + added, shareValue) && b.depositLimit != U64_MAX {
      DivAtMost((b.totalAssetShares + added) * shareValue, ONE48, b.depositLimit * ONE48 - 1);
    }
  }

  lemma DepositAdds(b: Bank, supply: u64, net: u64, added: fixed48)
    requires DepositAt(b, supply, net, added).Ok?
    ensures added > 0 && (supply > 0 ==> b.userShares > 0)
    ensures DepositAt(b, supply, net, added).value
         == if supply == 0 then net else Quotient(added * supply, b.userShares)
  {
    hide MintFor;
    DepositGuardNeverRejects(b, supply, net, added);
  }

  lemma WithinLimit(b: Bank, shareValue: fixed48, added: fixed48)
    requires DepositLimitCheck(b, shareValue, added).Ok?
    ensures BelowLimit(b, b.totalAssetShares + added, shareValue)
  {
    DivBounds((b.totalAssetShares + added) * shareValue, ONE48);
  }

  lemma QuoteDepositNeverRejectedByGuard(b: Bank, now: int, supply: u64, creatorBps: u16, protocolBps: u16, amount: u64)
    ensures QuoteDeposit(b, now, supply, creatorBps, protocolBps, amount) != Err(ValuePerShareLoss)
  {
    hide AccrueShareValues, DepositAt;
    AccrualFailsArithmetically(b, now);
    var net, values := Checked.NetAmount(amount, protocolBps, creatorBps), AccrueShareValues(b, now);
    if net.Ok? && values.Ok? && values.value.asset != 0 {
      var added := Div48(FromNum48(net.value), values.value.asset);
      if added.Ok? {
        DepositGuardNeverRejects(b, supply, net.value, added.value);
      }
    }
  }

  lemma MintFails(added: fixed48, supply: u64, held: fixed48)
    ensures MintFor(added, supply, held) != Err(ValuePerShareLoss)
  {
  }

  /** Nor a withdrawal, whose payout is two floors and leaves the bank able to cover its liabilities. */
  lemma WithdrawExact(b: Bank, now: int, supply: u64, amount: u64)
    requires QuoteWithdraw(b, now, supply, amount).Ok?
    ensures 0 < amount <= supply && 0 < b.userShares < U128_LIMIT && !b.driftTag && b.operational
    ensures var values := AccrueShareValues(b, now).value;
      var paid := QuoteWithdraw(b, now, supply, amount).value;
      && paid == Quotient(Quotient(amount * b.userShares, supply) * values.asset, ONE48 * ONE48)
      && FromNum48(paid) + Mul48(b.totalLiabilityShares, values.liability).value
           <= Mul48(b.totalAssetShares, values.asset).value
  {
    hide AccrueShareValues;
    var values := AccrueShareValues(b, now).value;
    MulMono(0, amount, b.userShares);
    var shares := Quotient(amount * b.userShares, supply);
    MulMono(0, shares, values.asset);
    DivDiv(shares * values.asset, ONE48, ONE48);
  }

  /** And nothing else is asked: a withdrawal whose sizes fit and that the bank can cover is accepted. */
  lemma WithdrawAccepted(b: Bank, now: int, supply: u64, amount: u64)
    requires 0 < amount <= supply && !b.driftTag && b.operational && 0 < b.userShares < U128_LIMIT
    requires AccrueShareValues(b, now).Ok?
    ensures 0 <= amount * b.userShares
    ensures var (values, shares) := (AccrueShareValues(b, now).value, Quotient(amount * b.userShares, supply));
      && amount * b.userShares < U128_LIMIT && 0 < shares < FIXED_LIMIT && PayFor(b, values, shares).Ok? ==>
      QuoteWithdraw(b, now, supply, amount).Ok?
  {
    hide AccrueShareValues, PayFor;
    MulMono(0, amount, b.userShares);
    WithdrawGuardNeverRejects(b, now, supply, amount);
    var p := amount * b.userShares;
    MulMono(amount, supply, b.userShares);
    DivAtMost(p, supply, b.userShares);
  }

  /** When bank shares are paid out: a whole atom that fits, and the bank still covers its liabilities. */
  lemma PaysExact(b: Bank, values: ShareValues, shares: fixed48)
    ensures 0 <= shares * values.asset
    ensures var (paid, assets, liabilities) := (Quotient(shares * values.asset, ONE48 * ONE48),
                Mul48(b.totalAssetShares, values.asset), Mul48(b.totalLiabilityShares, values.liability));
      && (PayFor(b, values, shares).Ok? <==>
            && shares * values.asset < FIXED_LIMIT * ONE48 && 0 < paid < U64_LIMIT
            && assets.Ok? && liabilities.Ok? && paid * ONE48 + liabilities.value <= assets.value)
      && (PayFor(b, values, shares).Ok? ==> PayFor(b, values, shares).value == paid)
  {
    MulMono(0, shares, values.asset);
    DivDiv(shares * values.asset, ONE48, ONE48);
    DivBounds(shares * values.asset, ONE48);
    if shares * values.asset < FIXED_LIMIT * ONE48 {
      DivAtMost(shares * values.asset, ONE48, FIXED_LIMIT - 1);
    } else {
      DivAtLeast(shares * values.asset, ONE48, FIXED_LIMIT);
    }
  }

  lemma WithdrawGuardNeverRejects(b: Bank, now: int, supply: u64, amount: u64)
    ensures QuoteWithdraw(b, now, supply, amount) != Err(ValuePerShareLoss)
  {
    hide AccrueShareValues;
    AccrualFailsArithmetically(b, now);
    if 0 < amount <= supply && 0 < b.userShares < U128_LIMIT {
      var p := amount * b.userShares;
      MulMono(0, amount, b.userShares);
      MulMono(amount, supply, b.userShares);
      DivBounds(p, supply);
      DivAtLeast(p, supply, 0);
      DivAtMost(p, supply, b.userShares);
      var shares := p / supply;
      BurnPassesGuard(b.userShares, supply, shares, b.userShares - shares, amount, supply - amount);
    }
  }

  lemma AccrualFailsArithmetically(b: Bank, now: int)
    ensures AccrueShareValues(b, now) !in [Err(ValuePerShareLoss), Err(OutOfSync), Err(NoIntermediate)]
  {
    hide CurveFrom;
    var assets := Mul48(b.totalAssetShares, b.assetShareValue);
    var liabilities := Mul48(b.totalLiabilityShares, b.liabilityShareValue);
    if assets.Ok? && liabilities.Ok? && assets.value != 0 {
      var utilization := Div48(liabilities.value, assets.value);
      if utilization.Ok? {
        CurveFailsArithmetically(b.curve.Start(), b.curve.points, b.curve.End(), Min(utilization.value, ONE48));
      }
    }
  }

  lemma {:induction false} CurveFailsArithmetically(prev: Knot, points: seq<RatePoint>, last: Knot, x: fixed48)
    ensures CurveFrom(prev, points, last, x) !in [Err(ValuePerShareLoss), Err(OutOfSync), Err(NoIntermediate)]
    decreases |points|
  {
    hide KnotOf, UtilFromU32;
    if points != [] {
      CurveFailsArithmetically(if points[0].util == 0 then prev else KnotOf(points[0]), points[1..], last, x);
    }
  }
}
