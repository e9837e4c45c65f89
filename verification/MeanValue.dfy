/** The documented mean value property of reported prices, over every interval of a range. */
module MeanValue {
  import opened Arith
  import opened Outcome
  import opened Fixed
  import opened PriceTable

  ghost predicate QuotesAll(quote: Sampler, lb: u64, ub: u64) {
    forall x: u64 :: lb <= x <= ub ==> quote(x).Some?
  }

  ghost function Price(quote: Sampler, lb: u64, ub: u64, x: u64): real {
    PriceAt(Table(Some((lb, ub)), quote), x)
  }

  ghost function Gained(quote: Sampler, a: u64, b: u64): int
    requires quote(a).Some? && quote(b).Some?
  {
    quote(b).value - quote(a).value
  }

  /** The prices at both ends of an interval bracket its chord. */
  ghost predicate Bracketed(quote: Sampler, lb: u64, ub: u64, a: u64, b: u64)
    requires QuotesAll(quote, lb, ub) && lb <= a <= b <= ub
  {
    && Price(quote, lb, ub, b) * (b - a) as real <= Gained(quote, a, b) as real
    && Gained(quote, a, b) as real <= Price(quote, lb, ub, a) * (b - a) as real
  }

  /** The documented mean value property: every interval of the range is bracketed. */
  ghost predicate MeanValueHolds(quote: Sampler, lb: u64, ub: u64)
    requires QuotesAll(quote, lb, ub)
  {
    forall a: u64, b: u64 :: lb <= a < b <= ub ==> Bracketed(quote, lb, ub, a, b)
  }

  ghost predicate StepsBracketed(quote: Sampler, lb: u64, ub: u64)
    requires QuotesAll(quote, lb, ub)
  {
    forall x: u64 :: lb <= x < ub ==> StepBracketed(quote, lb, ub, x)
  }

  ghost predicate StepBracketed(quote: Sampler, lb: u64, ub: u64, x: u64)
    requires QuotesAll(quote, lb, ub) && lb <= x < ub
  {
    Bracketed(quote, lb, ub, x, x + 1)
  }

  lemma BracketStep(pa: real, pm: real, pb: real, gained: int, step: int, k: nat)
    requires pb <= pm <= pa
    requires pm * k as real <= gained as real <= pa * k as real
    requires pb <= step as real <= pm
    ensures pb * (k + 1) as real <= (gained + step) as real <= pa * (k + 1) as real
  {
    assert (k + 1) as real == k as real + 1.0;
    assert pb * k as real <= pm * k as real;
  }

  lemma {:induction false} StepsMakeIntervals(quote: Sampler, lb: u64, ub: u64, a: u64, b: u64)
    requires QuotesAll(quote, lb, ub) && lb <= a < b <= ub && StepsBracketed(quote, lb, ub)
    ensures Bracketed(quote, lb, ub, a, b)
    decreases b
  {
    TableWellShaped(Some((lb, ub)), quote);
    hide Table, WellShaped, PriceAt;
    assert StepBracketed(quote, lb, ub, b - 1);
    if a < b - 1 {
      StepsMakeIntervals(quote, lb, ub, a, b - 1);
      PriceNonIncreasing(Table(Some((lb, ub)), quote), a, b - 1);
      PriceNonIncreasing(Table(Some((lb, ub)), quote), b - 1, b);
      BracketStep(Price(quote, lb, ub, a), Price(quote, lb, ub, b - 1), Price(quote, lb, ub, b),
                  Gained(quote, a, b - 1), Gained(quote, b - 1, b), b - 1 - a);
    }
  }

  /** All intervals are bracketed exactly when all steps of one atom are. */
  lemma MeanValueIffSteps(quote: Sampler, lb: u64, ub: u64)
    requires QuotesAll(quote, lb, ub)
    ensures MeanValueHolds(quote, lb, ub) <==> StepsBracketed(quote, lb, ub)
  {
    if StepsBracketed(quote, lb, ub) {
      forall a: u64, b: u64 | lb <= a < b <= ub
        ensures Bracketed(quote, lb, ub, a, b)
      {
        StepsMakeIntervals(quote, lb, ub, a, b);
      }
    }
  }

  /** The property forces a price that stays the same for one step to be a whole number: that step's gain. */
  lemma KeptPriceIsWhole(quote: Sampler, lb: u64, ub: u64, x: u64)
    requires QuotesAll(quote, lb, ub) && lb <= x < ub && MeanValueHolds(quote, lb, ub)
    requires Price(quote, lb, ub, x) == Price(quote, lb, ub, x + 1)
    ensures Price(quote, lb, ub, x) == Gained(quote, x, x + 1) as real == Price(quote, lb, ub, x).Floor as real
  {
    hide Price;
    assert Bracketed(quote, lb, ub, x, x + 1);
  }

  ghost predicate OnChord(edges: seq<u64>, quote: Sampler, i: nat, x: u64)
    requires Ascending(edges) && i + 1 < |edges| && edges[i] <= x
    requires quote(edges[i]).Some? && quote(edges[i + 1]).Some? && quote(x).Some?
  {
    Gained(quote, edges[i], x) * (edges[i + 1] - edges[i]) == Gained(quote, edges[i], edges[i + 1]) * (x - edges[i])
  }

  /** Inside window `i` the output runs along the window's chord. */
  ghost predicate Straight(edges: seq<u64>, quote: Sampler, i: nat)
    requires Ascending(edges) && i + 1 < |edges|
  {
    && quote(edges[i]).Some? && quote(edges[i + 1]).Some?
    && forall x: u64 :: edges[i] <= x <= edges[i + 1] ==> quote(x).Some? && OnChord(edges, quote, i, x)
  }

  ghost predicate AllStraight(edges: seq<u64>, quote: Sampler)
    requires Ascending(edges)
  {
    forall i :: 0 <= i < |edges| - 1 ==> Straight(edges, quote, i)
  }

  /** Outputs at the edges do not change at all. */
  ghost predicate FlatGrid(edges: seq<u64>, quote: Sampler)
    requires QuotesAllOf(edges, quote)
  {
    forall i :: 0 <= i < |edges| - 1 ==> quote(edges[i]).value == quote(edges[i + 1]).value
  }

  /** Straight pieces between the edges, all flat, or all rising and ever less steep. */
  ghost predicate StraightAndConcave(edges: seq<u64>, quote: Sampler) {
    && Ascending(edges) && |edges| >= 2 && QuotesAllOf(edges, quote) && AllStraight(edges, quote)
    && (FlatGrid(edges, quote) || (RisesThroughout(edges, quote) && Concave(edges, quote)))
  }

  lemma EdgeInRange(edges: seq<u64>, quote: Sampler, lb: u64, ub: u64, i: nat)
    requires lb < ub && edges == EdgesTo(ub, lb) && i < |edges|
    ensures lb <= edges[i] <= ub && (i + 1 < |edges| ==> edges[i] < edges[i + 1])
  {
    EdgesWithin(ub, lb);
    hide EdgesTo;
  }

  lemma EdgesQuote(quote: Sampler, lb: u64, ub: u64)
    requires lb < ub && QuotesAll(quote, lb, ub)
    ensures QuotesAllOf(EdgesTo(ub, lb), quote) && Ascending(EdgesTo(ub, lb))
    ensures forall i :: 0 <= i < |EdgesTo(ub, lb)| ==> lb <= EdgesTo(ub, lb)[i] <= ub
  {
    EdgesWithin(ub, lb);
    hide EdgesTo;
  }

  lemma {:induction false} EdgesWithin(c: u64, lb: u64)
    requires lb < c
    ensures forall i :: 0 <= i < |EdgesTo(c, lb)| ==> lb <= EdgesTo(c, lb)[i] <= c
  {
    var edges := EdgesTo(c, lb);
    forall i | 0 <= i < |edges|
      ensures lb <= edges[i] <= c
    {
      if 0 < i {
        assert edges[0] < edges[i];
      }
      if i < |edges| - 1 {
        assert edges[i] < edges[|edges| - 1];
      }
    }
  }

  /** Both neighbouring edges quote, and the output rises between them. */
  ghost predicate GainsAt(edges: seq<u64>, quote: Sampler, i: nat) {
    && i + 1 < |edges| && quote(edges[i]).Some? && quote(edges[i + 1]).Some?
    && quote(edges[i]).value < quote(edges[i + 1]).value
  }

  /** A part means that some window rises between quoting edges. */
  lemma {:induction false} PartsIffSomeGain(edges: seq<u64>, quote: Sampler)
    requires Ascending(edges)
    ensures Chords(edges, quote) != [] <==> exists i: nat :: GainsAt(edges, quote, i)
  {
    if |edges| >= 2 {
      var rest := edges[1..];
      assert forall k :: 0 <= k < |rest| ==> rest[k] == edges[k + 1];
      PartsIffSomeGain(rest, quote);
      if i: nat :| GainsAt(rest, quote, i) {
        assert GainsAt(edges, quote, i + 1);
      }
      if i: nat :| i > 0 && GainsAt(edges, quote, i) {
        assert GainsAt(rest, quote, i - 1);
      }
      assert Chord(edges[0], edges[1], quote) != [] <==> GainsAt(edges, quote, 0);
    }
  }

  lemma NoPartsIffNoneRises(edges: seq<u64>, quote: Sampler)
    requires Ascending(edges) && QuotesAllOf(edges, quote)
    ensures Chords(edges, quote) == []
       <==> forall i :: 0 <= i < |edges| - 1 ==> quote(edges[i]).value >= quote(edges[i + 1]).value
  {
    PartsIffSomeGain(edges, quote);
    hide Chords;
    if i :| 0 <= i < |edges| - 1 && quote(edges[i]).value < quote(edges[i + 1]).value {
      assert GainsAt(edges, quote, i);
    }
  }

  lemma {:induction false} WindowOf(edges: seq<u64>, x: u64) returns (i: nat)
    requires Ascending(edges) && |edges| >= 2 && edges[0] <= x < edges[|edges| - 1]
    ensures i < |edges| - 1 && edges[i] <= x < edges[i + 1]
    decreases |edges|
  {
    var n := |edges| - 1;
    if edges[n - 1] <= x {
      i := n - 1;
    } else {
      i := WindowOf(edges[..n], x);
    }
  }

  lemma StraightStep(g0: int, g1: int, gain: int, w: nat, k: nat)
    requires w > 0 && g0 * w == gain * k && g1 * w == gain * (k + 1)
    ensures (g1 - g0) * w == gain
  {
  }

  lemma StepIsSlope(step: int, w: nat, gain: int, slope: real)
    requires w > 0 && step * w == gain && slope * w as real == gain as real
    ensures step as real == slope
  {
    assert step as real * w as real == (step * w) as real;
  }

  /** On straight windows a step of one atom gains exactly the window's slope. */
  lemma StepGain(edges: seq<u64>, quote: Sampler, i: nat, x: u64)
    requires Ascending(edges) && i + 1 < |edges| && Straight(edges, quote, i) && edges[i] <= x < edges[i + 1]
    ensures quote(x).Some? && quote(x + 1).Some?
    ensures Gained(quote, x, x + 1) * (edges[i + 1] - edges[i]) == Gained(quote, edges[i], edges[i + 1])
  {
    assert OnChord(edges, quote, i, x) && OnChord(edges, quote, i, x + 1);
    StraightStep(Gained(quote, edges[i], x), Gained(quote, edges[i], x + 1), Gained(quote, edges[i], edges[i + 1]),
                 edges[i + 1] - edges[i], x - edges[i]);
  }

  /** On a concave table nothing is raised. */
  lemma ConcaveKept(parts: seq<Part>, raw: seq<Part>, i: nat)
    requires AreSuffixMaxima(parts, raw) && i < |raw|
    requires forall k, j :: 0 <= k <= j < |raw| ==> raw[k].slope >= raw[j].slope
    ensures parts[i].slope == raw[i].slope
  {
    assert Attained(parts[i].slope, raw, i);
    var j :| i <= j < |raw| && parts[i].slope == raw[j].slope;
    assert parts[i].slope >= raw[i].slope;
  }

  lemma FlatStep(quote: Sampler, lb: u64, ub: u64, x: u64)
    requires lb <= x < ub && QuotesAll(quote, lb, ub) && QuotesAllOf(EdgesTo(ub, lb), quote)
    requires AllStraight(EdgesTo(ub, lb), quote) && FlatGrid(EdgesTo(ub, lb), quote)
    ensures Price(quote, lb, ub, x) == Price(quote, lb, ub, x + 1) == 0.0 && Gained(quote, x, x + 1) == 0
  {
    hide Chords, SuffixMaxima;
    var edges := EdgesTo(ub, lb);
    NoPartsIffNoneRises(edges, quote);
    hide EdgesTo;
    var i := WindowOf(edges, x);
    assert Straight(edges, quote, i);
    StepGain(edges, quote, i, x);
    ZeroStep(Gained(quote, x, x + 1), edges[i + 1] - edges[i]);
  }

  lemma ZeroStep(step: int, w: nat)
    requires w > 0 && step * w == 0
    ensures step == 0
  {
  }

  /** On straight, rising, concave windows a step gains the price at its left end. */
  lemma ConcaveStep(edges: seq<u64>, quote: Sampler, x: u64)
    requires RisesThroughout(edges, quote) && AllStraight(edges, quote) && Concave(edges, quote)
    requires edges[0] <= x < edges[|edges| - 1]
    ensures quote(x).Some? && quote(x + 1).Some?
    ensures Gained(quote, x, x + 1) as real == PriceAt(SuffixMaxima(Chords(edges, quote)), x)
  {
    hide Chords, SuffixMaxima, PriceAt, FlatGrid;
    var i := WindowOf(edges, x);
    assert Straight(edges, quote, i);
    StepGain(edges, quote, i, x);
    PriceInWindow(edges, quote, i, x);
    SuffixMaximaAre(Chords(edges, quote));
    ConcaveKept(SuffixMaxima(Chords(edges, quote)), Chords(edges, quote), i);
    WindowChord(edges, quote, i);
    hide RisesThroughout, AllStraight, Concave, Straight;
    StepIsSlope(Gained(quote, x, x + 1), edges[i + 1] - edges[i], Gained(quote, edges[i], edges[i + 1]),
                Chords(edges, quote)[i].slope);
  }

  lemma StraightBrackets(quote: Sampler, lb: u64, ub: u64, x: u64)
    requires lb <= x < ub && QuotesAll(quote, lb, ub)
    requires StraightAndConcave(EdgesTo(ub, lb), quote)
    ensures StepBracketed(quote, lb, ub, x)
  {
    hide Table, PriceAt, AllStraight, Concave, RisesThroughout, FlatGrid;
    var edges := EdgesTo(ub, lb);
    if FlatGrid(edges, quote) {
      FlatStep(quote, lb, ub, x);
    } else {
      ConcaveStep(edges, quote, x);
      TablePrices(quote, lb, ub, x);
      TableWellShaped(Some((lb, ub)), quote);
      PriceNonIncreasing(Table(Some((lb, ub)), quote), x, x + 1);
    }
  }

  lemma TablePrices(quote: Sampler, lb: u64, ub: u64, x: u64)
    requires lb < ub
    ensures Price(quote, lb, ub, x) == PriceAt(SuffixMaxima(Chords(EdgesTo(ub, lb), quote)), x)
  {
  }

  /** The property at one interval, with everything it reads. */
  lemma BracketedAt(quote: Sampler, lb: u64, ub: u64, a: u64, b: u64)
    requires QuotesAll(quote, lb, ub) && MeanValueHolds(quote, lb, ub) && lb <= a <= b <= ub
    ensures quote(a).Some? && quote(b).Some?
    ensures Price(quote, lb, ub, b) * (b - a) as real <= Gained(quote, a, b) as real
    ensures Gained(quote, a, b) as real <= Price(quote, lb, ub, a) * (b - a) as real
  {
    hide Price;
    if a < b {
      assert Bracketed(quote, lb, ub, a, b);
    }
  }

  /** The slope of part `i` of the table over rising edges. */
  ghost function PartSlope(edges: seq<u64>, quote: Sampler, i: nat): real
    requires RisesThroughout(edges, quote) && i + 1 < |edges|
  {
    PriceInWindow(edges, quote, i, edges[i]);
    SuffixMaxima(Chords(edges, quote))[i].slope
  }

  lemma WindowPrice(edges: seq<u64>, quote: Sampler, lb: u64, ub: u64, i: nat, x: u64)
    requires lb < ub && edges == EdgesTo(ub, lb) && RisesThroughout(edges, quote) && i + 1 < |edges|
    requires edges[i] <= x && (i + 2 < |edges| ==> x < edges[i + 1])
    ensures Price(quote, lb, ub, x) == PartSlope(edges, quote, i)
  {
    TablePrices(quote, lb, ub, x);
    PriceInWindow(edges, quote, i, x);
    hide EdgesTo, Chords, SuffixMaxima, PriceAt, Price;
  }

  /** Over one window the property pins the output to the price of the window. */
  lemma BracketedInside(edges: seq<u64>, quote: Sampler, lb: u64, ub: u64, i: nat, x: u64)
    requires lb < ub && edges == EdgesTo(ub, lb) && QuotesAll(quote, lb, ub) && MeanValueHolds(quote, lb, ub)
    requires RisesThroughout(edges, quote) && i + 1 < |edges| && edges[i] <= x < edges[i + 1]
    ensures quote(x).Some? && quote(edges[i]).Some?
    ensures Gained(quote, edges[i], x) as real == PartSlope(edges, quote, i) * (x - edges[i]) as real
  {
    hide EdgesTo, MeanValueHolds, Price, PartSlope, QuotesAll, RisesThroughout;
    EdgeInRange(edges, quote, lb, ub, i);
    EdgeInRange(edges, quote, lb, ub, i + 1);
    WindowPrice(edges, quote, lb, ub, i, edges[i]);
    WindowPrice(edges, quote, lb, ub, i, x);
    BracketedAt(quote, lb, ub, edges[i], x);
  }

  /** The slope of a part is its own window's, or that of the next part. */
  lemma SlopeHereOrNext(edges: seq<u64>, quote: Sampler, i: nat)
    requires RisesThroughout(edges, quote) && i + 1 < |edges|
    ensures Gain(edges, quote, i) <= PartSlope(edges, quote, i) * Width(edges, i)
    ensures Gain(edges, quote, i) == PartSlope(edges, quote, i) * Width(edges, i)
         || (i + 2 < |edges| && PartSlope(edges, quote, i) == PartSlope(edges, quote, i + 1))
  {
    hide Chords, SuffixMaxima, Gain, Width;
    var raw := Chords(edges, quote);
    WindowChord(edges, quote, i);
    SuffixMaximaAre(raw);
    PriceInWindow(edges, quote, i, edges[i]);
    Ordered(raw[i].slope, PartSlope(edges, quote, i), Width(edges, i));
    if i + 1 < |raw| {
      MaximumIsHereOrNext(SuffixMaxima(raw), raw, i);
    } else {
      assert Attained(SuffixMaxima(raw)[i].slope, raw, i);
    }
  }

  /** So under the property the price of a window is its own chord. */
  lemma RightEdge(edges: seq<u64>, quote: Sampler, lb: u64, ub: u64, i: nat)
    requires lb < ub && edges == EdgesTo(ub, lb) && QuotesAll(quote, lb, ub) && MeanValueHolds(quote, lb, ub)
    requires RisesThroughout(edges, quote) && i + 1 < |edges|
    ensures Gain(edges, quote, i) == PartSlope(edges, quote, i) * Width(edges, i)
  {
    hide EdgesTo, MeanValueHolds, Price, PartSlope, QuotesAll, RisesThroughout;
    SlopeHereOrNext(edges, quote, i);
    if i + 2 < |edges| {
      EdgeInRange(edges, quote, lb, ub, i);
      EdgeInRange(edges, quote, lb, ub, i + 1);
      WindowPrice(edges, quote, lb, ub, i + 1, edges[i + 1]);
      BracketedAt(quote, lb, ub, edges[i], edges[i + 1]);
    }
  }

  lemma MaximumIsHereOrNext(parts: seq<Part>, raw: seq<Part>, i: nat)
    requires AreSuffixMaxima(parts, raw) && i + 1 < |raw|
    ensures parts[i].slope == raw[i].slope || parts[i].slope == parts[i + 1].slope
    ensures parts[i].slope >= raw[i].slope
  {
    assert Attained(parts[i].slope, raw, i);
    var j :| i <= j < |raw| && parts[i].slope == raw[j].slope;
    if i < j {
      assert parts[i + 1].slope >= raw[j].slope && parts[i].slope >= parts[i + 1].slope;
    }
  }

  lemma StraightFrom(g: int, gain: int, k: nat, w: nat, slope: real)
    requires g as real == slope * k as real && gain as real == slope * w as real
    ensures g * w == gain * k
  {
    assert (g * w) as real == g as real * w as real == slope * k as real * w as real;
    assert (gain * k) as real == gain as real * k as real == slope * w as real * k as real;
  }

  lemma InsideOnChord(edges: seq<u64>, quote: Sampler, i: nat, x: u64)
    requires RisesThroughout(edges, quote) && i + 1 < |edges| && edges[i] <= x && quote(x).Some?
    requires Gain(edges, quote, i) == PartSlope(edges, quote, i) * Width(edges, i)
    requires Gained(quote, edges[i], x) as real == PartSlope(edges, quote, i) * (x - edges[i]) as real
    ensures OnChord(edges, quote, i, x)
  {
    hide PartSlope;
    StraightFrom(Gained(quote, edges[i], x), Gained(quote, edges[i], edges[i + 1]), x - edges[i],
                 edges[i + 1] - edges[i], PartSlope(edges, quote, i));
  }

  lemma EndOnChord(edges: seq<u64>, quote: Sampler, i: nat)
    requires Ascending(edges) && i + 1 < |edges| && quote(edges[i]).Some? && quote(edges[i + 1]).Some?
    ensures OnChord(edges, quote, i, edges[i + 1])
  {
  }

  lemma BracketedIsStraight(edges: seq<u64>, quote: Sampler, lb: u64, ub: u64, i: nat)
    requires lb < ub && edges == EdgesTo(ub, lb) && QuotesAll(quote, lb, ub) && MeanValueHolds(quote, lb, ub)
    requires RisesThroughout(edges, quote) && i + 1 < |edges|
    ensures Straight(edges, quote, i)
  {
    hide EdgesTo, MeanValueHolds, PartSlope, OnChord;
    RightEdge(edges, quote, lb, ub, i);
    EdgeInRange(edges, quote, lb, ub, i);
    forall x: u64 | edges[i] <= x <= edges[i + 1]
      ensures quote(x).Some? && OnChord(edges, quote, i, x)
    {
      if x < edges[i + 1] {
        BracketedInside(edges, quote, lb, ub, i, x);
        InsideOnChord(edges, quote, i, x);
      } else {
        EndOnChord(edges, quote, i);
      }
    }
  }

  lemma BracketedIsConcave(edges: seq<u64>, quote: Sampler, lb: u64, ub: u64)
    requires lb < ub && edges == EdgesTo(ub, lb) && QuotesAll(quote, lb, ub) && MeanValueHolds(quote, lb, ub)
    requires RisesThroughout(edges, quote)
    ensures Concave(edges, quote)
  {
    hide EdgesTo, Chords, SuffixMaxima, MeanValueHolds, RisesThroughout;
    var raw := Chords(edges, quote);
    SuffixMaximaAre(raw);
    WindowCount(edges, quote);
    forall i | 0 <= i < |raw|
      ensures SuffixMaxima(raw)[i].slope == raw[i].slope
    {
      OwnSlope(edges, quote, lb, ub, i);
    }
  }

  lemma WindowCount(edges: seq<u64>, quote: Sampler)
    requires RisesThroughout(edges, quote)
    ensures |SuffixMaxima(Chords(edges, quote))| == |Chords(edges, quote)| == |edges| - 1
  {
    PriceInWindow(edges, quote, 0, edges[0]);
  }

  lemma OwnSlope(edges: seq<u64>, quote: Sampler, lb: u64, ub: u64, i: nat)
    requires lb < ub && edges == EdgesTo(ub, lb) && QuotesAll(quote, lb, ub) && MeanValueHolds(quote, lb, ub)
    requires RisesThroughout(edges, quote) && i + 1 < |edges|
    ensures |SuffixMaxima(Chords(edges, quote))| == |Chords(edges, quote)| == |edges| - 1
    ensures SuffixMaxima(Chords(edges, quote))[i].slope == Chords(edges, quote)[i].slope
  {
    hide EdgesTo, Chords, SuffixMaxima, MeanValueHolds, RisesThroughout, Gain, Width;
    RightEdge(edges, quote, lb, ub, i);
    WindowChord(edges, quote, i);
    WindowCount(edges, quote);
    SameSlope(PartSlope(edges, quote, i), Chords(edges, quote)[i].slope, Width(edges, i));
  }

  lemma SameSlope(a: real, b: real, w: real)
    requires w > 0.0 && a * w == b * w
    ensures a == b
  {
  }

  /** With a positive price everywhere the property makes every window rise. */
  lemma BracketedRises(edges: seq<u64>, quote: Sampler, lb: u64, ub: u64)
    requires lb < ub && edges == EdgesTo(ub, lb) && QuotesAll(quote, lb, ub) && MeanValueHolds(quote, lb, ub)
    requires Table(Some((lb, ub)), quote) != []
    ensures RisesThroughout(edges, quote)
  {
    EdgesQuote(quote, lb, ub);
    hide EdgesTo, Table, PriceAt, MeanValueHolds;
    forall i | 0 <= i < |edges| - 1
      ensures quote(edges[i]).value < quote(edges[i + 1]).value
    {
      PricedRise(quote, lb, ub, edges[i], edges[i + 1]);
    }
  }

  lemma PricedRise(quote: Sampler, lb: u64, ub: u64, a: u64, b: u64)
    requires QuotesAll(quote, lb, ub) && MeanValueHolds(quote, lb, ub) && lb <= a < b <= ub
    requires Table(Some((lb, ub)), quote) != []
    ensures quote(a).Some? && quote(b).Some? && quote(a).value < quote(b).value
  {
    hide Price, MeanValueHolds, QuotesAll, Table;
    PricePositive(quote, lb, ub, b);
    BracketedAt(quote, lb, ub, a, b);
    PositiveGain(Price(quote, lb, ub, b), b - a, Gained(quote, a, b));
  }

  lemma PricePositive(quote: Sampler, lb: u64, ub: u64, x: u64)
    requires Table(Some((lb, ub)), quote) != []
    ensures Price(quote, lb, ub, x) > 0.0
  {
    TableWellShaped(Some((lb, ub)), quote);
    hide Table, WellShaped, PriceAt;
    PriceNonIncreasing(Table(Some((lb, ub)), quote), x, x);
  }

  lemma PositiveGain(price: real, w: nat, gain: int)
    requires price > 0.0 && w > 0 && price * w as real <= gain as real
    ensures gain > 0
  {
    assert price * w as real > 0.0;
  }

  /** Without any part the price is zero, and the property makes the output constant. */
  lemma BracketedIsFlat(edges: seq<u64>, quote: Sampler, lb: u64, ub: u64)
    requires lb < ub && edges == EdgesTo(ub, lb) && QuotesAll(quote, lb, ub) && MeanValueHolds(quote, lb, ub)
    requires Table(Some((lb, ub)), quote) == []
    ensures QuotesAllOf(edges, quote) && FlatGrid(edges, quote) && AllStraight(edges, quote)
  {
    EdgesQuote(quote, lb, ub);
    hide EdgesTo, Table, MeanValueHolds, Straight;
    forall i | 0 <= i < |edges| - 1
      ensures Straight(edges, quote, i) && quote(edges[i]).value == quote(edges[i + 1]).value
    {
      FlatWindow(edges, quote, lb, ub, i);
    }
  }

  lemma Unpriced(quote: Sampler, lb: u64, ub: u64, a: u64, b: u64)
    requires QuotesAll(quote, lb, ub) && MeanValueHolds(quote, lb, ub) && lb <= a <= b <= ub
    requires Table(Some((lb, ub)), quote) == []
    ensures quote(a).Some? && quote(b).Some? && Gained(quote, a, b) == 0
  {
    BracketedAt(quote, lb, ub, a, b);
    hide Table, MeanValueHolds;
  }

  lemma FlatWindow(edges: seq<u64>, quote: Sampler, lb: u64, ub: u64, i: nat)
    requires Ascending(edges) && i + 1 < |edges| && lb <= edges[i] < edges[i + 1] <= ub
    requires QuotesAll(quote, lb, ub) && MeanValueHolds(quote, lb, ub) && Table(Some((lb, ub)), quote) == []
    ensures Straight(edges, quote, i) && quote(edges[i]).value == quote(edges[i + 1]).value
  {
    hide Table, MeanValueHolds;
    Unpriced(quote, lb, ub, edges[i], edges[i + 1]);
    forall x: u64 | edges[i] <= x <= edges[i + 1]
      ensures quote(x).Some? && OnChord(edges, quote, i, x)
    {
      Unpriced(quote, lb, ub, edges[i], x);
    }
  }

  /**
   The documented mean value property, over every interval of a range on which all amounts quote. The
   table has it exactly when the output runs straight between the grid edges and is there flat
   throughout, or rising and concave. See StraightIsWhole for how rare straight windows are.
   */
  lemma MeanValueIff(quote: Sampler, lb: u64, ub: u64)
    requires lb < ub && QuotesAll(quote, lb, ub)
    ensures MeanValueHolds(quote, lb, ub) <==> StraightAndConcave(EdgesTo(ub, lb), quote)
  {
    var edges := EdgesTo(ub, lb);
    EdgesQuote(quote, lb, ub);
    hide EdgesTo, Table, Concave, RisesThroughout, AllStraight, FlatGrid;
    if StraightAndConcave(edges, quote) {
      forall x: u64 | lb <= x < ub
        ensures StepBracketed(quote, lb, ub, x)
      {
        StraightBrackets(quote, lb, ub, x);
      }
      MeanValueIffSteps(quote, lb, ub);
    }
    if MeanValueHolds(quote, lb, ub) {
      if Table(Some((lb, ub)), quote) == [] {
        BracketedIsFlat(edges, quote, lb, ub);
      } else {
        BracketedRises(edges, quote, lb, ub);
        BracketedIsConcave(edges, quote, lb, ub);
        AllBracketedStraight(edges, quote, lb, ub);
      }
    }
  }

  lemma AllBracketedStraight(edges: seq<u64>, quote: Sampler, lb: u64, ub: u64)
    requires lb < ub && edges == EdgesTo(ub, lb) && QuotesAll(quote, lb, ub) && MeanValueHolds(quote, lb, ub)
    requires RisesThroughout(edges, quote)
    ensures AllStraight(edges, quote)
  {
    hide EdgesTo, MeanValueHolds, Straight;
    forall i | 0 <= i < |edges| - 1
      ensures Straight(edges, quote, i)
    {
      BracketedIsStraight(edges, quote, lb, ub, i);
    }
  }

  /** A straight window gains a whole number of atoms per atom. */
  lemma StraightIsWhole(edges: seq<u64>, quote: Sampler, i: nat)
    requires Ascending(edges) && i + 1 < |edges| && Straight(edges, quote, i)
    ensures Gained(quote, edges[i], edges[i + 1]) % (edges[i + 1] - edges[i]) == 0
  {
    StepGain(edges, quote, i, edges[i]);
    MultipleOf(Gained(quote, edges[i], edges[i] + 1), edges[i + 1] - edges[i]);
  }

  lemma MultipleOf(q: int, d: nat)
    requires d > 0
    ensures q * d % d == 0
  {
    DivOfMultiple(q, d);
  }

  /** Half an atom out per atom in, rounded down. */
  function Halved(): Sampler {
    (x: u64) => Some(x / 2)
  }

  lemma HalvedTable()
    ensures EdgesTo(8, 2) == [2, 8] && Chords([2, 8], Halved()) == [Part(2, 0.5)]
    ensures Table(Some((2, 8)), Halved()) == [Part(2, 0.5)]
  {
    var edges := [2, 8];
    assert Chord(2, 8, Halved()) == [Part(2, 0.5)] by {
      assert 3 as real / 6 as real == 0.5;
    }
    assert Chords(edges, Halved()) == Chord(2, 8, Halved()) + Chords(edges[1..], Halved());
  }

  /**
   Both halves of the property fail on a grid that rises and is concave: between 2 and 8 the one part
   says 1/2, a step from 3 gains a whole atom and a step from 4 gains nothing.
   */
  lemma HalvedFails()
    ensures EdgesTo(8, 2) == [2, 8] && RisesThroughout([2, 8], Halved()) && Concave([2, 8], Halved())
    ensures Price(Halved(), 2, 8, 3) == Price(Halved(), 2, 8, 5) == 0.5
    ensures Gained(Halved(), 3, 4) as real > Price(Halved(), 2, 8, 3)
    ensures Gained(Halved(), 4, 5) as real < Price(Halved(), 2, 8, 5)
    ensures QuotesAll(Halved(), 2, 8) && !MeanValueHolds(Halved(), 2, 8)
  {
    HalvedTable();
    hide Chords, Table, EdgesTo, SuffixMaxima;
    assert !Bracketed(Halved(), 2, 8, 3, 4);
  }

  /** One atom out per atom in up to 200000, then two. */
  function Kinked(): Sampler {
    (x: u64) => Some(if x <= 200_000 then x else if x <= 400_000 then 2 * x - 200_000 else 0)
  }

  const KINK: seq<u64> := [1, 200_000, 400_000]

  lemma KinkedShape()
    ensures EdgesTo(400_000, 1) == KINK && Ascending(KINK) && RisesThroughout(KINK, Kinked())
    ensures QuotesAll(Kinked(), 1, 400_000) && !FlatGrid(KINK, Kinked())
  {
    assert EdgesTo(200_000, 1) == [1, 200_000];
    hide EdgesTo;
    assert Kinked()(KINK[0]) == Some(1) && Kinked()(KINK[1]) == Some(200_000) && Kinked()(KINK[2]) == Some(600_000);
  }

  lemma KinkedStraight()
    requires Ascending(KINK)
    ensures AllStraight(KINK, Kinked())
  {
    forall x: u64 | 1 <= x <= 200_000
      ensures Kinked()(x).Some? && OnChord(KINK, Kinked(), 0, x)
    {
    }
    forall x: u64 | 200_000 <= x <= 400_000
      ensures Kinked()(x).Some? && OnChord(KINK, Kinked(), 1, x)
    {
    }
    hide OnChord;
    assert Straight(KINK, Kinked(), 0) && Straight(KINK, Kinked(), 1);
  }

  lemma KinkedSlopes()
    requires RisesThroughout(KINK, Kinked())
    ensures |Chords(KINK, Kinked())| == 2
    ensures Chords(KINK, Kinked())[0].slope < Chords(KINK, Kinked())[1].slope
  {
    hide Chords;
    WindowChord(KINK, Kinked(), 0);
    WindowChord(KINK, Kinked(), 1);
    Halving(Chords(KINK, Kinked())[0].slope, Chords(KINK, Kinked())[1].slope);
  }

  lemma Halving(a: real, b: real)
    requires a * 199_999.0 == 199_999.0 && b * 200_000.0 == 400_000.0
    ensures a < b
  {
  }

  /** Straight and rising but convex: the raised price at the kink is above the chord to its left. */
  lemma KinkedFails()
    ensures EdgesTo(400_000, 1) == KINK && RisesThroughout(KINK, Kinked()) && AllStraight(KINK, Kinked())
    ensures !Concave(KINK, Kinked()) && !ChordAbovePrice(KINK, Kinked(), 0)
    ensures QuotesAll(Kinked(), 1, 400_000) && !MeanValueHolds(Kinked(), 1, 400_000)
  {
    KinkedShape();
    KinkedStraight();
    KinkedSlopes();
    hide Chords, ChordAbovePrice, RisesThroughout, AllStraight, QuotesAll, Kinked, MeanValueHolds, FlatGrid, EdgesTo;
    WindowBracket(KINK, Kinked(), 0);
    assert !Concave(KINK, Kinked());
    MeanValueIff(Kinked(), 1, 400_000);
  }

  // ---------------------------------------------------------------- when the price is positive

  lemma {:induction false} NoneRises(edges: seq<u64>, quote: Sampler)
    requires Ascending(edges) && edges != [] && QuotesAllOf(edges, quote)
    requires forall i :: 0 <= i < |edges| - 1 ==> quote(edges[i]).value >= quote(edges[i + 1]).value
    ensures quote(edges[0]).value >= quote(edges[|edges| - 1]).value
  {
    if |edges| > 1 {
      var n := |edges| - 1;
      NoneRises(edges[..n], quote);
    }
  }

  ghost predicate NonDecreasing(quote: Sampler, lb: u64, ub: u64)
    requires QuotesAll(quote, lb, ub)
  {
    forall x: u64, y: u64 :: lb <= x <= y <= ub ==> quote(x).value <= quote(y).value
  }

  /**
   The price is positive for every amount, or for none: it is exactly when two neighbouring grid edges
   quote and the output rises between them. Nothing is asked of the quote.
   */
  lemma PositiveIffSomeGain(quote: Sampler, lb: u64, ub: u64, x: u64)
    requires lb < ub
    ensures Table(Some((lb, ub)), quote) != [] <==> exists i: nat :: GainsAt(EdgesTo(ub, lb), quote, i)
    ensures Price(quote, lb, ub, x) > 0.0 <==> exists i: nat :: GainsAt(EdgesTo(ub, lb), quote, i)
    ensures Price(quote, lb, ub, x) >= 0.0
  {
    PartsIffSomeGain(EdgesTo(ub, lb), quote);
    assert Table(Some((lb, ub)), quote) != [] <==> Chords(EdgesTo(ub, lb), quote) != [];
    PricedOrNot(quote, lb, ub, x);
    hide Price, Table, EdgesTo, Chords;
  }

  lemma PricedOrNot(quote: Sampler, lb: u64, ub: u64, x: u64)
    ensures Price(quote, lb, ub, x) > 0.0 <==> Table(Some((lb, ub)), quote) != []
    ensures Price(quote, lb, ub, x) >= 0.0
  {
    hide Table, PriceAt;
    if Table(Some((lb, ub)), quote) != [] {
      PricePositive(quote, lb, ub, x);
    } else {
      NoPrice(x);
    }
  }

  /** A non-decreasing quote is priced, and then positively, exactly when it gains over its range. */
  lemma PositiveIffGains(quote: Sampler, lb: u64, ub: u64, x: u64)
    requires lb <= ub && QuotesAll(quote, lb, ub) && NonDecreasing(quote, lb, ub)
    ensures Table(Some((lb, ub)), quote) != [] <==> quote(lb).value < quote(ub).value
    ensures Price(quote, lb, ub, x) > 0.0 <==> quote(lb).value < quote(ub).value
  {
    if lb < ub {
      TableGains(quote, lb, ub);
    }
    PricedOrNot(quote, lb, ub, x);
    hide NonDecreasing, PriceAt;
  }

  lemma NoPrice(x: u64)
    ensures PriceAt([], x) == 0.0
  {
  }

  lemma TableGains(quote: Sampler, lb: u64, ub: u64)
    requires lb < ub && QuotesAll(quote, lb, ub) && NonDecreasing(quote, lb, ub)
    ensures Chords(EdgesTo(ub, lb), quote) != [] <==> quote(lb).value < quote(ub).value
  {
    var edges := EdgesTo(ub, lb);
    EdgesQuote(quote, lb, ub);
    PartsIffSomeGain(edges, quote);
    hide EdgesTo, Chords;
    if i: nat :| GainsAt(edges, quote, i) {
      GainOverall(edges, quote, lb, ub, i);
    } else {
      hide NonDecreasing;
      forall i | 0 <= i < |edges| - 1
        ensures quote(edges[i]).value >= quote(edges[i + 1]).value
      {
        assert !GainsAt(edges, quote, i);
      }
      NoneRises(edges, quote);
    }
  }

  lemma GainOverall(edges: seq<u64>, quote: Sampler, lb: u64, ub: u64, i: nat)
    requires lb < ub && edges == EdgesTo(ub, lb) && QuotesAll(quote, lb, ub) && NonDecreasing(quote, lb, ub)
    requires GainsAt(edges, quote, i)
    ensures quote(lb).value < quote(ub).value
  {
    EdgeInRange(edges, quote, lb, ub, i);
    EdgeInRange(edges, quote, lb, ub, i + 1);
    hide EdgesTo;
    assert quote(lb).value <= quote(edges[i]).value && quote(edges[i + 1]).value <= quote(ub).value;
  }
}
