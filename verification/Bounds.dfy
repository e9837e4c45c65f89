/** The search for the range of quotable amounts: exponential probe, then two bisections. */
module Bounds {
  import opened Arith
  import opened Outcome
  import opened Fixed

  datatype QuoteResult =
    QuoteResult(amount: u64, expectedOutput: u64, notEnoughLiquidity: bool, price: real)

  type QuoteFunction = u64 -> Result<QuoteResult>

  /** A quote that routing can use. */
  predicate Usable(f: QuoteFunction, x: u64) {
    f(x).Ok? && !f(x).value.notEnoughLiquidity && f(x).value.expectedOutput != 0
  }

  function Doubled(x: u64): u64 {
    Min(2 * x, U64_MAX)
  }

  /** The last power of two the probe reaches. */
  const TOP: nat := 0x8000_0000_0000_0000

  /** Bisection stops here. */
  const RESOLUTION: nat := 100

  /** Brackets halve exactly down to this width. */
  const GRID: nat := 64

  lemma TopPower()
    ensures Pow(2, 6) == GRID && Pow(2, 63) == TOP
  {
    assert Pow(2, 6) == 64 && Pow(2, 7) == 128 && Pow(2, 8) == 256;
    PowAdds(8, 8);
    PowAdds(16, 16);
    PowAdds(32, 16);
    PowAdds(48, 8);
    PowAdds(56, 7);
  }

  lemma PowersOfTwo(i: nat)
    ensures Pow(2, 6) == GRID && Pow(2, 63) == TOP
    ensures i < 64 ==> 1 <= Pow(2, i) <= TOP
    ensures i > 6 ==> Pow(2, i) == GRID * Pow(2, i - 6)
    ensures i <= 6 ==> Pow(2, i) <= GRID
  {
    hide Pow;
    TopPower();
    if i < 64 {
      PowAdds(i, 63 - i);
      PowPositive(2, i);
      PowPositive(2, 63 - i);
      MulMono(1, Pow(2, 63 - i), Pow(2, i));
    }
    if i > 6 {
      PowAdds(6, i - 6);
    } else {
      PowAdds(i, 6 - i);
      PowPositive(2, i);
      PowPositive(2, 6 - i);
      MulMono(1, Pow(2, 6 - i), Pow(2, i));
    }
  }

  /** The lower end of the probe's bracket that ends at 2^k. */
  function HalfPower(k: nat): nat {
    if k == 0 then 0 else Pow(2, k - 1)
  }

  lemma {:induction false} PowAdds(a: nat, b: nat)
    ensures Pow(2, a + b) == Pow(2, a) * Pow(2, b)
  {
    if a > 0 {
      PowAdds(a - 1, b);
    }
  }

  /** The smallest power of two that quotes, if one below 2^64 does. */
  ghost predicate FirstUsablePower(f: QuoteFunction, k: nat) {
    && k < 64 && Pow(2, k) < U64_LIMIT && Usable(f, Pow(2, k))
    && forall j :: 0 <= j < k ==> Pow(2, j) < U64_LIMIT && !Usable(f, Pow(2, j))
  }

  ghost predicate NoUsablePower(f: QuoteFunction) {
    forall j :: 0 <= j < 64 ==> Pow(2, j) < U64_LIMIT && !Usable(f, Pow(2, j))
  }

  /** Doubling walks through the powers of two and saturates after 2^63. */
  lemma DoublePower(j: nat)
    requires j < 64
    ensures 1 <= Pow(2, j) < U64_MAX
    ensures Pow(2, j) < Doubled(Pow(2, j)) == (if j == 63 then U64_MAX else Pow(2, j + 1))
    ensures j < 63 ==> Pow(2, j + 1) < U64_MAX
  {
    PowersOfTwo(j);
    if j < 63 {
      PowersOfTwo(j + 1);
      assert Pow(2, j + 1) == 2 * Pow(2, j);
    }
  }

  /** Doubles from 1 until a quote is usable; `U64_MAX` means that none was. */
  method FirstUsable(f: QuoteFunction) returns (low: u64, high: u64, ghost k: nat, probes: nat)
    ensures high == U64_MAX ==> NoUsablePower(f) && low == Pow(2, 63)
    ensures high != U64_MAX ==> FirstUsablePower(f, k) && high == Pow(2, k)
                                && low == HalfPower(k)
    ensures probes <= 64 && (high != U64_MAX ==> probes == k + 1)
  {
    hide Pow, Doubled;
    DoublePower(0);
    low, high, k, probes := 0, 1, 0, 1;
    assert Pow(2, 0) == 1 by { PowZero(); }
    while !Usable(f, high)
      invariant k < 64 && high == Pow(2, k) && probes == k + 1 && high != U64_MAX
      invariant low == HalfPower(k)
      invariant forall j :: 0 <= j < k ==> Pow(2, j) < U64_LIMIT && !Usable(f, Pow(2, j))
      decreases 64 - k
    {
      DoublePower(k);
      low := high;
      high := Doubled(high);
      if high <= low || high == U64_MAX {
        high := U64_MAX;
        return;
      }
      k := k + 1;
      probes := probes + 1;
    }
  }

  lemma PowZero()
    ensures Pow(2, 0) == 1
  {
  }

  /** Doubles from a usable amount until a quote is not, or the range ends. */
  method FirstUnusableAbove(f: QuoteFunction, start: u64, ghost k: nat)
    returns (low: u64, high: u64, ghost j: nat, probes: nat)
    requires k < 64 && start == Pow(2, k) && Usable(f, start)
    ensures start <= low <= high && Usable(f, low)
    ensures high == U64_MAX
         || (!Usable(f, high) && high <= TOP && k <= j < 63 && low == Pow(2, j) && high == Pow(2, j + 1))
    ensures high == U64_MAX ==> Usable(f, TOP) && low == (if k == 63 && Usable(f, U64_MAX) then U64_MAX else TOP)
    ensures probes <= 64 - k
  {
    hide Pow, Doubled;
    PowersOfTwo(63);
    DoublePower(k);
    low, high, j, probes := start, Doubled(start), k, 0;
    if high <= low {
      high := low;
      return;
    }
    probes := 1;
    while Usable(f, high)
      invariant start <= low < high == Doubled(low) && Usable(f, low)
      invariant k <= j < 64 && low == Pow(2, j) && probes == j - k + 1 && (j == 63 ==> k == 63)
      decreases 64 - j
    {
      DoublePower(j);
      low := high;
      high := Doubled(high);
      if j < 63 {
        DoublePower(j + 1);
      }
      if high <= low || high == U64_MAX {
        high := U64_MAX;
        return;
      }
      j := j + 1;
      probes := probes + 1;
    }
    DoublePower(j);
    if j < 63 {
      PowersOfTwo(j + 1);
    }
  }

  /**
   The coarse search: brackets of the first usable and of the last usable amount. A lower bracket
   that ends at `U64_MAX` means that no power of two was usable.
   */
  method FindBoundariesCoarse(f: QuoteFunction)
    returns (lowerLow: u64, lowerHigh: u64, upperLow: u64, upperHigh: u64, ghost k: nat, ghost j: nat, probes: nat)
    ensures lowerLow < lowerHigh <= upperLow <= upperHigh && probes <= 65
    ensures lowerHigh == U64_MAX ==> NoUsablePower(f)
    ensures lowerHigh != U64_MAX ==>
      && FirstUsablePower(f, k) && lowerHigh == Pow(2, k) && lowerLow == HalfPower(k)
      && Usable(f, upperLow)
      && ((upperHigh == U64_MAX && Usable(f, TOP)
              && upperLow == if k == 63 && Usable(f, U64_MAX) then U64_MAX else TOP)
          || (!Usable(f, upperHigh) && upperHigh <= TOP && k <= j < 63
              && upperLow == Pow(2, j) && upperHigh == Pow(2, j + 1)))
  {
    hide Pow, Doubled;
    var more: nat;
    lowerLow, lowerHigh, k, probes := FirstUsable(f);
    if lowerHigh == U64_MAX {
      DoublePower(63);
      upperLow, upperHigh, j := U64_MAX, U64_MAX, 0;
      return;
    }
    DoublePower(k);
    if k > 0 {
      DoublePower(k - 1);
    }
    upperLow, upperHigh, j, more := FirstUnusableAbove(f, lowerHigh, k);
    probes := probes + more;
  }

  /** A bracket on multiples of 64 whose width is 64 times a power of two. */
  ghost predicate OnGrid(low: nat, high: nat) {
    low % GRID == 0 && exists m: nat :: high == low + GRID * Pow(2, m)
  }

  lemma GridHalves(low: nat, high: nat)
    requires OnGrid(low, high)
    ensures high % GRID == 0
    ensures high - low > RESOLUTION ==> OnGrid(low, high / 2 + low / 2) && OnGrid(high / 2 + low / 2, high)
    ensures high - low <= RESOLUTION ==> high - low == GRID
  {
    var m: nat :| high == low + GRID * Pow(2, m);
    if m > 0 {
      assert Pow(2, m) == 2 * Pow(2, m - 1);
      PowPositive(2, m - 1);
      hide Pow;
      HalvesOnGrid(low, high, Pow(2, m - 1));
    }
  }

  lemma HalvesOnGrid(low: nat, high: nat, h: nat)
    requires low % GRID == 0 && high == low + GRID * (2 * h) && h > 0
    ensures high / 2 + low / 2 == low + GRID * h == high - GRID * h
    ensures high % GRID == 0 && (low + GRID * h) % GRID == 0 && high - low > RESOLUTION
  {
    var k := low / GRID;
    assert low == GRID * k && high == GRID * (k + 2 * h) && low + GRID * h == GRID * (k + h);
    MultipleHalves(k);
    MultipleHalves(k + h);
    MultipleHalves(k + 2 * h);
  }

  lemma MultipleHalves(k: nat)
    ensures GRID * k % GRID == 0 && GRID * k / 2 == GRID / 2 * k
  {
  }

  /** A bracket of width w needs no more halvings than this leaves room for. */
  ghost predicate Narrowed(width: nat, halvings: nat) {
    (width - 2) * Pow(2, halvings) <= U64_LIMIT
  }

  lemma Narrows(width: nat, narrower: nat, halvings: nat)
    requires Narrowed(width, halvings) && width > RESOLUTION && narrower <= width / 2 + 1
    ensures Narrowed(narrower, halvings + 1) && halvings < 58
  {
    var p := Pow(2, halvings);
    PowPositive(2, halvings);
    assert Pow(2, halvings + 1) == 2 * p;
    MulMono(2 * (narrower - 2), width - 2, p);
    assert (narrower - 2) * (2 * p) == 2 * (narrower - 2) * p;
    MulMono(GRID, width - 2, p);
    if halvings >= 58 {
      PowAdds(58, halvings - 58);
      PowPositive(2, halvings - 58);
      PowersOfTwo(63);
      PowAdds(58, 5);
      assert Pow(2, 5) == 32;
      MulMono(1, Pow(2, halvings - 58), Pow(2, 58));
      MulMono(GRID + 1, width - 2, p);
    }
  }

  lemma StartsNarrowed(low: u64, high: u64)
    requires low <= high
    ensures Narrowed(high - low, 0)
  {
    PowZero();
  }

  /** A halving moves strictly inside, leaves room for one halving less, and stays on the grid. */
  lemma BracketHalves(low: u64, high: u64, halvings: nat)
    requires low <= high && high - low > RESOLUTION && Narrowed(high - low, halvings)
    ensures var mid := high / 2 + low / 2;
      && low < mid < high && halvings < 58
      && Narrowed(mid - low, halvings + 1) && Narrowed(high - mid, halvings + 1)
      && (OnGrid(low, high) ==> OnGrid(low, mid) && OnGrid(mid, high))
  {
    var mid := high / 2 + low / 2;
    Narrows(high - low, mid - low, halvings);
    Narrows(high - low, high - mid, halvings);
    hide Narrowed;
    if OnGrid(low, high) {
      GridHalves(low, high);
    }
  }

  lemma BracketEnds(low: u64, high: u64)
    ensures OnGrid(low, high) && high - low <= RESOLUTION ==> low % GRID == 0 && high == low + GRID
  {
    if OnGrid(low, high) {
      GridHalves(low, high);
    }
  }

  /** Bisects down to the first usable amount, keeping the upper end usable and the lower end not. */
  method RefineLower(f: QuoteFunction, low0: u64, high0: u64) returns (high: u64, ghost low: u64, probes: nat)
    requires low0 <= high0
    ensures low0 <= low <= high <= high0 && high - low <= RESOLUTION && (low0 < high0 ==> low < high)
    ensures (low == low0 || !Usable(f, low)) && (high == high0 || Usable(f, high))
    ensures OnGrid(low0, high0) ==> low % GRID == 0 && high == low + GRID
    ensures high0 - low0 <= RESOLUTION ==> low == low0 && high == high0
    ensures probes <= 60
  {
    hide Pow, OnGrid, Narrowed, Usable;
    high, low, probes := high0, low0, 2;
    var bottom := low0;
    StartsNarrowed(low0, high0);
    while high - bottom > RESOLUTION
      invariant bottom == low && low0 <= low <= high <= high0 && (low0 < high0 ==> low < high)
      invariant (low == low0 || !Usable(f, low)) && (high == high0 || Usable(f, high))
      invariant OnGrid(low0, high0) ==> OnGrid(low, high)
      invariant high0 - low0 <= RESOLUTION ==> low == low0 && high == high0
      invariant 2 <= probes <= 60 && Narrowed(high - low, probes - 2)
      decreases high - bottom
    {
      var mid := high / 2 + bottom / 2;
      BracketHalves(low, high, probes - 2);
      if Usable(f, mid) {
        high := mid;
      } else {
        bottom, low := mid, mid;
      }
      probes := probes + 1;
    }
    BracketEnds(low, high);
  }

  // ---------------------------------------------------------------- between 2^63 and the end of the integers

  /** How far the bisection of the topmost bracket runs below a multiple of 64. */
  ghost function Drift(g: nat): nat {
    if g <= TOP then 0 else if exists i: nat :: g - TOP == Pow(2, i) then 1 else 2
  }

  /** Where that bisection probes. */
  ghost function Mark(g: nat): nat
    requires g >= TOP
  {
    g - Drift(g)
  }

  ghost function MarkOf(q: nat, n: nat): nat {
    PowPositive(2, n);
    MulMono(0, q, Pow(2, n));
    Mark(TOP + q * Pow(2, n))
  }

  /** The topmost bracket, bisected: a power of two wide and that far aligned, but for the drift. */
  ghost predicate OnMarks(low: nat, high: nat, q: nat, n: nat) {
    n >= 6 && (q + 1) * Pow(2, n) <= TOP && low == MarkOf(q, n) && high == MarkOf(q + 1, n)
  }

  ghost predicate MarkAt(low: nat, high: nat, g: nat) {
    TOP <= g <= U64_LIMIT - GRID && g % GRID == 0 && low == Mark(g) && high == Mark(g + GRID)
  }

  /** Neighbouring marks. */
  ghost predicate MarkStep(low: nat, high: nat) {
    exists g: nat :: MarkAt(low, high, g)
  }

  lemma OddMultiple(q: nat, n: nat, i: nat)
    requires q > 0
    ensures (2 * q + 1) * Pow(2, n) != Pow(2, i)
  {
    hide Pow;
    PowPositive(2, n);
    if i <= n {
      PowAdds(i, n - i);
      PowPositive(2, n - i);
      PowPositive(2, i);
      MulMono(1, Pow(2, n - i), Pow(2, i));
      MulMono(3, 2 * q + 1, Pow(2, n));
    } else {
      PowAdds(n, i - n);
      EvenPower(i - n);
      if (2 * q + 1) * Pow(2, n) == Pow(2, i) {
        MulCancel(2 * q + 1, Pow(2, i - n), Pow(2, n));
        MulCancel(Pow(2, i - n), 2 * q + 1, Pow(2, n));
      }
    }
  }

  lemma EvenPower(i: nat)
    requires i > 0
    ensures Pow(2, i) % 2 == 0
  {
    assert Pow(2, i) == 2 * Pow(2, i - 1);
  }

  lemma DriftAt(q: nat, n: nat)
    ensures Drift(TOP + q * Pow(2, n)) <= 2
    ensures q == 0 ==> Drift(TOP + q * Pow(2, n)) == 0
    ensures q == 1 ==> Drift(TOP + q * Pow(2, n)) == 1
    ensures q > 1 ==> Drift(TOP + q * Pow(2, n)) >= 1
    ensures q > 1 && q % 2 == 1 ==> Drift(TOP + q * Pow(2, n)) == 2
  {
    PowPositive(2, n);
    if q > 0 {
      MulMono(1, q, Pow(2, n));
    }
    if q == 1 {
      assert TOP + q * Pow(2, n) - TOP == Pow(2, n);
    }
    if q > 1 && q % 2 == 1 {
      forall i: nat
        ensures q * Pow(2, n) != Pow(2, i)
      {
        OddMultiple(q / 2, n, i);
        assert 2 * (q / 2) + 1 == q;
      }
    }
    hide Pow;
  }

  /** The mark of the `q`th of equal steps, `d` above 2^63. */
  ghost predicate DriftsBy(q: nat, d: nat, mark: nat) {
    var g := TOP + d;
    if q == 0 then mark == g
    else if q == 1 then mark == g - 1
    else g - 2 <= mark <= g - 1 && (q % 2 == 1 ==> mark == g - 2)
  }

  lemma Drifts(q: nat, n: nat)
    ensures 0 <= q * Pow(2, n) && DriftsBy(q, q * Pow(2, n), MarkOf(q, n))
  {
    PowPositive(2, n);
    MulMono(0, q, Pow(2, n));
    DriftAt(q, n);
    hide Drift, Pow;
  }

  lemma MarkDoubles(q: nat, n: nat)
    requires n > 0
    ensures MarkOf(q, n) == MarkOf(2 * q, n - 1)
  {
    assert Pow(2, n) == 2 * Pow(2, n - 1);
    Aligned(q, Pow(2, n - 1));
    hide Drift;
  }

  /** The middle of a bracket drifts by one from the first, and by two from every other. */
  lemma MarkMiddle(q: nat, n: nat)
    requires n > 1
    ensures MarkOf(q + 1, n) / 2 + MarkOf(q, n) / 2 == MarkOf(2 * q + 1, n - 1)
  {
    hide Pow, MarkOf, DriftsBy;
    var h := Pow(2, n - 1);
    Drifts(q, n);
    Drifts(q + 1, n);
    Drifts(2 * q + 1, n - 1);
    TwicePower(n - 1);
    TwicePower(n - 2);
    Aligned(q, h);
    Halfway(q, 2 * q * h, h, MarkOf(q, n), MarkOf(q + 1, n), MarkOf(2 * q + 1, n - 1));
  }

  lemma TwicePower(n: nat)
    ensures Pow(2, n + 1) == 2 * Pow(2, n)
  {
  }

  lemma Halfway(q: nat, d: nat, h: nat, low: nat, high: nat, mid: nat)
    requires DriftsBy(q, d, low) && DriftsBy(q + 1, d + 2 * h, high) && DriftsBy(2 * q + 1, d + h, mid)
    requires d % 2 == 0 && h % 2 == 0
    ensures high / 2 + low / 2 == mid
  {
  }

  lemma MarksHalve(low: nat, high: nat, q: nat, n: nat)
    requires OnMarks(low, high, q, n) && n > 6
    ensures var mid := high / 2 + low / 2; OnMarks(low, mid, 2 * q, n - 1) && OnMarks(mid, high, 2 * q + 1, n - 1)
  {
    assert Pow(2, n) == 2 * Pow(2, n - 1);
    PowPositive(2, n - 1);
    hide MarkOf, Pow;
    MarkDoubles(q, n);
    MarkDoubles(q + 1, n);
    MarkMiddle(q, n);
    Aligned(q, Pow(2, n - 1));
  }

  lemma Aligned(q: nat, h: nat)
    ensures q * (2 * h) == 2 * q * h && (q + 1) * (2 * h) == (2 * q + 1 + 1) * h == 2 * q * h + 2 * h
    ensures (2 * q + 1) * h == 2 * q * h + h && 2 * q * h % 2 == 0 && 2 * q * h >= 0
  {
    assert 2 * q * h == 2 * (q * h);
    MulMono(0, q, h);
  }

  lemma MarksWidth(low: nat, high: nat, q: nat, n: nat)
    requires OnMarks(low, high, q, n)
    ensures high - low <= RESOLUTION <==> n == 6
    ensures n == 6 ==> MarkStep(low, high)
  {
    hide MarkOf, Pow, MarkStep, DriftsBy;
    Drifts(q, n);
    Drifts(q + 1, n);
    if n > 6 {
      WideEnough(n);
    } else {
      TopPower();
      NarrowestStep(low, high, q);
    }
    var w := Pow(2, n);
    assert (q + 1) * w == q * w + w;
    NearWidth(q, q * w, w, low, high);
  }

  lemma NearWidth(q: nat, d: nat, w: nat, low: nat, high: nat)
    requires w >= GRID && DriftsBy(q, d, low) && DriftsBy(q + 1, d + w, high)
    ensures w - 2 <= high - low <= w + 2
  {
  }

  lemma WideEnough(n: nat)
    requires n > 6
    ensures Pow(2, n) >= 2 * GRID
  {
    hide Pow;
    PowersOfTwo(n);
    TwicePower(n - 7);
    PowPositive(2, n - 7);
  }

  lemma NarrowestStep(low: nat, high: nat, q: nat)
    requires OnMarks(low, high, q, 6)
    ensures MarkStep(low, high)
  {
    TopPower();
    hide Pow, Drift;
    DivOfMultiple(q, GRID);
    assert MarkAt(low, high, TOP + q * GRID);
  }

  lemma MarksStep(low: nat, high: nat, q: nat, n: nat)
    ensures OnMarks(low, high, q, n) && high - low > RESOLUTION ==>
      var mid := high / 2 + low / 2;
      n > 0 && OnMarks(low, mid, 2 * q, n - 1) && OnMarks(mid, high, 2 * q + 1, n - 1)
  {
    if OnMarks(low, high, q, n) && high - low > RESOLUTION {
      hide Pow, MarkOf;
      MarksWidth(low, high, q, n);
      MarksHalve(low, high, q, n);
    }
  }

  lemma MarksEnd(low: nat, high: nat, q: nat, n: nat)
    ensures OnMarks(low, high, q, n) && high - low <= RESOLUTION ==> MarkStep(low, high)
  {
    hide Pow, MarkOf;
    if OnMarks(low, high, q, n) {
      MarksWidth(low, high, q, n);
    }
  }

  /** Bisects up to the last usable amount, keeping the lower end usable and the upper end not. */
  method RefineUpper(f: QuoteFunction, low0: u64, high0: u64) returns (low: u64, ghost high: u64, probes: nat)
    requires low0 <= high0
    ensures low0 <= low <= high <= high0 && high - low <= RESOLUTION && (low0 < high0 ==> low < high)
    ensures (low == low0 || Usable(f, low)) && (high == high0 || !Usable(f, high))
    ensures OnGrid(low0, high0) ==> low % GRID == 0 && high == low + GRID
    ensures high0 - low0 <= RESOLUTION ==> low == low0 && high == high0
    ensures low0 == TOP && high0 == U64_MAX ==> MarkStep(low, high)
    ensures probes <= 60
  {
    hide Pow, OnMarks, MarkStep, OnGrid, Narrowed, Usable;
    low, high, probes := low0, high0, 2;
    ghost var q: nat, n: nat := 0, 63;
    TopMarks();
    var top := high0;
    StartsNarrowed(low0, high0);
    while top - low > RESOLUTION
      invariant top == high && low0 <= low <= high <= high0 && (low0 < high0 ==> low < high)
      invariant (low == low0 || Usable(f, low)) && (high == high0 || !Usable(f, high))
      invariant OnGrid(low0, high0) ==> OnGrid(low, high)
      invariant low0 == TOP && high0 == U64_MAX ==> OnMarks(low, high, q, n)
      invariant high0 - low0 <= RESOLUTION ==> low == low0 && high == high0
      invariant 2 <= probes <= 60 && Narrowed(high - low, probes - 2)
      decreases top - low
    {
      var mid := top / 2 + low / 2;
      MarksStep(low, high, q, n);
      BracketHalves(low, high, probes - 2);
      if Usable(f, mid) {
        low, q, n := mid, 2 * q + 1, if n > 0 then n - 1 else 0;
      } else {
        top, high, q, n := mid, mid, 2 * q, if n > 0 then n - 1 else 0;
      }
      probes := probes + 1;
    }
    BracketEnds(low, high);
    MarksEnd(low, high, q, n);
  }

  lemma TopMarks()
    ensures OnMarks(TOP, U64_MAX, 0, 63)
  {
    TopPower();
    assert TOP + TOP - TOP == Pow(2, 63);
    hide Pow;
    assert Drift(TOP + TOP) == 1;
  }

  /** Where the lower bound sits: at most 100 above an unusable amount, and on the grid. */
  ghost predicate LowerEdge(f: QuoteFunction, lb: u64, edge: u64) {
    && edge < lb <= edge + RESOLUTION && !Usable(f, edge)
    && (lb <= GRID ==> exists i :: 0 <= i <= 6 && lb == Pow(2, i) && edge == HalfPower(i))
    && (lb > GRID ==> edge % GRID == 0 && lb == edge + GRID)
  }

  /** Where the upper bound sits, unless the range runs into the end of the integers. */
  ghost predicate UpperEdge(f: QuoteFunction, ub: u64, edge: u64) {
    && ub < edge <= ub + RESOLUTION && !Usable(f, edge)
    && (ub < GRID ==> exists i :: 0 <= i < 6 && ub == Pow(2, i) && edge == Pow(2, i + 1))
    && (ub >= GRID ==> ub % GRID == 0 && edge == ub + GRID)
  }

  lemma GridBrackets(k: nat)
    requires 6 <= k < 64
    ensures OnGrid(Pow(2, k), Pow(2, k + 1))
  {
    PowersOfTwo(k);
    PowersOfTwo(k + 1);
    if k == 6 {
      assert Pow(2, 0) == 1;
      assert Pow(2, 7) == GRID + GRID * Pow(2, 0);
    } else {
      assert Pow(2, k + 1) == 2 * Pow(2, k);
      assert Pow(2, k + 1) == Pow(2, k) + GRID * Pow(2, k - 6);
      assert Pow(2, k) % GRID == 0 by { DivOfMultiple(Pow(2, k - 6), GRID); }
    }
  }

  /** Where the upper bound sits when 2^63 quotes and everything the probe saw above the first power of two. */
  ghost predicate TopEdge(f: QuoteFunction, ub: u64, edge: u64) {
    && Usable(f, TOP)
    && if FirstUsablePower(f, 63) && Usable(f, U64_MAX) then ub == U64_MAX
       else MarkStep(ub, edge) && (edge == U64_MAX || !Usable(f, edge))
  }

  lemma FirstPowerUnique(f: QuoteFunction, k: nat)
    requires FirstUsablePower(f, k)
    ensures FirstUsablePower(f, 63) <==> k == 63
  {
    hide Pow, Usable;
  }

  /**
   The search as a whole, for any quote function that does not quote zero. It fails exactly when no
   power of two below 2^64 quotes, with the one error, and never for a collapsed interval.
   */
  method FindBoundaries(f: QuoteFunction)
    returns (r: Result<(u64, u64)>, ghost below: u64, ghost above: u64, probes: nat)
    requires !Usable(f, 0)
    ensures probes < 200
    ensures r.Err? <==> NoUsablePower(f)
    ensures r.Err? ==> r.error == NoQuotableValue
    ensures r.Ok? ==> r.value.0 <= r.value.1 && Usable(f, r.value.0) && Usable(f, r.value.1)
    ensures r.Ok? ==> LowerEdge(f, r.value.0, below)
    ensures r.Ok? && !Usable(f, TOP) ==> UpperEdge(f, r.value.1, above)
    ensures r.Ok? ==> (UpperEdge(f, r.value.1, above) && above <= TOP) || TopEdge(f, r.value.1, above)
    ensures r.Ok? ==> r.value.1 + RESOLUTION >= U64_MAX
                      || (r.value.1 < above <= r.value.1 + RESOLUTION && !Usable(f, above))
  {
    hide Pow;
    ghost var k, j;
    var lowerLow, lowerHigh, upperLow, upperHigh;
    below, above := 0, 0;
    lowerLow, lowerHigh, upperLow, upperHigh, k, j, probes := FindBoundariesCoarse(f);
    if lowerLow == upperHigh {
      return Err(BoundarySearchFailed), below, above, probes;
    }
    if lowerHigh == U64_MAX {
      return Err(NoQuotableValue), below, above, probes;
    }
    var lower, upper, p, q;
    lower, below, p := RefineLower(f, lowerLow, lowerHigh);
    upper, above, q := RefineUpper(f, upperLow, upperHigh);
    probes := probes + p + q;
    LowerOnGrid(f, k, lower, below);
    if upperHigh != U64_MAX {
      UpperOnGrid(f, j, upper, above);
    } else {
      FirstPowerUnique(f, k);
    }
    return Ok((lower, upper)), below, above, probes;
  }

  lemma LowerOnGrid(f: QuoteFunction, k: nat, high: u64, low: u64)
    requires FirstUsablePower(f, k) && !Usable(f, 0)
    requires var low0 := HalfPower(k);
      && low0 <= low < high <= Pow(2, k) && high - low <= RESOLUTION
      && (low == low0 || !Usable(f, low))
      && (OnGrid(low0, Pow(2, k)) ==> low % GRID == 0 && high == low + GRID)
      && (Pow(2, k) - low0 <= RESOLUTION ==> low == low0 && high == Pow(2, k))
    ensures LowerEdge(f, high, low)
  {
    PowersOfTwo(k);
    if k > 0 {
      PowersOfTwo(k - 1);
    }
    if k <= 6 {
      assert k > 0 ==> Pow(2, k) == 2 * Pow(2, k - 1);
    } else {
      GridBrackets(k - 1);
      PowersOfTwo(k - 1);
    }
  }

  lemma UpperOnGrid(f: QuoteFunction, j: nat, low: u64, high: u64)
    requires j < 63 && Pow(2, j + 1) < U64_LIMIT && !Usable(f, Pow(2, j + 1))
    requires Pow(2, j) <= low < high <= Pow(2, j + 1) && high - low <= RESOLUTION
    requires high == Pow(2, j + 1) || !Usable(f, high)
    requires OnGrid(Pow(2, j), Pow(2, j + 1)) ==> low % GRID == 0 && high == low + GRID
    requires Pow(2, j + 1) - Pow(2, j) <= RESOLUTION ==> low == Pow(2, j) && high == Pow(2, j + 1)
    ensures UpperEdge(f, low, high)
  {
    PowersOfTwo(j);
    assert Pow(2, j + 1) == 2 * Pow(2, j);
    if j >= 6 {
      GridBrackets(j);
    } else {
      PowersOfTwo(j + 1);
    }
  }

  // ---------------------------------------------------------------- when usable amounts form a range

  /** Exactly the amounts from `first` to `last` are usable. */
  ghost predicate UsableRange(f: QuoteFunction, first: u64, last: u64) {
    first <= last && forall x: u64 :: Usable(f, x) <==> first <= x <= last
  }

  /** The least power of two up to 64, or multiple of 64, that is not below `a`. */
  function GridUp(a: nat): nat {
    if a > GRID then CeilDiv(a, GRID) * GRID
    else if a <= 1 then 1 else if a <= 2 then 2 else if a <= 4 then 4
    else if a <= 8 then 8 else if a <= 16 then 16 else if a <= 32 then 32 else 64
  }

  /** The greatest power of two up to 64, or multiple of 64, that is not above `b`. */
  function GridDown(b: nat): nat {
    if b >= GRID then b / GRID * GRID
    else if b >= 32 then 32 else if b >= 16 then 16 else if b >= 8 then 8
    else if b >= 4 then 4 else if b >= 2 then 2 else 1
  }

  lemma SmallPowersOfTwo()
    ensures Pow(2, 0) == 1 && Pow(2, 1) == 2 && Pow(2, 2) == 4 && Pow(2, 3) == 8
    ensures Pow(2, 4) == 16 && Pow(2, 5) == 32 && Pow(2, 6) == 64
  {
    assert Pow(2, 2) == 2 * Pow(2, 1);
    assert Pow(2, 4) == 2 * Pow(2, 3);
    assert Pow(2, 6) == 2 * Pow(2, 5);
  }

  lemma SmallPower(i: nat)
    requires i <= 6
    ensures Pow(2, i) == [1, 2, 4, 8, 16, 32, 64][i]
  {
    SmallPowersOfTwo();
    hide Pow;
    if i == 0 || i == 1 || i == 2 || i == 3 || i == 4 || i == 5 {
    }
  }

  /** A lower edge under a first usable amount is that amount rounded up to the grid. */
  lemma LowerEdgeIsGridUp(f: QuoteFunction, first: u64, last: u64, lb: u64, edge: u64)
    requires UsableRange(f, first, last) && first > 0 && Usable(f, lb) && LowerEdge(f, lb, edge)
    ensures lb == GridUp(first)
  {
    hide Pow;
    assert edge < first <= lb;
    if lb <= GRID {
      var i :| 0 <= i <= 6 && lb == Pow(2, i) && edge == HalfPower(i);
      SmallPower(i);
      if i > 0 {
        SmallPower(i - 1);
      }
    } else {
      CeilBounds(first, GRID);
    }
  }

  lemma UpperEdgeIsGridDown(f: QuoteFunction, first: u64, last: u64, ub: u64, edge: u64)
    requires UsableRange(f, first, last) && Usable(f, ub) && UpperEdge(f, ub, edge)
    ensures ub == GridDown(last)
  {
    hide Pow;
    assert ub <= last < edge;
    if ub < GRID {
      var i :| 0 <= i < 6 && ub == Pow(2, i) && edge == Pow(2, i + 1);
      SmallPower(i);
      SmallPower(i + 1);
    }
  }

  /** The mark of a multiple of 64 that is not above `last`, when the next one is. */
  ghost predicate MarkBelow(ub: nat, last: nat, g: nat) {
    && TOP <= g <= U64_LIMIT - GRID && g % GRID == 0 && ub == Mark(g) <= last
    && (g + GRID == U64_LIMIT || last < Mark(g + GRID))
  }

  /**
   Where the search ends a range: rounded down to the grid below 2^63, at the greatest mark not above it
   from there on. The last integer is seen only by a probe that already starts from 2^63.
   */
  ghost predicate EndsAt(first: nat, last: nat, ub: nat) {
    if last < TOP then ub == GridDown(last)
    else if last == U64_MAX && first > TOP / 2 then ub == U64_MAX
    else exists g: nat :: MarkBelow(ub, last, g)
  }

  lemma MarkNear(g: nat)
    requires g >= TOP
    ensures g - 2 <= Mark(g) <= g
  {
  }

  /** There is one such end. */
  lemma EndsAtOnce(first: nat, last: nat, ub: nat, other: nat)
    requires EndsAt(first, last, ub) && EndsAt(first, last, other)
    ensures ub == other
  {
    hide Mark;
    if last >= TOP && !(last == U64_MAX && first > TOP / 2) {
      var g: nat :| MarkBelow(ub, last, g);
      var h: nat :| MarkBelow(other, last, h);
      MarkNear(g);
      MarkNear(h);
      MarkNear(g + GRID);
      MarkNear(h + GRID);
    }
  }

  lemma OnlyTopPower(f: QuoteFunction, first: u64, last: u64)
    requires UsableRange(f, first, last) && first <= TOP <= last
    ensures FirstUsablePower(f, 63) <==> first > TOP / 2
  {
    hide Pow;
    TopPower();
    TwicePower(62);
    forall j | 0 <= j < 63
      ensures Pow(2, j) <= TOP / 2
    {
      PowAdds(j, 62 - j);
      PowPositive(2, j);
      PowPositive(2, 62 - j);
      MulMono(1, Pow(2, 62 - j), Pow(2, j));
    }
  }

  lemma TopEdgeEnds(f: QuoteFunction, first: u64, last: u64, ub: u64, edge: u64)
    requires UsableRange(f, first, last) && first <= TOP <= last && Usable(f, ub) && TopEdge(f, ub, edge)
    requires ub < edge || ub == U64_MAX
    ensures EndsAt(first, last, ub)
  {
    hide Pow, Mark, FirstUsablePower;
    OnlyTopPower(f, first, last);
    if !(last == U64_MAX && first > TOP / 2) {
      var g: nat :| MarkAt(ub, edge, g);
      MarkNear(g + GRID);
      assert MarkBelow(ub, last, g);
    }
  }

  /**
   A range of usable amounts is found exactly when a power of two lies inside. Its lower bound is its start
   rounded up to the grid and its upper bound is where EndsAt puts it, so the bounds are the documented
   exact ones if and only if both ends of the range already lie there.
   */
  method FindRange(f: QuoteFunction, ghost first: u64, ghost last: u64) returns (r: Result<(u64, u64)>)
    requires UsableRange(f, first, last) && 0 < first
    ensures r.Ok? <==> exists k :: 0 <= k < 64 && first <= Pow(2, k) <= last
    ensures r.Err? ==> r.error == NoQuotableValue
    ensures r.Ok? ==>
      && r.value.0 == GridUp(first) && EndsAt(first, last, r.value.1)
      && r.value.1 <= last <= r.value.1 + RESOLUTION
      && (r.value == (first, last) <==> GridUp(first) == first && EndsAt(first, last, last))
  {
    hide Pow, EndsAt;
    ghost var below, above;
    var probes;
    r, below, above, probes := FindBoundaries(f);
    TopPower();
    if r.Ok? {
      LowerEdgeIsGridUp(f, first, last, r.value.0, below);
      assert !NoUsablePower(f);
      ghost var k :| 0 <= k < 64 && !(Pow(2, k) < U64_LIMIT && !Usable(f, Pow(2, k)));
      PowersOfTwo(k);
      UpperEnds(f, first, last, r.value.1, above);
      if EndsAt(first, last, last) {
        EndsAtOnce(first, last, r.value.1, last);
      }
    } else {
      forall k | 0 <= k < 64
        ensures !(first <= Pow(2, k) <= last)
      {
        assert Pow(2, k) < U64_LIMIT && !Usable(f, Pow(2, k));
      }
    }
  }

  lemma UpperEnds(f: QuoteFunction, first: u64, last: u64, ub: u64, edge: u64)
    requires UsableRange(f, first, last) && first <= TOP && Usable(f, ub)
    requires (UpperEdge(f, ub, edge) && edge <= TOP) || TopEdge(f, ub, edge)
    ensures EndsAt(first, last, ub)
  {
    hide Usable, FirstUsablePower;
    if TopEdge(f, ub, edge) {
      TopEdgeEnds(f, first, last, ub, edge);
    } else {
      UpperEdgeIsGridDown(f, first, last, ub, edge);
    }
  }

  /** A range the search misses: 65 to 127 holds no power of two. */
  method MissedRange(f: QuoteFunction) returns (r: Result<(u64, u64)>)
    requires UsableRange(f, 65, 127)
    ensures r == Err(NoQuotableValue)
  {
    NoPowerBetween();
    r := FindRange(f, 65, 127);
  }

  lemma NoPowerBetween()
    ensures forall k :: 0 <= k < 64 ==> !(65 <= Pow(2, k) <= 127)
  {
    forall k | 0 <= k < 64
      ensures !(65 <= Pow(2, k) <= 127)
    {
      hide Pow;
      SmallPowersOfTwo();
      if k <= 6 {
        PowersOfTwo(k);
      } else {
        PowAdds(7, k - 7);
        PowAdds(6, 1);
        PowPositive(2, k - 7);
        MulMono(1, Pow(2, k - 7), 128);
      }
    }
  }
}
