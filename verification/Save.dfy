/** Quotes over a Save reserve. */
module Save {
  import opened Arith
  import opened Outcome
  import opened Fixed
  import opened Checked
  import opened WrapperShares
  import opened Wad

  const SLOTS_PER_YEAR: nat := 63_072_000

  datatype SaveState = SaveState(
    lastUpdateSlot: u64, available: u64, borrowed: u128, protocolFees: u128, collateralSupply: u64,
    optimalUtilization: u8, maxUtilization: u8, minRate: u8, optimalRate: u8, maxRate: u8,
    superMaxRate: u64, takeRatePct: u8, depositLimit: u64)

  datatype Accrued = Accrued(borrowed: u128, protocolFees: u128)

  function Utilization(s: SaveState): Result<u128> {
    if s.borrowed == 0 then Ok(0)
    else
      var denominator :- FitU128(FromU64(s.available) + s.borrowed);
      WadDiv(s.borrowed, denominator)
  }

  /** The rate a fraction `part / whole` of the way from `low` to `high`. */
  function RateBetween(low: u128, high: u128, part: u128, whole: u128): Result<u128> {
    var normalized :- WadDiv(part, whole);
    var segment :- WadMul(normalized, SatSub(high, low));
    Ok(SatAdd(low, segment))
  }

  /**
   A rate curve in wads: rates at utilization zero, `low`, `high` and one, with `rest` the width of the
   last piece.
   */
  datatype RateCurve = RateCurve(
    low: u128, high: u128, rest: u128, minRate: u128, optimalRate: u128, maxRate: u128, superMaxRate: u128)

  function CurveOf(s: SaveState): RateCurve {
    RateCurve(FromPercent(s.optimalUtilization), FromPercent(s.maxUtilization), FromPercent(SatSub(100, s.maxUtilization)),
              FromPercent(s.minRate), FromPercent(s.optimalRate), FromPercent(s.maxRate), s.superMaxRate * PERCENT)
  }

  function BorrowRate(s: SaveState): Result<u128> {
    var utilization :- Utilization(s);
    RateAt(CurveOf(s), utilization)
  }

  /** Three straight pieces: up to the optimal utilization, to the maximal one, and beyond. */
  function RateAt(c: RateCurve, utilization: u128): Result<u128> {
    if utilization <= c.low then
      if c.low == 0 then Ok(c.minRate) else RateBetween(c.minRate, c.optimalRate, utilization, c.low)
    else if utilization <= c.high then
      if SatSub(c.high, c.low) == 0 then Ok(c.optimalRate)
      else RateBetween(c.optimalRate, c.maxRate, SatSub(utilization, c.low), SatSub(c.high, c.low))
    else if c.rest == 0 then Ok(c.maxRate)
    else RateBetween(c.maxRate, c.superMaxRate, SatSub(utilization, c.high), c.rest)
  }

  function AccrueInterest(s: SaveState, slot: u64): Result<Accrued> {
    var elapsed := SatSub(slot, s.lastUpdateSlot);
    if elapsed == 0 || s.borrowed == 0 then Ok(Accrued(s.borrowed, s.protocolFees))
    else
      var rate :- BorrowRate(s);
      var compounded :- WadPow(SatAdd(WAD, DivInt(rate, SLOTS_PER_YEAR)), elapsed);
      var newBorrowed :- WadMul(s.borrowed, compounded);
      var share :- WadMul(SatSub(newBorrowed, s.borrowed), FromPercent(s.takeRatePct));
      Ok(Accrued(newBorrowed, SatAdd(s.protocolFees, share)))
  }

  function TotalSupply(s: SaveState, a: Accrued): Result<u128> {
    var gross :- FitU128(FromU64(s.available) + a.borrowed);
    Sub(gross, a.protocolFees)
  }

  /** A reserve brought up to date in place. */
  class LiveReserve {
    var state: SaveState

    constructor (s: SaveState)
      ensures state == s
    {
      state := s;
    }

    method PreAccrue(slot: u64) returns (r: Result<()>)
      modifies this
      ensures r.Ok? <==> AccrueInterest(old(state), slot).Ok?
      ensures r.Ok? ==> var a := AccrueInterest(old(state), slot).value;
        state == old(state).(borrowed := a.borrowed, protocolFees := a.protocolFees, lastUpdateSlot := slot)
      ensures r.Err? ==> state == old(state)
    {
      var accrued := AccrueInterest(state, slot);
      if accrued.Err? {
        return Err(accrued.error);
      }
      state := state.(borrowed := accrued.value.borrowed);
      state := state.(protocolFees := accrued.value.protocolFees);
      state := state.(lastUpdateSlot := slot);
      return Ok(());
    }
  }

  /** Collateral per liquidity, one to one on an empty side. */
  function ExchangeRate(collateralSupply: u64, totalSupply: u128): Result<u128> {
    if totalSupply == 0 || collateralSupply == 0 then Ok(WAD)
    else WadDiv(FromU64(collateralSupply), totalSupply)
  }

  function LiquidityToCollateral(liquidity: u64, rate: u128): Result<u64> {
    var product :- WadMul(FromU64(liquidity), rate);
    Ok(ToFloorU64(product))
  }

  function CollateralToLiquidity(collateral: u64, rate: u128): Result<u64> {
    var quotient :- WadDiv(FromU64(collateral), rate);
    Ok(ToFloorU64(quotient))
  }

  function CurrentRate(s: SaveState, slot: u64): Result<u128> {
    var accrued :- AccrueInterest(s, slot);
    var total :- TotalSupply(s, accrued);
    ExchangeRate(s.collateralSupply, total)
  }

  datatype DepositPlan = DepositPlan(net: u64, collateral: u64, minted: u64)

  function PlanDeposit(s: SaveState, slot: u64, v: Vault, protocolFeeBps: u16, amount: u64): Result<DepositPlan> {
    var _ :- Require(amount != 0, ZeroAmount);
    var accrued :- AccrueInterest(s, slot);
    var total :- TotalSupply(s, accrued);
    var rate :- ExchangeRate(s.collateralSupply, total);
    var net :- Checked.NetAmount(amount, protocolFeeBps, v.creatorFeeBps);
    var _ :- Require(net != 0, NetZero);
    var post :- FitU128(FromU64(net) + total);
    var _ :- Require(ToFloorU64(post) <= s.depositLimit, DepositLimit);
    PlanDepositAt(rate, v, net)
  }

  function PlanDepositAt(rate: u128, v: Vault, net: u64): Result<DepositPlan> {
    var collateral :- LiquidityToCollateral(net, rate);
    var _ :- Require(collateral != 0, CollateralZero);
    var minted :- SharesFor(collateral, v, net);
    var _ :- Require(minted != 0, MintZero);
    var newHeld :- FitU128(v.held + collateral);
    var newSupply :- FitU64(v.supply + minted);
    var _ :- RequireNoValuePerShareLoss(v.held, v.supply, newHeld, newSupply);
    Ok(DepositPlan(net, collateral, minted))
  }

  function QuoteDeposit(s: SaveState, slot: u64, v: Vault, protocolFeeBps: u16, amount: u64): Result<u64> {
    var plan :- PlanDeposit(s, slot, v, protocolFeeBps, amount);
    Ok(plan.minted)
  }

  function QuoteWithdraw(s: SaveState, slot: u64, v: Vault, amount: u64): Result<u64> {
    var _ :- Require(amount != 0, ZeroAmount);
    var _ :- Require(amount <= v.supply, BurnExceedsSupply);
    var _ :- Require(v.held != 0, NoIntermediate);
    var rate :- CurrentRate(s, slot);
    var paid :- WithdrawAt(rate, v, amount);
    var _ :- Require(paid <= s.available, InsufficientLiquidity);
    var _ :- WithdrawGuard(v, amount);
    Ok(paid)
  }

  /** What `amount` wrapper shares redeem for at an exchange rate. */
  function WithdrawAt(rate: u128, v: Vault, amount: u64): Result<u64> {
    var collateral :- TokensFor(amount, v);
    var _ :- Require(collateral != 0, RedeemZero);
    var liquidity :- CollateralToLiquidity(collateral, rate);
    var _ :- Require(liquidity != 0, UnderlyingZero);
    Ok(liquidity)
  }

  function WithdrawGuard(v: Vault, amount: u64): Result<()> {
    var collateral :- TokensFor(amount, v);
    var newHeld: u128 :- Sub(v.held, collateral);
    var newSupply: u64 :- Sub(v.supply, amount);
    RequireNoValuePerShareLoss(v.held, v.supply, newHeld, newSupply)
  }

  // ---------------------------------------------------------------- the borrow rate

  /** The part of a rising piece that has been climbed stays inside the piece and never falls. */
  lemma RateBetweenMono(low: u128, high: u128, part: u128, more: u128, whole: u128)
    requires low <= high && part <= more <= whole && whole > 0
    ensures RateBetween(low, high, part, whole).Ok? && RateBetween(low, high, more, whole).Ok?
    ensures low <= RateBetween(low, high, part, whole).value <= RateBetween(low, high, more, whole).value <= high
  {
    QuotientMono(part * WAD, more * WAD, whole);
    QuotientMono(more * WAD, whole * WAD, whole);
    assert whole * WAD == WAD * whole;
    DivOfMultiple(WAD, whole);
    var p, q := Quotient(part * WAD, whole), Quotient(more * WAD, whole);
    MulMono(p, q, high - low);
    QuotientMono(p * (high - low), q * (high - low), WAD);
    MulMono(q, WAD, high - low);
    QuotientMono(q * (high - low), WAD * (high - low), WAD);
    assert WAD * (high - low) == (high - low) * WAD;
    DivOfMultiple(high - low, WAD);
  }

  lemma UtilizationAtMostOne(s: SaveState)
    ensures Utilization(s).Ok? ==> Utilization(s).value <= WAD
  {
    if Utilization(s).Ok? && s.borrowed > 0 {
      var whole := FromU64(s.available) + s.borrowed;
      assert s.borrowed * WAD <= whole * WAD;
      QuotientMono(s.borrowed * WAD, WAD * whole, whole);
      DivOfMultiple(WAD, whole);
    }
  }

  /** Rates that rise from piece to piece over utilizations that do. */
  ghost predicate Rising(c: RateCurve) {
    && c.low <= c.high && (c.high < WAD ==> c.rest == WAD - c.high)
    && c.minRate <= c.optimalRate <= c.maxRate <= c.superMaxRate
  }

  lemma RisingCurve(s: SaveState)
    requires s.optimalUtilization <= s.maxUtilization
    requires s.minRate <= s.optimalRate <= s.maxRate <= s.superMaxRate
    ensures Rising(CurveOf(s))
  {
  }

  /** Every piece stays between its two rates. */
  lemma RateWithinPiece(c: RateCurve, u: u128)
    requires Rising(c) && u <= WAD
    ensures RateAt(c, u).Ok?
    ensures u <= c.low ==> c.minRate <= RateAt(c, u).value <= c.optimalRate
    ensures c.low < u <= c.high ==> c.optimalRate <= RateAt(c, u).value <= c.maxRate
    ensures c.high < u ==> c.maxRate <= RateAt(c, u).value <= c.superMaxRate
  {
    hide RateBetween;
    if u <= c.low {
      if 0 < c.low {
        RateBetweenMono(c.minRate, c.optimalRate, u, u, c.low);
      }
    } else if u <= c.high {
      RateBetweenMono(c.optimalRate, c.maxRate, u - c.low, u - c.low, c.high - c.low);
    } else {
      RateBetweenMono(c.maxRate, c.superMaxRate, u - c.high, u - c.high, c.rest);
    }
  }

  /** On a rising curve the rate never falls with utilization, across all three pieces. */
  lemma RateMonotone(c: RateCurve, u: u128, v: u128)
    requires Rising(c) && u <= v <= WAD
    ensures RateAt(c, u).Ok? && RateAt(c, v).Ok?
    ensures c.minRate <= RateAt(c, u).value <= RateAt(c, v).value <= c.superMaxRate
  {
    hide RateBetween;
    RateWithinPiece(c, u);
    RateWithinPiece(c, v);
    if v <= c.low {
      if 0 < c.low {
        RateBetweenMono(c.minRate, c.optimalRate, u, v, c.low);
      }
    } else if c.low < u && v <= c.high {
      RateBetweenMono(c.optimalRate, c.maxRate, u - c.low, v - c.low, c.high - c.low);
    } else if c.high < u {
      RateBetweenMono(c.maxRate, c.superMaxRate, u - c.high, v - c.high, c.rest);
    }
  }

  /** Utilization is the floored part of debt in all that the reserve counts on. */
  lemma UtilizationExact(s: SaveState)
    ensures s.borrowed == 0 ==> Utilization(s) == Ok(0)
    ensures Utilization(s).Ok? && s.borrowed > 0 ==>
      var (u, all) := (Utilization(s).value, FromU64(s.available) + s.borrowed);
      u * all <= s.borrowed * WAD < (u + 1) * all
  {
    if s.borrowed > 0 {
      DivBounds(s.borrowed * WAD, FromU64(s.available) + s.borrowed);
    }
  }

  /** A rate on the straight piece from `low` to `high`, `part` of `whole` along, but for roundings. */
  ghost predicate OnPiece(low: u128, high: u128, part: nat, whole: nat, rate: u128) {
    low <= rate && low <= high && StraightPart(WAD, high - low, part, whole, rate - low)
  }

  lemma RateBetweenOnPiece(low: u128, high: u128, part: u128, whole: u128)
    requires low <= high && part <= whole && whole > 0
    ensures RateBetween(low, high, part, whole).Ok?
    ensures OnPiece(low, high, part, whole, RateBetween(low, high, part, whole).value)
  {
    RateBetweenMono(low, high, part, part, whole);
    hide RateBetween;
    TwoFloors(WAD, high - low, part, whole);
    var climbed := Quotient(Quotient(part * WAD, whole) * (high - low), WAD);
    MulMono(part, whole, high - low);
    MulCancel(climbed, high - low, whole);
    hide StraightPart;
    RateBetweenIs(low, high, part, whole);
  }

  lemma RateBetweenIs(low: u128, high: u128, part: u128, whole: u128)
    requires low <= high && whole > 0 && RateBetween(low, high, part, whole).Ok?
    requires low + Quotient(Quotient(part * WAD, whole) * (high - low), WAD) <= high
    ensures RateBetween(low, high, part, whole).value
         == low + Quotient(Quotient(part * WAD, whole) * (high - low), WAD)
  {
  }

  /** A rising curve is three straight pieces: which one a utilization is on, and where on it. */
  lemma RateOnPiece(c: RateCurve, u: u128)
    requires Rising(c) && u <= WAD
    ensures RateAt(c, u).Ok?
    ensures u <= c.low == 0 ==> RateAt(c, u).value == c.minRate
    ensures u <= c.low && c.low > 0 ==> OnPiece(c.minRate, c.optimalRate, u, c.low, RateAt(c, u).value)
    ensures c.low < u <= c.high ==>
      OnPiece(c.optimalRate, c.maxRate, u - c.low, c.high - c.low, RateAt(c, u).value)
    ensures c.high < u ==> OnPiece(c.maxRate, c.superMaxRate, u - c.high, WAD - c.high, RateAt(c, u).value)
  {
    hide RateBetween, OnPiece;
    if u <= c.low {
      if c.low > 0 {
        RateBetweenOnPiece(c.minRate, c.optimalRate, u, c.low);
      }
    } else if u <= c.high {
      RateBetweenOnPiece(c.optimalRate, c.maxRate, u - c.low, c.high - c.low);
    } else {
      RateBetweenOnPiece(c.maxRate, c.superMaxRate, u - c.high, c.rest);
    }
  }

  /** So a reserve charges by its own percentages. */
  lemma BorrowRateOnPiece(s: SaveState)
    requires s.optimalUtilization <= s.maxUtilization <= 100
    requires s.minRate <= s.optimalRate <= s.maxRate <= s.superMaxRate
    requires Utilization(s).Ok?
    ensures BorrowRate(s).Ok?
    ensures var (u, rate) := (Utilization(s).value, BorrowRate(s).value);
      var (optimal, full) := (s.optimalUtilization * PERCENT, s.maxUtilization * PERCENT);
      if u <= optimal then
        if optimal == 0 then rate == s.minRate * PERCENT
        else OnPiece(s.minRate * PERCENT, s.optimalRate * PERCENT, u, optimal, rate)
      else if u <= full then
        OnPiece(s.optimalRate * PERCENT, s.maxRate * PERCENT, u - optimal, full - optimal, rate)
      else OnPiece(s.maxRate * PERCENT, s.superMaxRate * PERCENT, u - full, WAD - full, rate)
  {
    UtilizationAtMostOne(s);
    RisingCurve(s);
    hide RateAt, Utilization, OnPiece;
    RateOnPiece(CurveOf(s), Utilization(s).value);
  }

  /**
   A reserve whose configuration rises charges between its lowest and its highest rate, and a reserve
   that is used more never charges less.
   */
  lemma BorrowRateMonotone(s: SaveState, t: SaveState)
    requires s.optimalUtilization <= s.maxUtilization
    requires s.minRate <= s.optimalRate <= s.maxRate <= s.superMaxRate
    requires t == s.(available := t.available, borrowed := t.borrowed)
    requires Utilization(s).Ok? && Utilization(t).Ok? && Utilization(s).value <= Utilization(t).value
    ensures BorrowRate(s).Ok? && BorrowRate(t).Ok?
    ensures FromPercent(s.minRate) <= BorrowRate(s).value <= BorrowRate(t).value <= s.superMaxRate * PERCENT
  {
    UtilizationAtMostOne(t);
    RisingCurve(s);
    hide RateAt, Utilization;
    RateMonotone(CurveOf(s), Utilization(s).value, Utilization(t).value);
  }

  // ---------------------------------------------------------------- accrual

  lemma GrowthFits(s: SaveState, slot: u64)
    requires AccrueInterest(s, slot).Ok? && slot > s.lastUpdateSlot && s.borrowed > 0
    ensures var growth := WadPow(SatAdd(WAD, DivInt(BorrowRate(s).value, SLOTS_PER_YEAR)), slot - s.lastUpdateSlot).value;
      && growth >= WAD
      && AccrueInterest(s, slot).value.borrowed == WadMul(s.borrowed, growth).value >= s.borrowed
  {
    hide BorrowRate, WadPow;
    var base := SatAdd(WAD, DivInt(BorrowRate(s).value, SLOTS_PER_YEAR));
    WadPowAtLeastSimple(base, slot - s.lastUpdateSlot);
    var growth := WadPow(base, slot - s.lastUpdateSlot).value;
    MulMono(0, slot - s.lastUpdateSlot, base - WAD);
    MulMono(WAD, growth, s.borrowed);
    DivAtLeast(s.borrowed * growth, WAD, s.borrowed);
  }

  /** `grown` lies between simple interest on `debt` and its exact compounding, `b` per period over `n` periods. */
  ghost predicate Compounded(debt: nat, grown: nat, b: nat, n: nat) {
    debt * (WAD + n * b) < (grown + 1) * WAD && grown * Pow(WAD, n) <= debt * Pow(WAD + b, n)
  }

  /** And it is short of exact compounding only by an atom and a last digit in every factor. */
  ghost predicate NearlyCompounded(debt: nat, grown: nat, b: nat, n: nat) {
    debt * Pow(WAD + b, n) <= (grown + 1) * Pow(WAD_UP, n)
  }

  lemma GrownNear(debt: nat, growth: nat, grown: nat, b: nat, n: nat)
    requires grown == Quotient(debt * growth, WAD) && WAD * Pow(WAD + b, n) <= growth * Pow(WAD_UP, n)
    ensures NearlyCompounded(debt, grown, b, n)
  {
    hide Pow;
    DivBounds(debt * growth, WAD);
    PowPositive(WAD_UP, n);
    GrownShort(WAD, debt, growth, grown, Pow(WAD + b, n), Pow(WAD_UP, n));
  }

  lemma GrownBetween(debt: nat, growth: nat, grown: nat, b: nat, n: nat)
    requires grown == Quotient(debt * growth, WAD)
    requires WAD + n * b <= growth && growth * Pow(WAD, n) <= WAD * Pow(WAD + b, n)
    ensures Compounded(debt, grown, b, n)
  {
    hide Pow;
    var simple, p, q := WAD + n * b, Pow(WAD, n), Pow(WAD + b, n);
    DivBounds(debt * growth, WAD);
    MulMono(simple, growth, debt);
    MulMono(grown * WAD, debt * growth, p);
    MulMono(growth * p, WAD * q, debt);
    assert debt * growth * p == debt * (growth * p);
    assert debt * (WAD * q) == debt * q * WAD;
    assert grown * WAD * p == grown * p * WAD;
    MulCancel(grown * p, debt * q, WAD);
  }

  /** Debt compounds at the slot's rate: at least simple interest, at most exact compounding and hardly less. */
  lemma DebtCompounds(s: SaveState, slot: u64)
    requires slot > s.lastUpdateSlot && s.borrowed > 0
    ensures AccrueInterest(s, slot).Ok? ==>
      && BorrowRate(s).Ok?
      && var base := SatAdd(WAD, DivInt(BorrowRate(s).value, SLOTS_PER_YEAR));
      && base >= WAD
      && Compounded(s.borrowed, AccrueInterest(s, slot).value.borrowed, base - WAD, slot - s.lastUpdateSlot)
      && NearlyCompounded(s.borrowed, AccrueInterest(s, slot).value.borrowed, base - WAD, slot - s.lastUpdateSlot)
  {
    hide BorrowRate, WadPow, Compounded, NearlyCompounded, Pow;
    if AccrueInterest(s, slot).Ok? {
      var base := SatAdd(WAD, DivInt(BorrowRate(s).value, SLOTS_PER_YEAR));
      var n := slot - s.lastUpdateSlot;
      WadPowAtLeastSimple(base, n);
      WadPowAtMostExact(base, n);
      WadPowNearExact(base, n);
      GrownBetween(s.borrowed, WadPow(base, n).value, AccrueInterest(s, slot).value.borrowed, base - WAD, n);
      GrownNear(s.borrowed, WadPow(base, n).value, AccrueInterest(s, slot).value.borrowed, base - WAD, n);
    }
  }

  ghost predicate FeeTaken(s: SaveState, a: Accrued) {
    && a.borrowed >= s.borrowed
    && a.protocolFees == Min(s.protocolFees + (a.borrowed - s.borrowed) * s.takeRatePct / 100, U128_LIMIT - 1)
  }

  /** Of new interest the protocol takes its percentage, rounded down; only the 128-bit total saturates. */
  lemma FeesTakeTheirRate(s: SaveState, slot: u64)
    requires AccrueInterest(s, slot).Ok?
    ensures FeeTaken(s, AccrueInterest(s, slot).value)
  {
    hide WadPow, BorrowRate;
    if slot > s.lastUpdateSlot && s.borrowed > 0 {
      GrowthFits(s, slot);
      var interest := AccrueInterest(s, slot).value.borrowed - s.borrowed;
      MulMono(0, interest, s.takeRatePct);
      assert interest * (s.takeRatePct * PERCENT) == interest * s.takeRatePct * PERCENT;
      DivCancel(interest * s.takeRatePct, 100, PERCENT);
    }
  }

  /** A Save reserve's debt and fees never fall as slots pass. */
  lemma DebtMonotoneInTime(s: SaveState, early: u64, late: u64)
    requires early <= late && AccrueInterest(s, late).Ok?
    ensures AccrueInterest(s, early).Ok?
    ensures var (a, b) := (AccrueInterest(s, early).value, AccrueInterest(s, late).value);
      s.borrowed <= a.borrowed <= b.borrowed && s.protocolFees <= a.protocolFees <= b.protocolFees
  {
    if late > s.lastUpdateSlot && s.borrowed > 0 {
      GrowthFits(s, late);
      if early > s.lastUpdateSlot {
        LaterGrowsMore(s, early, late);
        GrowthFits(s, early);
      }
    }
  }

  lemma LaterGrowsMore(s: SaveState, early: u64, late: u64)
    requires s.lastUpdateSlot < early <= late && s.borrowed > 0 && AccrueInterest(s, late).Ok?
    ensures AccrueInterest(s, early).Ok?
    ensures AccrueInterest(s, early).value.borrowed <= AccrueInterest(s, late).value.borrowed
    ensures AccrueInterest(s, early).value.protocolFees <= AccrueInterest(s, late).value.protocolFees
  {
    hide BorrowRate, WadPow, WadMul;
    var base := SatAdd(WAD, DivInt(BorrowRate(s).value, SLOTS_PER_YEAR));
    var m, n := early - s.lastUpdateSlot, late - s.lastUpdateSlot;
    WadPowMonotoneInExponent(base, m, n);
    WadMulMono(s.borrowed, WadPow(base, m).value, s.borrowed, WadPow(base, n).value);
    var x, y := WadMul(s.borrowed, WadPow(base, m).value).value, WadMul(s.borrowed, WadPow(base, n).value).value;
    WadMulMono(SatSub(x, s.borrowed), FromPercent(s.takeRatePct), SatSub(y, s.borrowed), FromPercent(s.takeRatePct));
  }

  /** At take rates up to 100% accrual never lowers the reserve's supply. */
  lemma SupplyNeverFalls(s: SaveState, slot: u64, before: u128)
    requires AccrueInterest(s, slot).Ok? && s.takeRatePct <= 100
    requires TotalSupply(s, Accrued(s.borrowed, s.protocolFees)) == Ok(before)
    ensures var a := AccrueInterest(s, slot).value;
      FromU64(s.available) + a.borrowed - a.protocolFees >= before
  {
    hide WadPow, BorrowRate;
    if slot > s.lastUpdateSlot && s.borrowed > 0 {
      GrowthFits(s, slot);
      var grown := AccrueInterest(s, slot).value.borrowed - s.borrowed;
      MulMono(FromPercent(s.takeRatePct), WAD, grown);
      DivAtMost(grown * FromPercent(s.takeRatePct), WAD, grown);
    }
  }

  // ---------------------------------------------------------------- the exchange rate

  /** The exchange rate is the floored ratio of collateral to supply, one to one on an empty side. */
  lemma ExchangeRateExact(cs: u64, ts: u128)
    ensures cs == 0 || ts == 0 ==> ExchangeRate(cs, ts) == Ok(WAD)
    ensures cs > 0 && ts > 0 && ExchangeRate(cs, ts).Ok? ==>
      var rate := ExchangeRate(cs, ts).value;
      rate * ts <= cs * WAD * WAD < (rate + 1) * ts
  {
    if cs > 0 && ts > 0 {
      DivBounds(cs * WAD * WAD, ts);
    }
  }

  /** Collateral for liquidity at a rate: one floor, cut to 64 bits. */
  lemma LiquidityToCollateralExact(liquidity: u64, rate: u128)
    ensures 0 <= liquidity * rate
    ensures LiquidityToCollateral(liquidity, rate) ==
      if liquidity * rate < U128_LIMIT then Ok(Quotient(liquidity * rate, WAD) % U64_LIMIT) else Err(Overflow)
  {
    MulMono(0, liquidity, rate);
    assert liquidity * WAD * rate == liquidity * rate * WAD;
    DivOfMultiple(liquidity * rate, WAD);
  }

  /** Liquidity for collateral at a rate: one floor, cut to 64 bits. */
  lemma CollateralToLiquidityExact(collateral: u64, rate: u128)
    requires rate > 0
    ensures CollateralToLiquidity(collateral, rate) ==
      if Quotient(collateral * WAD * WAD, rate) < U128_LIMIT then Ok(Quotient(collateral * WAD, rate) % U64_LIMIT)
      else Err(Overflow)
  {
    DivDiv(collateral * WAD * WAD, rate, WAD);
    DivCancel(collateral * WAD, rate, WAD);
  }

  /**
   `collateral` is what `liquidity` buys of a reserve with `cs` collateral shares over a supply of `ts` wads:
   its pro-rata part, or one to one on an empty side.
   */
  ghost predicate Bought(liquidity: nat, cs: nat, ts: nat, collateral: nat) {
    if cs == 0 || ts == 0 then collateral == liquidity
    else
      && collateral * ts <= liquidity * cs * WAD
      && liquidity * cs * WAD * WAD < (collateral + 1) * WAD * ts + liquidity * ts
  }

  /** `liquidity` is what `collateral` redeems for there. */
  ghost predicate Redeemed(collateral: nat, cs: nat, ts: nat, liquidity: nat) {
    if cs == 0 || ts == 0 then collateral == liquidity
    else
      && collateral * ts < (liquidity + 1) * cs * WAD
      && liquidity * cs * WAD * WAD <= collateral * WAD * ts + liquidity * ts
  }

  lemma BuysItsPart(liquidity: u64, cs: u64, ts: u128, rate: u128, collateral: u64)
    requires liquidity > 0 && ExchangeRate(cs, ts) == Ok(rate)
    requires LiquidityToCollateral(liquidity, rate) == Ok(collateral) && liquidity * rate < U64_LIMIT * WAD
    ensures Bought(liquidity, cs, ts, collateral)
  {
    ExchangeRateExact(cs, ts);
    LiquidityToCollateralExact(liquidity, rate);
    hide ExchangeRate, LiquidityToCollateral;
    UncutFloor(liquidity * rate, WAD);
    if cs == 0 || ts == 0 {
      DivOfMultiple(liquidity, WAD);
    } else {
      hide Quotient;
      BoughtAt(liquidity, cs, ts, rate, collateral);
    }
  }

  /** A floor below 2^64 survives the cut to 64 bits. */
  lemma UncutFloor(n: nat, d: nat)
    requires d > 0 && n < U64_LIMIT * d
    ensures Quotient(n, d) % U64_LIMIT == Quotient(n, d)
    ensures Quotient(n, d) * d <= n < (Quotient(n, d) + 1) * d
  {
    DivBounds(n, d);
    DivAtMost(n, d, U64_LIMIT - 1);
  }

  lemma BoughtAt(liquidity: nat, cs: nat, ts: nat, rate: nat, collateral: nat)
    requires liquidity > 0 && rate * ts <= cs * WAD * WAD < (rate + 1) * ts
    requires collateral * WAD <= liquidity * rate < (collateral + 1) * WAD
    ensures collateral * ts <= liquidity * cs * WAD
    ensures liquidity * cs * WAD * WAD < (collateral + 1) * WAD * ts + liquidity * ts
  {
    MulMono(rate * ts, cs * WAD * WAD, liquidity);
    MulMono(collateral * WAD, liquidity * rate, ts);
    assert liquidity * (rate * ts) == liquidity * rate * ts;
    assert liquidity * (cs * WAD * WAD) == liquidity * cs * WAD * WAD;
    assert collateral * WAD * ts == collateral * ts * WAD;
    MulCancel(collateral * ts, liquidity * cs * WAD, WAD);
    MulMono(cs * WAD * WAD + 1, (rate + 1) * ts, liquidity);
    assert liquidity * ((rate + 1) * ts) == liquidity * rate * ts + liquidity * ts;
    assert liquidity * (cs * WAD * WAD + 1) == liquidity * cs * WAD * WAD + liquidity;
    MulMono(liquidity * rate, (collateral + 1) * WAD, ts);
  }

  lemma RedeemsItsPart(collateral: u64, cs: u64, ts: u128, rate: u128, liquidity: u64)
    requires ExchangeRate(cs, ts) == Ok(rate) && rate > 0
    requires CollateralToLiquidity(collateral, rate) == Ok(liquidity) && collateral * WAD < U64_LIMIT * rate
    ensures Redeemed(collateral, cs, ts, liquidity)
  {
    ExchangeRateExact(cs, ts);
    CollateralToLiquidityExact(collateral, rate);
    hide ExchangeRate, CollateralToLiquidity;
    UncutFloor(collateral * WAD, rate);
    if cs == 0 || ts == 0 {
      DivOfMultiple(collateral, WAD);
    } else {
      hide Quotient;
      RedeemedAt(collateral, cs, ts, rate, liquidity);
    }
  }

  lemma RedeemedAt(collateral: nat, cs: nat, ts: nat, rate: nat, liquidity: nat)
    requires ts > 0 && rate * ts <= cs * WAD * WAD < (rate + 1) * ts
    requires liquidity * rate <= collateral * WAD < (liquidity + 1) * rate
    ensures collateral * ts < (liquidity + 1) * cs * WAD
    ensures liquidity * cs * WAD * WAD <= collateral * WAD * ts + liquidity * ts
  {
    MulMono(collateral * WAD + 1, (liquidity + 1) * rate, ts);
    assert (collateral * WAD + 1) * ts == collateral * ts * WAD + ts;
    MulMono(rate * ts, cs * WAD * WAD, liquidity + 1);
    assert (liquidity + 1) * rate * ts == (liquidity + 1) * (rate * ts);
    assert (liquidity + 1) * (cs * WAD * WAD) == (liquidity + 1) * cs * WAD * WAD;
    if collateral * ts >= (liquidity + 1) * cs * WAD {
      MulMono((liquidity + 1) * cs * WAD, collateral * ts, WAD);
    }
    MulMono(cs * WAD * WAD, (rate + 1) * ts, liquidity);
    assert liquidity * ((rate + 1) * ts) == liquidity * rate * ts + liquidity * ts;
    MulMono(liquidity * rate, collateral * WAD, ts);
  }

  // ---------------------------------------------------------------- quotes

  /** The value-per-share guard never rejects a Save deposit. */
  lemma DepositGuardNeverRejects(s: SaveState, slot: u64, v: Vault, feeBps: u16, amount: u64)
    ensures QuoteDeposit(s, slot, v, feeBps, amount) != Err(ValuePerShareLoss)
  {
    hide AccrueInterest;
    AccrualFailsArithmetically(s, slot);
    if AccrueInterest(s, slot).Ok? && TotalSupply(s, AccrueInterest(s, slot).value).Ok? {
      var rate := ExchangeRate(s.collateralSupply, TotalSupply(s, AccrueInterest(s, slot).value).value);
      var net := Checked.NetAmount(amount, feeBps, v.creatorFeeBps);
      if rate.Ok? && net.Ok? {
        PlanAtPassesGuard(rate.value, v, net.value);
      }
    }
  }

  lemma PlanAtPassesGuard(rate: u128, v: Vault, net: u64)
    ensures PlanDepositAt(rate, v, net) != Err(ValuePerShareLoss)
    ensures PlanDepositAt(rate, v, net).Ok? ==>
      var plan := PlanDepositAt(rate, v, net).value;
      && plan.net == net && LiquidityToCollateral(net, rate) == Ok(plan.collateral) && plan.minted > 0
      && (v.supply == 0 ==> plan.minted == net)
      && (v.supply > 0 ==> v.held > 0 && plan.minted == plan.collateral * v.supply / v.held
                           && plan.minted * v.held <= plan.collateral * v.supply)
      && v.supply + plan.minted < U64_LIMIT && v.held + plan.collateral < U128_LIMIT
  {
    var collateral := LiquidityToCollateral(net, rate);
    if collateral.Ok? && v.supply > 0 && v.held > 0 {
      SharesForBounds(collateral.value, v, net);
      var minted := SharesFor(collateral.value, v, net);
      if minted.Ok? && v.held + collateral.value < U128_LIMIT && v.supply + minted.value < U64_LIMIT {
        MintPassesGuard(v.held, v.supply, collateral.value, v.held + collateral.value,
                        minted.value, v.supply + minted.value);
      }
    }
  }

  /** Collateral bought at a rate, cut to 64 bits. */
  ghost function CollateralAt(net: u64, rate: u128): u64 {
    MulMono(0, net, rate);
    Quotient(net * rate, WAD) % U64_LIMIT
  }

  ghost function MintedFor(v: Vault, net: u64, collateral: u64): nat {
    if v.supply == 0 then net else if v.held == 0 then 0 else Quotient(collateral * v.supply, v.held)
  }

  /** Liquidity redeemed at a rate, cut to 64 bits. */
  ghost function LiquidityAt(collateral: u64, rate: u128): u64
    requires rate > 0
  {
    Quotient(collateral * WAD, rate) % U64_LIMIT
  }

  /** When a deposit is accepted at a rate, and every amount in it, in closed form. */
  lemma PlanAtExact(rate: u128, v: Vault, net: u64)
    ensures var c := CollateralAt(net, rate);
      var m := MintedFor(v, net, c);
      && (PlanDepositAt(rate, v, net).Ok? <==>
            net * rate < U128_LIMIT && 0 < c && 0 < m && v.held + c < U128_LIMIT && v.supply + m < U64_LIMIT)
      && (PlanDepositAt(rate, v, net).Ok? ==> PlanDepositAt(rate, v, net).value == DepositPlan(net, c, m))
  {
    PlanAtPassesGuard(rate, v, net);
    LiquidityToCollateralExact(net, rate);
    hide LiquidityToCollateral;
    if net * rate < U128_LIMIT && v.supply > 0 && v.held > 0 {
      SharesForBounds(CollateralAt(net, rate), v, net);
    }
  }

  /** The supply behind the exchange rate that quotes use. */
  ghost function SupplyAt(s: SaveState, slot: u64): u128
    requires CurrentRate(s, slot).Ok?
  {
    TotalSupply(s, AccrueInterest(s, slot).value).value
  }

  /** What a deposit must meet before its size at the exchange rate is looked at. */
  ghost predicate DepositOpen(s: SaveState, slot: u64, v: Vault, feeBps: u16, amount: u64) {
    hide AccrueInterest, TotalSupply, Checked.NetAmount;
    var net := Checked.NetAmount(amount, feeBps, v.creatorFeeBps);
    && amount != 0 && CurrentRate(s, slot).Ok? && net.Ok? && net.value != 0
    && net.value * WAD + SupplyAt(s, slot) < U128_LIMIT
    && ToFloorU64(net.value * WAD + SupplyAt(s, slot)) <= s.depositLimit
  }

  /**
   A Save deposit in closed form: it is accepted exactly when it is open and its sizes fit, and then buys the
   net amount's pro-rata part of the reserve and mints the pro-rata floor of that.
   */
  lemma DepositExact(s: SaveState, slot: u64, v: Vault, feeBps: u16, amount: u64)
    ensures QuoteDeposit(s, slot, v, feeBps, amount).Ok? <==>
      && DepositOpen(s, slot, v, feeBps, amount)
      && PlanDepositAt(CurrentRate(s, slot).value, v, Checked.NetAmount(amount, feeBps, v.creatorFeeBps).value).Ok?
    ensures QuoteDeposit(s, slot, v, feeBps, amount).Ok? ==>
      var (rate, net) := (CurrentRate(s, slot).value, Checked.NetAmount(amount, feeBps, v.creatorFeeBps).value);
      var c := CollateralAt(net, rate);
      && QuoteDeposit(s, slot, v, feeBps, amount).value == MintedFor(v, net, c) > 0
      && (net * rate < U64_LIMIT * WAD ==> Bought(net, s.collateralSupply, SupplyAt(s, slot), c))
  {
    hide AccrueInterest, TotalSupply, ExchangeRate, PlanDepositAt, Checked.NetAmount, Bought, CollateralAt, MintedFor;
    if QuoteDeposit(s, slot, v, feeBps, amount).Ok? {
      DepositBuys(s.collateralSupply, SupplyAt(s, slot), CurrentRate(s, slot).value, v,
                  Checked.NetAmount(amount, feeBps, v.creatorFeeBps).value);
    }
  }

  lemma DepositBuys(cs: u64, ts: u128, rate: u128, v: Vault, net: u64)
    requires ExchangeRate(cs, ts) == Ok(rate) && net > 0 && PlanDepositAt(rate, v, net).Ok?
    ensures var c := CollateralAt(net, rate);
      && PlanDepositAt(rate, v, net).value.minted == MintedFor(v, net, c) > 0
      && (net * rate < U64_LIMIT * WAD ==> Bought(net, cs, ts, c))
  {
    hide ExchangeRate, Bought, PlanDepositAt;
    PlanAtExact(rate, v, net);
    LiquidityToCollateralExact(net, rate);
    hide LiquidityToCollateral;
    if net * rate < U64_LIMIT * WAD {
      BuysItsPart(net, cs, ts, rate, CollateralAt(net, rate));
    }
  }

  /**
   A Save withdrawal in closed form: it is accepted exactly when both layers redeem something, the sizes fit
   and the reserve can pay, and then pays the redeemed collateral's pro-rata part of the supply.
   */
  lemma WithdrawExact(s: SaveState, slot: u64, v: Vault, amount: u64)
    ensures QuoteWithdraw(s, slot, v, amount).Ok? <==>
      && 0 < amount <= v.supply && v.held > 0 && CurrentRate(s, slot).Ok? && CurrentRate(s, slot).value > 0
      && amount * v.held < U128_LIMIT && 0 < Quotient(amount * v.held, v.supply) < U64_LIMIT
      && var (c, rate) := (Quotient(amount * v.held, v.supply), CurrentRate(s, slot).value);
      Quotient(c * WAD * WAD, rate) < U128_LIMIT && 0 < LiquidityAt(c, rate) <= s.available
    ensures QuoteWithdraw(s, slot, v, amount).Ok? ==>
      var (c, rate) := (Quotient(amount * v.held, v.supply), CurrentRate(s, slot).value);
      && QuoteWithdraw(s, slot, v, amount).value == LiquidityAt(c, rate)
      && (c * WAD < U64_LIMIT * rate ==> Redeemed(c, s.collateralSupply, SupplyAt(s, slot), LiquidityAt(c, rate)))
  {
    MulMono(0, amount, v.held);
    hide AccrueInterest, TotalSupply, ExchangeRate, Redeemed, LiquidityAt;
    WithdrawGuardNeverRejects(s, slot, v, amount);
    if 0 < amount <= v.supply && v.held > 0 && CurrentRate(s, slot).Ok? {
      WithdrawPays(s.collateralSupply, SupplyAt(s, slot), CurrentRate(s, slot).value, v, amount);
      hide WithdrawAt, CurrentRate, WithdrawGuard;
      GuardPasses(v, amount);
    }
  }

  lemma GuardPasses(v: Vault, amount: u64)
    requires 0 < amount <= v.supply && v.held > 0
    ensures TokensFor(amount, v).Ok? ==> WithdrawGuard(v, amount).Ok?
  {
    TokensForBounds(amount, v);
    if TokensFor(amount, v).Ok? {
      var c := TokensFor(amount, v).value;
      BurnPassesGuard(v.held, v.supply, c, v.held - c, amount, v.supply - amount);
    }
  }

  lemma WithdrawPays(cs: u64, ts: u128, rate: u128, v: Vault, amount: u64)
    requires ExchangeRate(cs, ts) == Ok(rate) && 0 < amount <= v.supply && v.held > 0
    ensures 0 <= amount * v.held
    ensures var c := Quotient(amount * v.held, v.supply);
      && (WithdrawAt(rate, v, amount).Ok? <==>
            && rate > 0 && amount * v.held < U128_LIMIT && 0 < c < U64_LIMIT
            && Quotient(c * WAD * WAD, rate) < U128_LIMIT && 0 < LiquidityAt(c, rate))
      && (WithdrawAt(rate, v, amount).Ok? ==>
            && TokensFor(amount, v) == Ok(c) && WithdrawAt(rate, v, amount).value == LiquidityAt(c, rate)
            && (c * WAD < U64_LIMIT * rate ==> Redeemed(c, cs, ts, LiquidityAt(c, rate))))
  {
    MulMono(0, amount, v.held);
    TokensForBounds(amount, v);
    hide ExchangeRate, Redeemed, TokensFor;
    var c := Quotient(amount * v.held, v.supply);
    if c < U64_LIMIT && rate > 0 {
      CollateralToLiquidityExact(c, rate);
      if CollateralToLiquidity(c, rate).Ok? && c * WAD < U64_LIMIT * rate {
        RedeemsItsPart(c, cs, ts, rate, LiquidityAt(c, rate));
      }
    }
  }

  lemma WithdrawGuardNeverRejects(s: SaveState, slot: u64, v: Vault, amount: u64)
    ensures QuoteWithdraw(s, slot, v, amount) != Err(ValuePerShareLoss)
  {
    hide AccrueInterest;
    AccrualFailsArithmetically(s, slot);
    if 0 < amount <= v.supply {
      TokensForBounds(amount, v);
      if TokensFor(amount, v).Ok? {
        var c := TokensFor(amount, v).value;
        BurnPassesGuard(v.held, v.supply, c, v.held - c, amount, v.supply - amount);
      }
    }
  }

  lemma AccrualFailsArithmetically(s: SaveState, slot: u64)
    ensures AccrueInterest(s, slot) != Err(ValuePerShareLoss)
  {
    hide PowFrom;
    if BorrowRate(s).Ok? {
      var base := SatAdd(WAD, DivInt(BorrowRate(s).value, SLOTS_PER_YEAR));
      var n := SatSub(slot, s.lastUpdateSlot);
      PowFailsArithmetically(base, if n % 2 == 1 then base else WAD, n);
    }
  }

  lemma {:induction false} PowFailsArithmetically(b: u128, r: u128, e: nat)
    ensures PowFrom(b, r, e).Err? ==> PowFrom(b, r, e).error == Overflow
    decreases e
  {
    if e / 2 > 0 && WadMul(b, b).Ok? {
      var square := WadMul(b, b).value;
      var next := if e / 2 % 2 == 1 then WadMul(r, square) else Ok(r);
      if next.Ok? {
        PowFailsArithmetically(square, next.value, e / 2);
      }
    }
  }

  /** Converting to collateral and back at one rate never gains, whatever the truncations drop. */
  lemma ConversionNeverGains(liquidity: u64, rate: u128, collateral: u64, redeemed: u64, back: u64)
    requires LiquidityToCollateral(liquidity, rate) == Ok(collateral) && redeemed <= collateral
    requires CollateralToLiquidity(redeemed, rate) == Ok(back)
    ensures back <= liquidity
  {
    var p := liquidity * WAD * rate / WAD;
    ModBelow(p / WAD);
    var q := redeemed * WAD * WAD / rate;
    ModBelow(q / WAD);
    assert liquidity * WAD * rate == liquidity * rate * WAD;
    DivOfMultiple(liquidity * rate, WAD);
    MulMono(0, liquidity, rate);
    DivBounds(liquidity * rate, WAD);
    MulMono(redeemed * WAD, liquidity * rate, WAD);
    assert liquidity * rate * WAD == liquidity * WAD * rate;
    DivMono(redeemed * WAD * WAD, liquidity * WAD * rate, rate);
    DivOfMultiple(liquidity * WAD, rate);
    DivMono(q, liquidity * WAD, WAD);
    DivOfMultiple(liquidity, WAD);
  }

  lemma ModBelow(n: int)
    requires n >= 0
    ensures n % U64_LIMIT <= n
  {
  }

  /**
   Redeeming at the deposit's own exchange rate exactly the shares a deposit minted pays at most the
   net amount deposited.
   */
  lemma SameRateRoundTrip(rate: u128, v: Vault, net: u64, plan: DepositPlan, paid: u64)
    requires v.supply == 0 ==> v.held == 0
    requires PlanDepositAt(rate, v, net) == Ok(plan)
    requires var after := v.(supply := v.supply + plan.minted, held := v.held + plan.collateral);
      WithdrawAt(rate, after, plan.minted) == Ok(paid)
    ensures paid <= net
  {
    PlanAtPassesGuard(rate, v, net);
    var after := v.(supply := v.supply + plan.minted, held := v.held + plan.collateral);
    TokensForBounds(plan.minted, after);
    var redeemed := TokensFor(plan.minted, after).value;
    if v.supply > 0 {
      SharesGiveBackAtMost(v, plan.collateral, plan.minted);
    } else {
      DivOfMultiple(plan.collateral, plan.minted);
      assert plan.minted * plan.collateral == plan.collateral * plan.minted;
    }
    ConversionNeverGains(net, rate, plan.collateral, redeemed, paid);
  }
}
