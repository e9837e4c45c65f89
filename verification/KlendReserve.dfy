/** A klend reserve: its accounts, interest accrual and share conversions. */
module KlendReserve {
  import opened Arith
  import opened Outcome
  import opened Fixed
  import opened KlendCurve
  import opened KlendCompound

  const SLOTS_PER_YEAR: nat := 63_072_000
  const SECONDS_PER_YEAR: nat := 31_536_000

  type i64 = n: int | -0x8000_0000_0000_0000 <= n < 0x8000_0000_0000_0000

  datatype Clock = Clock(slot: u64, unixTimestamp: i64) {
    function Seconds(): u64 {
      Max(unixTimestamp, 0)
    }
  }

  datatype WithdrawalCaps =
    WithdrawalCaps(capacity: i64, currentTotal: i64, intervalStart: u64, intervalLength: u64)
  {
    /** How much may still leave within the current interval. */
    function Remaining(timestamp: u64): u64 {
      if intervalLength == 0 then U64_MAX
      else if capacity < 0 then 0
      else
        var total := if SatSub(timestamp, intervalStart) >= intervalLength then 0 else currentTotal;
        if total <= capacity && capacity - total < U64_LIMIT then capacity - total else 0
    }
  }

  datatype KlendState = KlendState(
    version: u64, lastUpdateSlot: u64, lastUpdateTimestamp: u64,
    totalAvailable: u64, borrowedSf: u128,
    protocolFeesSf: u128, referrerFeesSf: u128, pendingReferrerSf: u128,
    collateralSupply: u64,
    status: u8, blockCtokenUsage: bool, emergencyMode: bool,
    hostFixedRateBps: u16, takeRatePct: u8, rateBasis: u8, curve: Curve,
    depositLimit: u64, depositCap: WithdrawalCaps, queuedCollateral: u64)
  {
    /** What the reserve's shares stand for, exactly. */
    ghost function Supply(): int {
      totalAvailable * ONE + borrowedSf - protocolFeesSf - referrerFeesSf - pendingReferrerSf
    }
  }

  datatype Accrued =
    Accrued(borrowedSf: u128, protocolFeesSf: u128, pendingReferrerSf: u128, referrerFeesSf: u128)

  /** The supply as the program computes it, one checked operation at a time. */
  function TotalSupply(s: KlendState, a: Accrued): Result<Fraction> {
    var gross :- Add(FromNum(s.totalAvailable), a.borrowedSf);
    var afterProtocol :- Sub(gross, a.protocolFeesSf);
    var afterReferrers :- Sub(afterProtocol, a.referrerFeesSf);
    Sub(afterReferrers, a.pendingReferrerSf)
  }

  function Current(s: KlendState): Accrued {
    Accrued(s.borrowedSf, s.protocolFeesSf, s.pendingReferrerSf, s.referrerFeesSf)
  }

  function Utilization(borrowedSf: u128, totalSupply: Fraction): Result<Fraction> {
    if totalSupply == 0 then Ok(0) else Div(borrowedSf, totalSupply)
  }

  /** Elapsed units since the last update, and how many of them make a year. */
  function Elapsed(s: KlendState, clock: Clock): Result<(u64, u128)> {
    if s.rateBasis == 0 then Ok((SatSub(clock.slot, s.lastUpdateSlot), SLOTS_PER_YEAR))
    else if s.rateBasis == 1 then
      Ok((if s.lastUpdateTimestamp == 0 then 0 else SatSub(clock.Seconds(), s.lastUpdateTimestamp),
          SECONDS_PER_YEAR))
    else Err(UnknownRateBasis)
  }

  function PercentToFraction(pct: u8): Fraction {
    pct * ONE / 100
  }

  function AccrueInterest(s: KlendState, clock: Clock): Result<Accrued> {
    var (units, perYear) :- Elapsed(s, clock);
    if units == 0 then Ok(Current(s))
    else
      var supply :- TotalSupply(s, Current(s));
      var utilization :- Utilization(s.borrowedSf, supply);
      var rate :- FitU128(BorrowRate(s.curve, utilization));
      GrowDebt(s, rate, BpsToFraction(s.hostFixedRateBps), units, perYear)
  }

  /** Debt compounds at the full rate; the host's fixed part and the take rate of the rest are fees. */
  function GrowDebt(s: KlendState, rate: Fraction, hostRate: Fraction, units: u64, perYear: u128): Result<Accrued>
    requires perYear > 0
  {
    var fullRate :- Add(rate, hostRate);
    var growth :- Compound(fullRate, units, perYear);
    var hostGrowth :- Compound(hostRate, units, perYear);
    SplitGrowth(s, growth, hostGrowth)
  }

  function SplitGrowth(s: KlendState, growth: Fraction, hostGrowth: Fraction): Result<Accrued> {
    var takeRate := PercentToFraction(s.takeRatePct);
    var newDebt :- Mul(s.borrowedSf, growth);
    var hostDebt :- Mul(s.borrowedSf, hostGrowth);
    var hostFee :- Sub(hostDebt, s.borrowedSf);
    var newInterest :- Sub(newDebt, s.borrowedSf);
    var variableDebt :- Sub(newInterest, hostFee);
    var protocolFee :- Mul(variableDebt, takeRate);
    var referralRate :- Mul(takeRate, 0);
    var referrerFee :- Mul(variableDebt, referralRate);
    var fees1 :- Add(s.protocolFeesSf, hostFee);
    var fees2 :- Add(fees1, protocolFee);
    var fees :- Sub(fees2, referrerFee);
    var pending :- FitU128(s.pendingReferrerSf + referrerFee);
    Ok(Accrued(newDebt, fees, pending, s.referrerFeesSf))
  }

  function WithAccrued(s: KlendState, a: Accrued, clock: Clock): KlendState {
    s.(borrowedSf := a.borrowedSf, protocolFeesSf := a.protocolFeesSf,
       pendingReferrerSf := a.pendingReferrerSf, referrerFeesSf := a.referrerFeesSf,
       lastUpdateSlot := clock.slot, lastUpdateTimestamp := clock.Seconds())
  }

  /** A reserve held in memory and brought up to date in place. */
  class LiveReserve {
    var state: KlendState

    constructor (s: KlendState)
      ensures state == s
    {
      state := s;
    }

    method PreAccrue(clock: Clock) returns (r: Result<()>)
      modifies this
      ensures r.Ok? <==> AccrueInterest(old(state), clock).Ok?
      ensures r.Ok? ==> state == WithAccrued(old(state), AccrueInterest(old(state), clock).value, clock)
      ensures r.Err? ==> state == old(state) && r.error == AccrueInterest(old(state), clock).error
    {
      var accrued := AccrueInterest(state, clock);
      if accrued.Err? {
        return Err(accrued.error);
      }
      state := state.(borrowedSf := accrued.value.borrowedSf);
      state := state.(protocolFeesSf := accrued.value.protocolFeesSf);
      state := state.(pendingReferrerSf := accrued.value.pendingReferrerSf);
      state := state.(referrerFeesSf := accrued.value.referrerFeesSf);
      state := state.(lastUpdateSlot := clock.slot);
      state := state.(lastUpdateTimestamp := clock.Seconds());
      return Ok(());
    }
  }

  // ---------------------------------------------------------------- time, caps and utilization

  /** How much has left within the interval that a time falls in. */
  ghost function Spent(caps: WithdrawalCaps, timestamp: u64): int {
    if caps.intervalStart + caps.intervalLength <= timestamp then 0 else caps.currentTotal
  }

  /**
   A cap without an interval does not bind. Otherwise what remains is the capacity less what was spent in the
   interval under way, down to nothing: together they reach the capacity exactly unless it is exceeded, and
   the 64-bit conversion never refuses.
   */
  lemma RemainingExact(caps: WithdrawalCaps, timestamp: u64)
    ensures caps.intervalLength == 0 ==> caps.Remaining(timestamp) == U64_MAX
    ensures caps.intervalLength > 0 && caps.capacity >= 0 ==>
      caps.Remaining(timestamp) == Max(0, caps.capacity - Spent(caps, timestamp))
    ensures caps.intervalLength > 0 && caps.capacity < 0 ==> caps.Remaining(timestamp) == 0
  {
  }

  /** Units are counted from the last update to the clock, in half seconds or seconds, none when it runs back. */
  lemma ElapsedExact(s: KlendState, clock: Clock)
    ensures s.rateBasis == 0 ==>
      && Elapsed(s, clock).Ok? && Elapsed(s, clock).value.1 == 2 * 365 * 86_400
      && s.lastUpdateSlot + Elapsed(s, clock).value.0 == Max(s.lastUpdateSlot, clock.slot)
    ensures s.rateBasis == 1 ==>
      && Elapsed(s, clock).Ok? && Elapsed(s, clock).value.1 == 365 * 86_400
      && (s.lastUpdateTimestamp == 0 ==> Elapsed(s, clock).value.0 == 0)
      && (s.lastUpdateTimestamp > 0 ==>
            s.lastUpdateTimestamp + Elapsed(s, clock).value.0 == Max(s.lastUpdateTimestamp, clock.unixTimestamp))
    ensures s.rateBasis > 1 ==> Elapsed(s, clock) == Err(UnknownRateBasis)
  {
  }

  /** Utilization is the floored ratio of debt to supply, nothing on an empty supply. */
  lemma UtilizationExact(borrowedSf: u128, supply: Fraction)
    ensures supply == 0 ==> Utilization(borrowedSf, supply) == Ok(0)
    ensures Utilization(borrowedSf, supply).Ok? && supply > 0 ==>
      var u := Utilization(borrowedSf, supply).value;
      u * supply <= borrowedSf * ONE < (u + 1) * supply
  {
    if supply > 0 {
      DivBounds(borrowedSf * ONE, supply);
    }
  }

  // ---------------------------------------------------------------- accrual keeps its ledger

  /** The checked supply is the exact one whenever it is computed, and fails only for two reasons. */
  lemma TotalSupplyExact(s: KlendState)
    ensures TotalSupply(s, Current(s))
         == if s.totalAvailable * ONE + s.borrowedSf >= U128_LIMIT then Err(Overflow)
            else if s.Supply() < 0 then Err(Underflow)
            else Ok(s.Supply())
  {
  }

  lemma GrowthAtLeastOne(debt: u128, growth: nat, grown: nat)
    requires growth >= ONE && grown == debt * growth / ONE
    ensures grown >= debt
  {
    MulMono(ONE, growth, debt);
    DivAtLeast(debt * growth, ONE, debt);
  }

  /** Taking `rate` of `x` with a rate of at most one takes at most all of it. */
  lemma ShareAtMostWhole(x: nat, rate: nat)
    requires rate <= ONE
    ensures x * rate / ONE <= x
  {
    MulMono(rate, ONE, x);
    DivAtMost(x * rate, ONE, x);
  }

  /** The growth factors of one accrual: host growth is at least one and at most the full growth. */
  lemma GrowthFactors(rate: Fraction, hostRate: Fraction, units: u64, perYear: u128)
    requires perYear > 0 && rate + hostRate < U128_LIMIT
    requires Compound(rate + hostRate, units, perYear).Ok?
    ensures Compound(hostRate, units, perYear).Ok?
    ensures ONE <= Compound(hostRate, units, perYear).value
         <= Compound(rate + hostRate, units, perYear).value
  {
    CompoundMonotone(hostRate, rate + hostRate, units, perYear);
    CompoundAtLeastSimple(hostRate, units, perYear);
    MulMono(0, PerUnit(hostRate, perYear), units);
  }

  lemma SplitBalances(s: KlendState, growth: Fraction, hostGrowth: Fraction)
    requires ONE <= hostGrowth <= growth
    ensures SplitGrowth(s, growth, hostGrowth) != Err(Underflow)
    ensures SplitGrowth(s, growth, hostGrowth).Ok? ==>
      var a := SplitGrowth(s, growth, hostGrowth).value;
      && s.borrowedSf <= a.borrowedSf && s.protocolFeesSf <= a.protocolFeesSf
      && a.pendingReferrerSf == s.pendingReferrerSf && a.referrerFeesSf == s.referrerFeesSf
      && (s.takeRatePct <= 100 ==> a.protocolFeesSf - s.protocolFeesSf <= a.borrowedSf - s.borrowedSf)
  {
    var debt := s.borrowedSf;
    var grown, hostGrown := debt * growth / ONE, debt * hostGrowth / ONE;
    GrowthAtLeastOne(debt, growth, grown);
    GrowthAtLeastOne(debt, hostGrowth, hostGrown);
    MulMono(hostGrowth, growth, debt);
    DivMono(debt * hostGrowth, debt * growth, ONE);
    var variable := grown - hostGrown;
    var takeRate := PercentToFraction(s.takeRatePct);
    assert Mul(takeRate, 0) == Ok(0) && Mul(variable % U128_LIMIT, 0) == Ok(0);
    MulMono(0, takeRate, variable);
    DivAtLeast(variable * takeRate, ONE, 0);
    if s.takeRatePct <= 100 {
      ShareAtMostWhole(variable, takeRate);
    }
  }

  lemma GrowDebtBalances(s: KlendState, rate: Fraction, hostRate: Fraction, units: u64, perYear: u128)
    requires perYear > 0
    ensures GrowDebt(s, rate, hostRate, units, perYear) != Err(Underflow)
    ensures GrowDebt(s, rate, hostRate, units, perYear).Ok? ==>
      var a := GrowDebt(s, rate, hostRate, units, perYear).value;
      && s.borrowedSf <= a.borrowedSf && s.protocolFeesSf <= a.protocolFeesSf
      && a.pendingReferrerSf == s.pendingReferrerSf && a.referrerFeesSf == s.referrerFeesSf
      && (s.takeRatePct <= 100 ==> a.protocolFeesSf - s.protocolFeesSf <= a.borrowedSf - s.borrowedSf)
  {
    CompoundNeverUnderflows(hostRate, units, perYear);
    if rate + hostRate < U128_LIMIT {
      CompoundNeverUnderflows(rate + hostRate, units, perYear);
      if Compound(rate + hostRate, units, perYear).Ok? {
        GrowthFactors(rate, hostRate, units, perYear);
        SplitBalances(s, Compound(rate + hostRate, units, perYear).value, Compound(hostRate, units, perYear).value);
      }
    }
  }

  /** The accrual splits new debt exactly between protocol fees and the reserve's shares. */
  lemma AccrualBalances(s: KlendState, clock: Clock, a: Accrued)
    requires AccrueInterest(s, clock) == Ok(a)
    ensures a.borrowedSf >= s.borrowedSf
    ensures a.protocolFeesSf >= s.protocolFeesSf
    ensures a.pendingReferrerSf == s.pendingReferrerSf && a.referrerFeesSf == s.referrerFeesSf
    ensures a.borrowedSf - s.borrowedSf
         == (a.protocolFeesSf - s.protocolFeesSf) + (WithAccrued(s, a, clock).Supply() - s.Supply())
    ensures s.takeRatePct <= 100 ==> WithAccrued(s, a, clock).Supply() >= s.Supply()
  {
    var (units, perYear) := Elapsed(s, clock).value;
    if units != 0 {
      var supply := TotalSupply(s, Current(s)).value;
      var rate := BorrowRate(s.curve, Utilization(s.borrowedSf, supply).value);
      GrowDebtBalances(s, rate, BpsToFraction(s.hostFixedRateBps), units, perYear);
    }
  }

  /** `grown` lies between simple interest on `debt` and its exact compounding, `b` per period over `n` periods. */
  ghost predicate Compounded(debt: nat, grown: nat, b: nat, n: nat) {
    && debt * (ONE + n * b) < (grown + 1) * ONE && grown * Pow(ONE, n) <= debt * Pow(ONE + b, n)
    && NearlyCompounded(debt, grown, b, n)
  }

  /**
   And it is short of exact compounding only by roundings, up to four periods, or of the first four terms of
   its expansion beyond.
   */
  ghost predicate NearlyCompounded(debt: nat, grown: nat, b: nat, n: nat) {
    if n <= 4 then debt * Pow(ONE + b, n) <= (grown + 1) * Pow(ONE + 1, n)
    else 6 * ONE * (debt * (ONE * FourTerms(ONE, b, n)))
           <= (6 * ONE * (ONE * (grown + 1)) + debt * Lost(b, n)) * Pow(ONE, n)
  }

  lemma GrownNear(debt: nat, growth: nat, grown: nat, b: nat, n: nat)
    requires grown == debt * growth / ONE && NearExact(growth, b, n)
    ensures NearlyCompounded(debt, grown, b, n)
  {
    hide Pow, Lost, FourTerms;
    DivBounds(debt * growth, ONE);
    if n <= 4 {
      PowPositive(ONE + 1, n);
      GrownShort(ONE, debt, growth, grown, Pow(ONE + b, n), Pow(ONE + 1, n));
    } else {
      PowPositive(ONE, n);
      GrownLong(debt, growth, grown, FourTerms(ONE, b, n), Lost(b, n), Pow(ONE, n));
    }
  }

  lemma GrownLong(debt: nat, growth: nat, grown: nat, terms: nat, lost: nat, p: nat)
    requires debt * growth < (grown + 1) * ONE && 6 * ONE * (ONE * terms) <= (6 * ONE * growth + lost) * p
    ensures 6 * ONE * (debt * (ONE * terms)) <= (6 * ONE * (ONE * (grown + 1)) + debt * lost) * p
  {
    MulMono(6 * ONE * (ONE * terms), (6 * ONE * growth + lost) * p, debt);
    assert debt * (6 * ONE * (ONE * terms)) == 6 * ONE * (debt * (ONE * terms));
    assert debt * ((6 * ONE * growth + lost) * p) == (6 * ONE * (debt * growth) + debt * lost) * p;
    MulMono(6 * ONE * (debt * growth) + debt * lost, 6 * ONE * (ONE * (grown + 1)) + debt * lost, p);
  }

  lemma GrownBetween(debt: nat, growth: nat, grown: nat, b: nat, n: nat)
    requires grown == debt * growth / ONE
    requires ONE + n * b <= growth && growth * Pow(ONE, n) <= ONE * Pow(ONE + b, n)
    ensures debt * (ONE + n * b) < (grown + 1) * ONE && grown * Pow(ONE, n) <= debt * Pow(ONE + b, n)
  {
    hide Pow;
    var simple, p, q := ONE + n * b, Pow(ONE, n), Pow(ONE + b, n);
    DivBounds(debt * growth, ONE);
    MulMono(simple, growth, debt);
    MulMono(grown * ONE, debt * growth, p);
    MulMono(growth * p, ONE * q, debt);
    assert debt * growth * p == debt * (growth * p);
    assert debt * (ONE * q) == debt * q * ONE;
    assert grown * ONE * p == grown * p * ONE;
    MulCancel(grown * p, debt * q, ONE);
  }

  /**
   Debt compounds at the curve's rate for the reserve's own utilization plus the host's: at least simple
   interest, at most exact compounding of it, and short of that as NearlyCompounded says.
   */
  lemma DebtCompounds(s: KlendState, clock: Clock, a: Accrued)
    requires AccrueInterest(s, clock) == Ok(a) && Elapsed(s, clock).value.0 != 0
    ensures var (units, perYear) := Elapsed(s, clock).value;
      var supply := TotalSupply(s, Current(s));
      && supply.Ok? && Utilization(s.borrowedSf, supply.value).Ok?
      && var full := BorrowRate(s.curve, Utilization(s.borrowedSf, supply.value).value) + BpsToFraction(s.hostFixedRateBps);
      && full < U128_LIMIT
      && var base := PerUnit(full, perYear);
      Compounded(s.borrowedSf, a.borrowedSf, base, units)
  {
    hide Compound, BorrowRate, TotalSupply, Utilization, NearlyCompounded, Pow;
    var (units, perYear) := Elapsed(s, clock).value;
    var supply := TotalSupply(s, Current(s)).value;
    var full := BorrowRate(s.curve, Utilization(s.borrowedSf, supply).value) + BpsToFraction(s.hostFixedRateBps);
    CompoundAtLeastSimple(full, units, perYear);
    CompoundAtMostExact(full, units, perYear);
    CompoundNearExact(full, units, perYear);
    hide NearExact;
    var base := PerUnit(full, perYear);
    GrownBetween(s.borrowedSf, Compound(full, units, perYear).value, a.borrowedSf, base, units);
    GrownNear(s.borrowedSf, Compound(full, units, perYear).value, a.borrowedSf, base, units);
  }

  /** A percentage of `x`, taken with a truncated rate and truncated again. */
  lemma TakenBounds(x: nat, pct: nat, rate: nat, taken: nat)
    requires rate == pct * ONE / 100 && taken == x * rate / ONE
    ensures 100 * taken <= pct * x <= 100 * (taken + x / ONE + 2)
  {
    DivBounds(pct * ONE, 100);
    DivBounds(x * rate, ONE);
    DivBounds(x, ONE);
    MulMono(rate * 100, pct * ONE, x);
    MulMono(pct * ONE, rate * 100 + 100, x);
    TakenScaled(x, pct, rate, taken);
  }

  lemma TakenScaled(x: nat, pct: nat, rate: nat, taken: nat)
    requires rate * 100 * x <= pct * ONE * x <= (rate * 100 + 100) * x
    requires taken * ONE <= x * rate < taken * ONE + ONE
    requires x / ONE * ONE <= x < x / ONE * ONE + ONE
    ensures 100 * taken <= pct * x <= 100 * (taken + x / ONE + 2)
  {
    assert rate * 100 * x == 100 * (x * rate);
    assert pct * ONE * x == pct * x * ONE;
    assert (rate * 100 + 100) * x == 100 * (x * rate) + 100 * x;
  }

  /**
   Where new interest goes: the host's own compounding is all fee, and of the rest the shares keep
   what the take rate leaves, never less and at most a rounding more.
   */
  lemma SharesKeepTheirPart(s: KlendState, clock: Clock, a: Accrued)
    requires AccrueInterest(s, clock) == Ok(a) && s.takeRatePct <= 100
    requires Elapsed(s, clock).value.0 != 0
    ensures var (units, perYear) := Elapsed(s, clock).value;
      var host := Compound(BpsToFraction(s.hostFixedRateBps), units, perYear);
      && host.Ok?
      && var rest := a.borrowedSf - s.borrowedSf * host.value / ONE;
         var kept := WithAccrued(s, a, clock).Supply() - s.Supply();
      && 0 <= rest
      && (100 - s.takeRatePct) * rest <= 100 * kept
           <= (100 - s.takeRatePct) * rest + 100 * (rest / ONE + 2)
  {
    hide Compound, BorrowRate, SplitGrowth, TotalSupply, Utilization;
    var (units, perYear) := Elapsed(s, clock).value;
    var supply := TotalSupply(s, Current(s)).value;
    var rate := BorrowRate(s.curve, Utilization(s.borrowedSf, supply).value);
    var hostRate := BpsToFraction(s.hostFixedRateBps);
    var growth, hostGrowth := Compound(rate + hostRate, units, perYear).value, Compound(hostRate, units, perYear).value;
    SplitKeeps(s, growth, hostGrowth, a);
    AccrualBalances(s, clock, a);
  }

  lemma SplitKeeps(s: KlendState, growth: Fraction, hostGrowth: Fraction, a: Accrued)
    requires SplitGrowth(s, growth, hostGrowth) == Ok(a) && s.takeRatePct <= 100
    ensures var rest := a.borrowedSf - s.borrowedSf * hostGrowth / ONE;
      var kept := a.borrowedSf - s.borrowedSf - (a.protocolFeesSf - s.protocolFeesSf);
      && 0 <= rest
      && (100 - s.takeRatePct) * rest <= 100 * kept
           <= (100 - s.takeRatePct) * rest + 100 * (rest / ONE + 2)
  {
    var rest := a.borrowedSf - s.borrowedSf * hostGrowth / ONE;
    var takeRate := PercentToFraction(s.takeRatePct);
    assert Mul(takeRate, 0) == Ok(0);
    assert rest >= 0 && Mul(rest, 0) == Ok(0);
    TakenBounds(rest, s.takeRatePct, takeRate, rest * takeRate / ONE);
    assert (100 - s.takeRatePct) * rest == 100 * rest - s.takeRatePct * rest;
  }

  /**
   Accrual itself never subtracts below zero: an underflow comes only from a reserve whose fees
   already exceed everything it holds, and then always.
   */
  lemma AccrualUnderflowsOnlyWhenInsolvent(s: KlendState, clock: Clock)
    ensures AccrueInterest(s, clock) == Err(Underflow)
       <==> && Elapsed(s, clock).Ok? && Elapsed(s, clock).value.0 != 0
            && s.totalAvailable * ONE + s.borrowedSf < U128_LIMIT && s.Supply() < 0
  {
    TotalSupplyExact(s);
    if Elapsed(s, clock).Ok? && Elapsed(s, clock).value.0 != 0 && TotalSupply(s, Current(s)).Ok? {
      var (units, perYear) := Elapsed(s, clock).value;
      var utilization := Utilization(s.borrowedSf, TotalSupply(s, Current(s)).value);
      if utilization.Ok? {
        var rate := FitU128(BorrowRate(s.curve, utilization.value));
        if rate.Ok? {
          GrowDebtBalances(s, rate.value, BpsToFraction(s.hostFixedRateBps), units, perYear);
        }
      }
    }
  }

  lemma CompoundNeverUnderflows(rate: Fraction, n: u64, perYear: u128)
    requires perYear > 0
    ensures Compound(rate, n, perYear).Err? ==> Compound(rate, n, perYear).error == Overflow
  {
  }

  /** The errors of plain arithmetic, as opposed to a refused quote. */
  predicate Arithmetic(e: Error) {
    e.Overflow? || e.Underflow? || e.DivideByZero? || e.DoesNotFit? || e.UnknownRateBasis?
  }

  /** Accrual and the supply fail only arithmetically. */
  lemma BooksFailArithmetically(s: KlendState, clock: Clock, a: Accrued)
    ensures AccrueInterest(s, clock).Err? ==> Arithmetic(AccrueInterest(s, clock).error)
    ensures TotalSupply(s, a).Err? ==> Arithmetic(TotalSupply(s, a).error)
  {
    hide Compound, BorrowRate;
    if AccrueInterest(s, clock).Err? && Elapsed(s, clock).Ok? {
      var (units, perYear) := Elapsed(s, clock).value;
      var hostRate := BpsToFraction(s.hostFixedRateBps);
      CompoundNeverUnderflows(hostRate, units, perYear);
      var supply := TotalSupply(s, Current(s));
      if supply.Ok? && Utilization(s.borrowedSf, supply.value).Ok? {
        var rate := BorrowRate(s.curve, Utilization(s.borrowedSf, supply.value).value);
        if rate + hostRate < U128_LIMIT {
          CompoundNeverUnderflows(rate + hostRate, units, perYear);
        }
      }
    }
  }

  /** Accruing a second time at the same clock changes nothing. */
  lemma AccrualIdempotent(s: KlendState, clock: Clock, a: Accrued)
    requires AccrueInterest(s, clock) == Ok(a)
    ensures AccrueInterest(WithAccrued(s, a, clock), clock) == Ok(a)
    ensures WithAccrued(WithAccrued(s, a, clock), a, clock) == WithAccrued(s, a, clock)
  {
  }

  // ---------------------------------------------------------------- shares and liquidity

  /** An empty side resets the rate to one to one. */
  function ExchangeRatePair(collateralSupply: u64, totalSupply: Fraction): (pair: (u128, Fraction))
    ensures 0 < pair.0 < U64_LIMIT && 0 < pair.1
  {
    if collateralSupply == 0 || totalSupply == 0 then (1, ONE) else (collateralSupply, totalSupply)
  }

  /** A 60-bit left shift inside 256 bits, refused when bits fall off. */
  function CheckedShl(n: nat): Result<nat> {
    var shifted := n * ONE % U256_LIMIT;
    if shifted / ONE == n then Ok(shifted) else Err(Overflow)
  }

  function LiquidityToCollateral(liquidity: u64, cs: u128, ts: Fraction): Result<u64> {
    var lhs :- FitU128(cs * liquidity);
    var big :- CheckedShl(lhs);
    var divisor: nat :- if ts == 0 then Err(DivideByZero) else Ok(ts);
    var scaled :- CheckedShl(big);
    var bits: Fraction :- FitU128(Quotient(scaled, divisor));
    FitU64(Floor(bits))
  }

  /** Liquidity for collateral, rounded down to the last fractional bit. */
  function CollateralToLiquidityBits(collateral: u64, cs: u128, ts: Fraction): Result<Fraction> {
    if cs == 0 then Err(DivideByZero)
    else
      var product :- FitU256(collateral * ts);
      FitU128(Quotient(product, cs))
  }

  function CollateralToLiquidity(collateral: u64, cs: u128, ts: Fraction): Result<u64> {
    var bits :- CollateralToLiquidityBits(collateral, cs, ts);
    FitU64(Floor(bits))
  }

  function CollateralToLiquidityCeil(collateral: u64, cs: u128, ts: Fraction): Result<u64> {
    if cs == 0 then Err(DivideByZero)
    else
      var product :- FitU256(collateral * ts);
      var numerator :- FitU256(product + (cs - 1));
      var bits: Fraction :- FitU128(Quotient(numerator, cs));
      var ceiled :- Ceil(bits);
      FitU64(ceiled)
  }

  /** The fewest collateral tokens worth at least `liquidity`. */
  function LiquidityToCollateralCeil(liquidity: u64, cs: u128, ts: Fraction): Result<u64> {
    if cs == 0 || ts == 0 then Err(DivideByZero)
    else
      var product :- FitU256(liquidity * cs);
      var num :- FitU256(product * ONE);
      var bits: nat :- FitU256(num + ts - 1);
      var v: u128 :- FitU128(Quotient(bits, ts));
      FitU64(v)
  }

  /** Every conversion fails only arithmetically. */
  lemma ConversionsFailArithmetically(amount: u64, cs: u128, ts: Fraction)
    ensures LiquidityToCollateral(amount, cs, ts).Err?
        ==> Arithmetic(LiquidityToCollateral(amount, cs, ts).error)
    ensures CollateralToLiquidity(amount, cs, ts).Err?
        ==> Arithmetic(CollateralToLiquidity(amount, cs, ts).error)
    ensures CollateralToLiquidityCeil(amount, cs, ts).Err?
        ==> Arithmetic(CollateralToLiquidityCeil(amount, cs, ts).error)
  {
  }

  lemma ShiftExact(n: nat)
    requires n * ONE < U256_LIMIT
    ensures CheckedShl(n) == Ok(n * ONE)
  {
    DivOfMultiple(n, ONE);
  }

  /** The double 256-bit shift and its two truncations collapse to one exact floor. */
  lemma LiquidityToCollateralExact(l: u64, cs: u128, ts: Fraction)
    requires 0 < cs < U64_LIMIT && ts > 0
    ensures LiquidityToCollateral(l, cs, ts) ==
      if cs * l * ONE / ts < U64_LIMIT then Ok(cs * l * ONE / ts)
      else if cs * l * ONE * ONE / ts < U128_LIMIT then Err(DoesNotFit)
      else Err(Overflow)
  {
    var p := cs * l;
    MulBelowLimits(cs, l, U64_LIMIT, U64_LIMIT);
    assert 0 <= p < U128_LIMIT by { MulMono(0, cs, l); }
    ShiftExact(p);
    ShiftExact(p * ONE);
    var bits := p * ONE * ONE / ts;
    DivAtLeast(p * ONE * ONE, ts, 0);
    DivAtLeast(p * ONE, ts, 0);
    assert bits / ONE == p * ONE / ts by {
      DivDiv(p * ONE * ONE, ts, ONE);
      DivCancel(p * ONE, ts, ONE);
    }
    DivBounds(bits, ONE);
  }

  lemma CollateralToLiquidityExact(c: u64, cs: u128, ts: Fraction)
    requires 0 < cs
    ensures cs * ONE > 0
    ensures CollateralToLiquidity(c, cs, ts) ==
      if c * ts / (cs * ONE) < U64_LIMIT then Ok(c * ts / (cs * ONE))
      else if c * ts / cs < U128_LIMIT then Err(DoesNotFit)
      else Err(Overflow)
  {
    MulBelowLimits(c, ts, U64_LIMIT, U128_LIMIT);
    MulMono(0, c, ts);
    DivDiv(c * ts, cs, ONE);
    DivBounds(c * ts / cs, ONE);
    DivAtLeast(c * ts, cs * ONE, 0);
  }

  lemma CollateralToLiquidityCeilExact(c: u64, cs: u128, ts: Fraction)
    requires 0 < cs
    ensures cs * ONE > 0
    ensures CollateralToLiquidityCeil(c, cs, ts).Ok? <==> CeilDiv(c * ts, cs * ONE) < U64_LIMIT
    ensures CollateralToLiquidityCeil(c, cs, ts).Ok?
        ==> CollateralToLiquidityCeil(c, cs, ts).value == CeilDiv(c * ts, cs * ONE)
  {
    MulBelowLimits(c, ts, U64_LIMIT, U128_LIMIT);
    MulMono(0, c, ts);
    var bits := CeilDiv(c * ts, cs);
    CeilCeil(c * ts, cs, ONE);
    CeilBounds(bits, ONE);
    DivOfMultiple(CeilDiv(bits, ONE), ONE);
  }
}
