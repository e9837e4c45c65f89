/** A kvault: shares over idle tokens and collateral spread across klend reserves. */
module Kvault {
  import opened Arith
  import opened Outcome
  import opened Fixed
  import opened Checked
  import opened KlendReserve
  import Wad

  const SECONDS_PER_YEAR: nat := 31_556_926

  /** No quote is offered above this deposit. */
  const MAX_QUOTE_DEPOSIT: nat := U64_MAX / 32

  /** Accounts are named by numbers. */
  type Key = nat

  /** The stakes of a farm, and the vault shares behind them. */
  datatype FarmState = FarmState(totalStakeScaled: u128, totalAmount: u64)

  /** Where the wrapper's vault shares are: on record, or idle beside a stake in a farm. */
  datatype Position =
    | Recorded(held: u128)
    | Farmed(fetched: Option<FarmState>, idle: u64, stakeScaled: u128)

  datatype Allocation = Allocation(reserve: Key, weight: u64, cap: u64, collateral: u64)

  datatype KvaultState = KvaultState(
    idle: u64, sharesIssued: u64, crankFeePerReserve: u64,
    performanceFeeBps: u64, managementFeeBps: u64, lastFeeCharge: u64,
    prevAum: Fraction, pendingFees: Fraction,
    minDeposit: u64, minWithdraw: u64, vaultPenalty: u64, vaultPenaltyBps: u64,
    globalPenalty: u64, globalPenaltyBps: u64, depositCap: u64,
    allocations: seq<Allocation>, reserves: seq<(Key, KlendState)>,
    farm: Option<FarmState>, positionShares: u128, cachedAum: Option<Fraction>, cachedMaxDeposit: u64)
  {
    function Penalty(): u64 {
      Max(vaultPenalty, globalPenalty)
    }

    function PenaltyBps(): u64 {
      Max(vaultPenaltyBps, globalPenaltyBps)
    }
  }

  function BpsOf(bps: u64): Result<Fraction> {
    Div(FromNum(bps), FromNum(FULL_BPS))
  }

  /** The first cached reserve under a key. */
  function FindReserve(reserves: seq<(Key, KlendState)>, key: Key): Result<KlendState> {
    if reserves == [] then Err(ReserveNotCached)
    else if reserves[0].0 == key then Ok(reserves[0].1)
    else FindReserve(reserves[1..], key)
  }

  /** The rate of a reserve, accrued to the clock. */
  function RateOf(r: KlendState, clock: Clock): Result<(u128, Fraction)> {
    var accrued :- AccrueInterest(r, clock);
    var total :- TotalSupply(r, accrued);
    Ok(ExchangeRatePair(r.collateralSupply, total))
  }

  function InvestedIn(reserves: seq<(Key, KlendState)>, clock: Clock, a: Allocation): Result<Fraction> {
    var reserve :- FindReserve(reserves, a.reserve);
    var (cs, ts) :- RateOf(reserve, clock);
    CollateralToLiquidityBits(a.collateral, cs, ts)
  }

  function Invested(reserves: seq<(Key, KlendState)>, clock: Clock, allocations: seq<Allocation>): Result<Fraction> {
    if allocations == [] then Ok(0)
    else
      var n := |allocations| - 1;
      var before :- Invested(reserves, clock, allocations[..n]);
      var here :- InvestedIn(reserves, clock, allocations[n]);
      Add(before, here)
  }

  /** An allocation is worth its collateral at the rate of its cached reserve, rounded down to the last bit. */
  lemma InvestedInExact(reserves: seq<(Key, KlendState)>, clock: Clock, a: Allocation)
    requires InvestedIn(reserves, clock, a).Ok?
    ensures FindReserve(reserves, a.reserve).Ok?
    ensures var rate := RateOf(FindReserve(reserves, a.reserve).value, clock);
      && rate.Ok? && rate.value.0 > 0
      && var (cs, ts) := rate.value;
      InvestedIn(reserves, clock, a).value * cs <= a.collateral * ts < (InvestedIn(reserves, clock, a).value + 1) * cs
  {
    hide AccrueInterest, TotalSupply;
    var (cs, ts) := RateOf(FindReserve(reserves, a.reserve).value, clock).value;
    DivBounds(a.collateral * ts, cs);
  }

  method InvestedTotal(reserves: seq<(Key, KlendState)>, clock: Clock,
      allocations: seq<Allocation>) returns (r: Result<Fraction>)
    ensures r.Ok? <==> Invested(reserves, clock, allocations).Ok?
    ensures r.Ok? ==> r == Invested(reserves, clock, allocations)
  {
    hide InvestedIn;
    var total: Fraction := 0;
    for i := 0 to |allocations|
      invariant Invested(reserves, clock, allocations[..i]) == Ok(total)
    {
      assert allocations[..i + 1][..i] == allocations[..i];
      var here := InvestedIn(reserves, clock, allocations[i]);
      var sum := if here.Ok? then Add(total, here.value) else Err(here.error);
      if sum.Err? {
        InvestedFailsOnward(reserves, clock, allocations, i + 1);
        return Err(sum.error);
      }
      total := sum.value;
    }
    assert allocations[..|allocations|] == allocations;
    return Ok(total);
  }

  lemma {:induction false} InvestedFailsOnward(reserves: seq<(Key, KlendState)>, clock: Clock,
      allocations: seq<Allocation>, i: nat)
    requires i <= |allocations| && Invested(reserves, clock, allocations[..i]).Err?
    ensures Invested(reserves, clock, allocations).Err?
    decreases |allocations| - i
  {
    hide InvestedIn;
    if i < |allocations| {
      assert allocations[..i + 1][..i] == allocations[..i];
      InvestedFailsOnward(reserves, clock, allocations, i + 1);
    } else {
      assert allocations[..i] == allocations;
    }
  }

  // ---------------------------------------------------------------- assets under management

  /** The management fee for the time passed, on the last charged AUM. */
  function ManagementCharge(s: KvaultState, seconds: u64): Result<Fraction> {
    if seconds == 0 || s.managementFeeBps == 0 then Ok(0)
    else
      var yearly :- BpsOf(s.managementFeeBps);
      var scaled :- Mul(yearly, FromNum(seconds));
      var fee :- Div(scaled, FromNum(SECONDS_PER_YEAR));
      Mul(s.prevAum, fee)
  }

  /** The performance fee on what was earned since the last charge. */
  function PerformanceCharge(s: KvaultState, preview: Fraction): Result<Fraction> {
    if s.performanceFeeBps == 0 then Ok(0)
    else
      var rate :- BpsOf(s.performanceFeeBps);
      Mul(rate, SatSub(preview, s.prevAum))
  }

  /** Fees still owed, with the new ones capped at what is there beyond the old ones. */
  function ChargedFees(s: KvaultState, clock: Clock, holdings: Fraction): Result<Fraction> {
    if s.lastFeeCharge == 0 then Ok(s.pendingFees)
    else
      var preview := SatSub(holdings, s.pendingFees);
      var management :- ManagementCharge(s, SatSub(clock.Seconds(), s.lastFeeCharge));
      var performance :- PerformanceCharge(s, preview);
      var charged :- Add(management, performance);
      Add(s.pendingFees, Min(charged, preview))
  }

  function Holdings(s: KvaultState, clock: Clock): Result<Fraction> {
    var invested :- Invested(s.reserves, clock, s.allocations);
    Add(FromNum(s.idle), invested)
  }

  function ComputeAum(s: KvaultState, clock: Clock): Result<Fraction> {
    var holdings :- Holdings(s, clock);
    var fees :- ChargedFees(s, clock, holdings);
    if holdings < fees then Err(AumBelowFees) else Ok(holdings - fees)
  }

  function CurrentAum(s: KvaultState, clock: Clock): Result<Fraction> {
    if s.cachedAum.Some? then Ok(s.cachedAum.value) else ComputeAum(s, clock)
  }

  /**
   New fees are capped, so they alone never sink the vault: the AUM fails for fees exactly when the
   holdings do not even cover the fees already pending, and otherwise is between zero and the rest.
   */
  lemma AumFailsOnlyForPendingFees(s: KvaultState, clock: Clock, holdings: Fraction)
    requires Holdings(s, clock) == Ok(holdings) && ChargedFees(s, clock, holdings).Ok?
    ensures ComputeAum(s, clock) == Err(AumBelowFees) <==> holdings < s.pendingFees
    ensures ComputeAum(s, clock).Ok? <==> holdings >= s.pendingFees
    ensures ComputeAum(s, clock).Ok? ==> ComputeAum(s, clock).value <= holdings - s.pendingFees
    ensures ComputeAum(s, clock).Ok? && s.lastFeeCharge != 0 ==>
      var (management, performance) := (ManagementCharge(s, SatSub(clock.Seconds(), s.lastFeeCharge)),
                                        PerformanceCharge(s, holdings - s.pendingFees));
      && management.Ok? && performance.Ok?
      && ComputeAum(s, clock).value == SatSub(holdings - s.pendingFees, management.value + performance.value)
  {
    hide ManagementCharge, PerformanceCharge, Invested;
  }

  lemma BpsExact(bps: u64)
    requires BpsOf(bps).Ok?
    ensures BpsOf(bps).value * FULL_BPS <= bps * ONE < BpsOf(bps).value * FULL_BPS + FULL_BPS
  {
    DivCancel(bps * ONE, FULL_BPS, ONE);
    DivBounds(bps * ONE, FULL_BPS);
  }

  /**
   A performance fee is the rate's part of what was earned since the last charge: never more, and at
   most a rounding less.
   */
  lemma PerformanceWithinRate(s: KvaultState, preview: Fraction)
    requires PerformanceCharge(s, preview).Ok?
    ensures var (fee, earned) := (PerformanceCharge(s, preview).value, SatSub(preview, s.prevAum));
      fee * FULL_BPS <= s.performanceFeeBps * earned <= (fee + 1) * FULL_BPS + earned / ONE * FULL_BPS + FULL_BPS
  {
    if s.performanceFeeBps > 0 {
      var rate, earned := BpsOf(s.performanceFeeBps).value, SatSub(preview, s.prevAum);
      BpsExact(s.performanceFeeBps);
      hide BpsOf;
      DivBounds(rate * earned, ONE);
      DivBounds(earned, ONE);
      PartOf(rate, s.performanceFeeBps, earned, PerformanceCharge(s, preview).value, earned / ONE);
    }
  }

  lemma PartOf(rate: nat, bps: nat, earned: nat, fee: nat, whole: nat)
    requires rate * FULL_BPS <= bps * ONE < rate * FULL_BPS + FULL_BPS
    requires fee * ONE <= rate * earned < fee * ONE + ONE
    requires whole * ONE <= earned < whole * ONE + ONE
    ensures fee * FULL_BPS <= bps * earned <= (fee + 1) * FULL_BPS + whole * FULL_BPS + FULL_BPS
  {
    MulMono(rate * FULL_BPS, bps * ONE, earned);
    MulMono(bps * ONE, rate * FULL_BPS + FULL_BPS, earned);
    assert rate * FULL_BPS * earned == rate * earned * FULL_BPS;
    assert bps * ONE * earned == bps * earned * ONE;
    assert (rate * FULL_BPS + FULL_BPS) * earned == rate * earned * FULL_BPS + earned * FULL_BPS;
    MulCancel(fee * FULL_BPS, bps * earned, ONE);
    MulCancel(bps * earned, (fee + 1) * FULL_BPS + whole * FULL_BPS + FULL_BPS, ONE);
  }

  /** A management fee is at most the yearly rate on the last charged AUM for the time passed. */
  lemma ManagementWithinRate(s: KvaultState, seconds: u64)
    requires ManagementCharge(s, seconds).Ok?
    ensures ManagementCharge(s, seconds).value * (FULL_BPS * SECONDS_PER_YEAR)
         <= s.prevAum * (s.managementFeeBps * seconds)
  {
    if seconds > 0 && s.managementFeeBps > 0 {
      var yearly := BpsOf(s.managementFeeBps).value;
      BpsExact(s.managementFeeBps);
      hide BpsOf;
      assert yearly * (seconds * ONE) == yearly * seconds * ONE;
      DivOfMultiple(yearly * seconds, ONE);
      var scaled := Mul(yearly, FromNum(seconds)).value;
      DivCancel(scaled, SECONDS_PER_YEAR, ONE);
      var fee := Div(scaled, FromNum(SECONDS_PER_YEAR)).value;
      DivBounds(scaled, SECONDS_PER_YEAR);
      DivBounds(s.prevAum * fee, ONE);
      ScaledDown(ManagementCharge(s, seconds).value, s.prevAum, fee, yearly, seconds, s.managementFeeBps);
    } else {
      MulMono(0, s.managementFeeBps, seconds);
      MulMono(0, s.prevAum, s.managementFeeBps * seconds);
    }
  }

  /** And at least that, but for roundings of the rate, of the time and of the fee. */
  lemma ManagementReachesRate(s: KvaultState, seconds: u64)
    requires ManagementCharge(s, seconds).Ok?
    ensures s.prevAum * (s.managementFeeBps * seconds) * ONE
         <= FULL_BPS * (SECONDS_PER_YEAR * (ManagementCharge(s, seconds).value + 1) * ONE
                        + s.prevAum * (SECONDS_PER_YEAR + seconds))
  {
    if seconds > 0 && s.managementFeeBps > 0 {
      var yearly := BpsOf(s.managementFeeBps).value;
      BpsExact(s.managementFeeBps);
      hide BpsOf;
      assert yearly * (seconds * ONE) == yearly * seconds * ONE;
      DivOfMultiple(yearly * seconds, ONE);
      var scaled := Mul(yearly, FromNum(seconds)).value;
      DivCancel(scaled, SECONDS_PER_YEAR, ONE);
      var fee := Div(scaled, FromNum(SECONDS_PER_YEAR)).value;
      DivBounds(scaled, SECONDS_PER_YEAR);
      DivBounds(s.prevAum * fee, ONE);
      ScaledUp(ManagementCharge(s, seconds).value, s.prevAum, fee, yearly, seconds, s.managementFeeBps);
    } else {
      MulMono(0, s.prevAum, SECONDS_PER_YEAR + seconds);
      assert s.managementFeeBps * seconds == 0;
    }
  }

  lemma ScaledUp(charge: nat, aum: nat, fee: nat, yearly: nat, seconds: nat, bps: nat)
    requires aum * fee < charge * ONE + ONE && yearly * seconds < fee * SECONDS_PER_YEAR + SECONDS_PER_YEAR
    requires bps * ONE < yearly * FULL_BPS + FULL_BPS
    ensures aum * (bps * seconds) * ONE
         <= FULL_BPS * (SECONDS_PER_YEAR * (charge + 1) * ONE + aum * (SECONDS_PER_YEAR + seconds))
  {
    RateUp(bps, yearly, seconds);
    ChargeUp(aum, fee, charge, bps * seconds * ONE, seconds);
    assert aum * (bps * seconds * ONE) == aum * (bps * seconds) * ONE;
  }

  lemma RateUp(bps: nat, yearly: nat, seconds: nat)
    requires bps * ONE < yearly * FULL_BPS + FULL_BPS
    ensures 0 <= bps * seconds * ONE <= (yearly * seconds + seconds) * FULL_BPS
  {
    MulMono(bps * ONE, yearly * FULL_BPS + FULL_BPS, seconds);
    MulMono(0, bps, seconds);
    assert bps * ONE * seconds == bps * seconds * ONE;
    assert (yearly * FULL_BPS + FULL_BPS) * seconds == (yearly * seconds + seconds) * FULL_BPS;
  }

  lemma ChargeUp(aum: nat, fee: nat, charge: nat, rate: nat, seconds: nat)
    requires aum * fee <= (charge + 1) * ONE && rate <= (fee * SECONDS_PER_YEAR + SECONDS_PER_YEAR + seconds) * FULL_BPS
    ensures aum * rate <= FULL_BPS * (SECONDS_PER_YEAR * (charge + 1) * ONE + aum * (SECONDS_PER_YEAR + seconds))
  {
    MulMono(rate, (fee * SECONDS_PER_YEAR + SECONDS_PER_YEAR + seconds) * FULL_BPS, aum);
    var earned, rest := aum * fee, aum * (SECONDS_PER_YEAR + seconds);
    assert aum * ((fee * SECONDS_PER_YEAR + SECONDS_PER_YEAR + seconds) * FULL_BPS)
        == FULL_BPS * (SECONDS_PER_YEAR * earned + rest);
  }

  lemma ScaledDown(charge: nat, aum: nat, fee: nat, yearly: nat, seconds: nat, bps: nat)
    requires charge * ONE <= aum * fee && fee * SECONDS_PER_YEAR <= yearly * seconds && yearly * FULL_BPS <= bps * ONE
    ensures charge * (FULL_BPS * SECONDS_PER_YEAR) <= aum * (bps * seconds)
  {
    MulMono(charge * ONE, aum * fee, SECONDS_PER_YEAR);
    assert aum * fee * SECONDS_PER_YEAR == aum * (fee * SECONDS_PER_YEAR);
    MulMono(fee * SECONDS_PER_YEAR, yearly * seconds, aum);
    MulMono(yearly * FULL_BPS, bps * ONE, seconds);
    assert yearly * FULL_BPS * seconds == yearly * seconds * FULL_BPS;
    assert bps * ONE * seconds == bps * seconds * ONE;
    MulMono(yearly * seconds * FULL_BPS, bps * seconds * ONE, aum);
    assert aum * (yearly * seconds * FULL_BPS) == aum * (yearly * seconds) * FULL_BPS;
    assert aum * (bps * seconds * ONE) == aum * (bps * seconds) * ONE;
    MulCancel(charge * (FULL_BPS * SECONDS_PER_YEAR), aum * (bps * seconds), ONE);
  }

  // ---------------------------------------------------------------- caching

  /** Every cached reserve brought up to date. */
  function PreAccrued(reserves: seq<(Key, KlendState)>, clock: Clock): Result<seq<(Key, KlendState)>> {
    if reserves == [] then Ok([])
    else
      var n := |reserves| - 1;
      var before :- PreAccrued(reserves[..n], clock);
      var accrued :- AccrueInterest(reserves[n].1, clock);
      Ok(before + [(reserves[n].0, WithAccrued(reserves[n].1, accrued, clock))])
  }

  method PreAccrueAll(a: array<(Key, KlendState)>, clock: Clock) returns (r: Result<()>)
    modifies a
    ensures r.Ok? <==> PreAccrued(old(a[..]), clock).Ok?
    ensures r.Ok? ==> a[..] == PreAccrued(old(a[..]), clock).value
  {
    hide AccrueInterest, WithAccrued;
    ghost var was := a[..];
    for i := 0 to a.Length
      invariant PreAccrued(was[..i], clock) == Ok(a[..i])
      invariant forall k :: i <= k < a.Length ==> a[k] == was[k]
    {
      assert was[..i + 1][..i] == was[..i];
      var accrued := AccrueInterest(a[i].1, clock);
      if accrued.Err? {
        PreAccruedFailsOnward(was, clock, i + 1);
        return Err(accrued.error);
      }
      ghost var done := a[..i];
      a[i] := (a[i].0, WithAccrued(a[i].1, accrued.value, clock));
      assert a[..i + 1] == done + [a[i]];
    }
    assert was[..a.Length] == was && a[..a.Length] == a[..];
    return Ok(());
  }

  lemma {:induction false} PreAccruedFailsOnward(reserves: seq<(Key, KlendState)>, clock: Clock, i: nat)
    requires i <= |reserves| && PreAccrued(reserves[..i], clock).Err?
    ensures PreAccrued(reserves, clock).Err?
    decreases |reserves| - i
  {
    hide AccrueInterest;
    if i < |reserves| {
      assert reserves[..i + 1][..i] == reserves[..i];
      PreAccruedFailsOnward(reserves, clock, i + 1);
    } else {
      assert reserves[..i] == reserves;
    }
  }

  lemma SameRateAfterAccrual(r: KlendState, clock: Clock, a: Accrued)
    requires AccrueInterest(r, clock) == Ok(a)
    ensures RateOf(WithAccrued(r, a, clock), clock) == RateOf(r, clock)
  {
    AccrualIdempotent(r, clock, a);
    hide AccrueInterest;
  }

  lemma {:induction false} FindInAppended(front: seq<(Key, KlendState)>, last: (Key, KlendState), key: Key)
    ensures FindReserve(front + [last], key)
         == if FindReserve(front, key).Ok? then FindReserve(front, key)
            else if last.0 == key then Ok(last.1) else Err(ReserveNotCached)
  {
    if front != [] {
      FindInAppended(front[1..], last, key);
      assert (front + [last])[1..] == front[1..] + [last];
    }
  }

  /** Accruing all reserves ahead of time finds the same reserve under every key, at the same rate. */
  lemma {:induction false} CachedRate(reserves: seq<(Key, KlendState)>, clock: Clock, key: Key)
    requires PreAccrued(reserves, clock).Ok?
    ensures var cached := PreAccrued(reserves, clock).value;
      && (FindReserve(cached, key).Ok? <==> FindReserve(reserves, key).Ok?)
      && (FindReserve(reserves, key).Err? ==> FindReserve(cached, key) == FindReserve(reserves, key))
      && (FindReserve(reserves, key).Ok? ==>
            RateOf(FindReserve(cached, key).value, clock) == RateOf(FindReserve(reserves, key).value, clock))
  {
    hide AccrueInterest, RateOf, WithAccrued;
    if reserves != [] {
      var n := |reserves| - 1;
      var accrued := AccrueInterest(reserves[n].1, clock).value;
      CachedRate(reserves[..n], clock, key);
      FindInAppended(reserves[..n], reserves[n], key);
      assert reserves == reserves[..n] + [reserves[n]];
      FindInAppended(PreAccrued(reserves[..n], clock).value,
                     (reserves[n].0, WithAccrued(reserves[n].1, accrued, clock)), key);
      SameRateAfterAccrual(reserves[n].1, clock, accrued);
    }
  }

  lemma {:induction false} CachedInvested(reserves: seq<(Key, KlendState)>, clock: Clock, allocations: seq<Allocation>)
    requires PreAccrued(reserves, clock).Ok?
    ensures Invested(PreAccrued(reserves, clock).value, clock, allocations) == Invested(reserves, clock, allocations)
  {
    hide RateOf, PreAccrued;
    if allocations != [] {
      var n := |allocations| - 1;
      CachedInvested(reserves, clock, allocations[..n]);
      CachedRate(reserves, clock, allocations[n].reserve);
    }
  }

  /** What the cap leaves room for, given the AUM if it could be computed. */
  function MaxDeposit(depositCap: u64, aum: Option<Fraction>): Result<u64> {
    if depositCap == 0 then Ok(MAX_QUOTE_DEPOSIT)
    else
      var whole: nat :- if aum.Some? then Ceil(aum.value) else Ok(U64_MAX);
      Ok(Min(SatSub(depositCap, Min(whole, U64_MAX)), MAX_QUOTE_DEPOSIT))
  }

  /** The reserves to keep: freshly fetched ones, else the copy cached before. */
  function Refetched(previous: seq<(Key, KlendState)>, allocations: seq<Allocation>,
      fetched: seq<Option<KlendState>>): seq<(Key, KlendState)>
    requires |fetched| == |allocations|
  {
    if allocations == [] then []
    else
      var n := |allocations| - 1;
      var key := allocations[n].reserve;
      var kept := Refetched(previous, allocations[..n], fetched[..n]);
      if fetched[n].Some? then kept + [(key, fetched[n].value)]
      else if FindReserve(previous, key).Ok? then kept + [(key, FindReserve(previous, key).value)]
      else kept
  }

  // ---------------------------------------------------------------- the position

  /** The vault shares behind a stake, in three checked steps. */
  function StakeToShares(stake: u128, farm: FarmState): Result<u64> {
    if stake == 0 then Ok(0)
    else if farm.totalStakeScaled == 0 then Ok(farm.totalAmount)
    else
      var wads :- FitU256(stake * Wad.WAD);
      var product :- FitU256(wads * farm.totalAmount);
      var scaled := Quotient(product, farm.totalStakeScaled);
      var _ :- Require(scaled < U192_LIMIT, Overflow);
      FitU64(Quotient(scaled, Wad.WAD))
  }

  /** The three steps are one floor: the stake's part of the farm. */
  lemma StakeExact(stake: u128, farm: FarmState)
    requires farm.totalStakeScaled > 0
    ensures StakeToShares(stake, farm).Ok? ==>
      StakeToShares(stake, farm).value == Quotient(stake * farm.totalAmount, farm.totalStakeScaled)
  {
    MulMono(0, stake, farm.totalAmount);
    var p := stake * farm.totalAmount;
    assert stake * Wad.WAD * farm.totalAmount == p * Wad.WAD;
    DivDiv(p * Wad.WAD, farm.totalStakeScaled, Wad.WAD);
    DivCancel(p, farm.totalStakeScaled, Wad.WAD);
    DivAtMost(0, farm.totalStakeScaled, 0);
    DivAtLeast(0, farm.totalStakeScaled, 0);
  }

  /** The farm to go by: freshly fetched, else the copy cached before. */
  function FarmAfter(was: KvaultState, decoded: KvaultState, position: Position): Option<FarmState> {
    match position
    case Recorded(_) => decoded.farm
    case Farmed(fetched, _, _) => if fetched.Some? then fetched else was.farm
  }

  function SharesAt(farm: Option<FarmState>, position: Position): Result<u128> {
    match position
    case Recorded(held) => Ok(held)
    case Farmed(_, idle, stake) =>
      var f: FarmState :- if farm.Some? then Ok(farm.value) else Err(FarmNotCached);
      var staked :- StakeToShares(stake, f);
      FitU128(idle + staked)
  }

  /** The position is what is on record, or what is idle and the floored part of the farm that the stake has. */
  lemma PositionExact(farm: Option<FarmState>, position: Position)
    requires SharesAt(farm, position).Ok?
    ensures position.Recorded? ==> SharesAt(farm, position).value == position.held
    ensures position.Farmed? ==>
      && farm.Some? && SharesAt(farm, position).value >= position.idle
      && var (shares, f) := (SharesAt(farm, position).value - position.idle, farm.value);
      if position.stakeScaled == 0 then shares == 0
      else if f.totalStakeScaled == 0 then shares == f.totalAmount
      else shares * f.totalStakeScaled <= position.stakeScaled * f.totalAmount < (shares + 1) * f.totalStakeScaled
  {
    if position.Farmed? && farm.value.totalStakeScaled > 0 {
      StakeExact(position.stakeScaled, farm.value);
      MulMono(0, position.stakeScaled, farm.value.totalAmount);
      DivBounds(position.stakeScaled * farm.value.totalAmount, farm.value.totalStakeScaled);
      hide Quotient;
    }
  }

  /** No two allocations of the vault share a reserve. */
  ghost predicate Distinct(allocations: seq<Allocation>) {
    forall i, j :: 0 <= i < j < |allocations| ==> allocations[i].reserve != allocations[j].reserve
  }

  /** A reserve is kept under a key exactly as fetched for it, or as cached before when it could not be fetched. */
  lemma {:induction false} RefetchedFinds(previous: seq<(Key, KlendState)>, allocations: seq<Allocation>,
      fetched: seq<Option<KlendState>>, key: Key)
    requires |fetched| == |allocations| && Distinct(allocations)
    ensures (forall i :: 0 <= i < |allocations| ==> allocations[i].reserve != key) ==>
      FindReserve(Refetched(previous, allocations, fetched), key) == Err(ReserveNotCached)
    ensures forall i :: 0 <= i < |allocations| && allocations[i].reserve == key ==>
      FindReserve(Refetched(previous, allocations, fetched), key)
        == if fetched[i].Some? then Ok(fetched[i].value) else FindReserve(previous, key)
  {
    if allocations != [] {
      var n := |allocations| - 1;
      RefetchedFinds(previous, allocations[..n], fetched[..n], key);
      NotFoundOtherwise(previous, key);
      var kept := Refetched(previous, allocations[..n], fetched[..n]);
      var last := allocations[n].reserve;
      if fetched[n].Some? {
        FindInAppended(kept, (last, fetched[n].value), key);
      } else if FindReserve(previous, last).Ok? {
        FindInAppended(kept, (last, FindReserve(previous, last).value), key);
      }
      hide FindReserve;
      forall i | 0 <= i < |allocations| && allocations[i].reserve == key
        ensures FindReserve(Refetched(previous, allocations, fetched), key)
             == if fetched[i].Some? then Ok(fetched[i].value) else FindReserve(previous, key)
      {
        if i == n {
          assert forall j :: 0 <= j < n ==> allocations[..n][j].reserve != key;
        } else {
          assert allocations[..n][i].reserve == key && last != key;
        }
      }
      if forall i :: 0 <= i < |allocations| ==> allocations[i].reserve != key {
        assert forall j :: 0 <= j < n ==> allocations[..n][j].reserve != key;
      }
    }
  }

  lemma {:induction false} NotFoundOtherwise(reserves: seq<(Key, KlendState)>, key: Key)
    ensures FindReserve(reserves, key).Err? ==> FindReserve(reserves, key) == Err(ReserveNotCached)
  {
    if reserves != [] {
      NotFoundOtherwise(reserves[1..], key);
    }
  }

  /** The decoded vault with raw reserves, as it stands before anything is accrued or cached. */
  function Raw(was: KvaultState, decoded: KvaultState, fetched: seq<Option<KlendState>>,
      penalties: Option<(u64, u64)>, farm: Option<FarmState>, shares: u128): KvaultState
    requires |fetched| == |decoded.allocations|
  {
    decoded.(
      globalPenalty := if penalties.Some? then penalties.value.0 else was.globalPenalty,
      globalPenaltyBps := if penalties.Some? then penalties.value.1 else was.globalPenaltyBps,
      reserves := Refetched(was.reserves, decoded.allocations, fetched),
      farm := farm, positionShares := shares, cachedAum := None)
  }

  /** The vault after an update against the same vault with raw reserves and nothing cached. */
  ghost predicate CachedFrom(ready: KvaultState, raw: KvaultState, clock: Clock) {
    && PreAccrued(raw.reserves, clock).Ok? && raw.cachedAum == None
    && var accrued := raw.(reserves := PreAccrued(raw.reserves, clock).value);
       ready == accrued.(cachedAum := match ComputeAum(accrued, clock) case Ok(v) => Some(v) case Err(_) => None)
  }

  lemma AumIgnoresCaches(s: KvaultState, t: KvaultState, clock: Clock)
    requires t == s.(reserves := t.reserves, cachedAum := t.cachedAum, cachedMaxDeposit := t.cachedMaxDeposit)
    requires Invested(s.reserves, clock, s.allocations) == Invested(t.reserves, clock, t.allocations)
    ensures ComputeAum(s, clock) == ComputeAum(t, clock)
  {
    hide Invested;
  }

  class LiveVault {
    var state: KvaultState
    var clock: Clock

    constructor (s: KvaultState, now: Clock)
      ensures state == s && clock == now
    {
      state, clock := s, now;
    }

    /**
     Takes over a freshly decoded vault: keeps or replaces reserves, accrues them, caches the AUM. The clock
     is taken over first, so a failed update leaves the new clock over the old vault.
     */
    method Update(decoded: KvaultState, fetched: seq<Option<KlendState>>, penalties: Option<(u64, u64)>,
        position: Position, now: Clock)
      returns (r: Result<()>)
      requires |fetched| == |decoded.allocations|
      modifies this
      ensures clock == now
      ensures r.Err? ==> state == old(state)
      ensures r.Ok? ==>
        var farm := FarmAfter(old(state), decoded, position);
        && SharesAt(farm, position).Ok?
        && var raw := Raw(old(state), decoded, fetched, penalties, farm, SharesAt(farm, position).value);
        && PreAccrued(raw.reserves, clock).Ok?
        && var ready := raw.(reserves := PreAccrued(raw.reserves, clock).value);
        && var aum := match ComputeAum(ready, clock) case Ok(v) => Some(v) case Err(_) => None;
        && MaxDeposit(decoded.depositCap, aum).Ok?
        && state == ready.(cachedAum := aum, cachedMaxDeposit := MaxDeposit(decoded.depositCap, aum).value)
        && CachedFrom(state, raw.(cachedMaxDeposit := state.cachedMaxDeposit), clock)
    {
      hide ComputeAum, PreAccrued, MaxDeposit, FindReserve, StakeToShares;
      clock := now;
      var next := decoded.(globalPenalty := state.globalPenalty, globalPenaltyBps := state.globalPenaltyBps);
      if penalties.Some? {
        next := next.(globalPenalty := penalties.value.0, globalPenaltyBps := penalties.value.1);
      }
      var reserves: seq<(Key, KlendState)> := [];
      for i := 0 to |fetched|
        invariant reserves == Refetched(state.reserves, decoded.allocations[..i], fetched[..i])
      {
        assert decoded.allocations[..i + 1][..i] == decoded.allocations[..i];
        assert fetched[..i + 1][..i] == fetched[..i];
        var key := decoded.allocations[i].reserve;
        if fetched[i].Some? {
          reserves := reserves + [(key, fetched[i].value)];
        } else {
          var previous := FindReserve(state.reserves, key);
          if previous.Ok? {
            reserves := reserves + [(key, previous.value)];
          }
        }
      }
      assert decoded.allocations[..|fetched|] == decoded.allocations && fetched[..|fetched|] == fetched;
      var live := new (Key, KlendState)[|reserves|](i requires 0 <= i < |reserves| => reserves[i]);
      assert live[..] == reserves;
      var accrued := PreAccrueAll(live, clock);
      if accrued.Err? {
        return accrued;
      }
      next := next.(reserves := live[..]);
      next := next.(farm := FarmAfter(state, decoded, position));
      var shares := SharesAt(next.farm, position);
      if shares.Err? {
        return Err(shares.error);
      }
      next := next.(positionShares := shares.value, cachedAum := None);
      var aum := match ComputeAum(next, clock) case Ok(v) => Some(v) case Err(_) => None;
      var room := MaxDeposit(next.depositCap, aum);
      if room.Err? {
        return Err(room.error);
      }
      AumIgnoresCaches(next, next.(cachedMaxDeposit := room.value), clock);
      state := next.(cachedAum := aum, cachedMaxDeposit := room.value);
      return Ok(());
    }
  }

  /** What the cached room is: what the cap leaves above the AUM in whole tokens, up to the most ever quoted. */
  lemma MaxDepositExact(depositCap: u64, aum: Fraction)
    requires MaxDeposit(depositCap, Some(aum)).Ok?
    ensures var room := MaxDeposit(depositCap, Some(aum)).value;
      && (depositCap == 0 ==> room == MAX_QUOTE_DEPOSIT)
      && (depositCap > 0 ==> room <= MAX_QUOTE_DEPOSIT)
      && (depositCap > 0 && room < MAX_QUOTE_DEPOSIT ==> (depositCap - room - 1) * ONE < aum)
    ensures depositCap > 0 ==> MaxDeposit(depositCap, None) == Ok(0)
  {
    CeilBounds(aum, ONE);
    DivOfMultiple(CeilDiv(aum, ONE), ONE);
  }

  /** The cached room never lets a deposit lift the vault's whole AUM above its cap. */
  lemma MaxDepositWithinCap(depositCap: u64, aum: Fraction)
    requires depositCap > 0 && MaxDeposit(depositCap, Some(aum)).Ok?
    ensures var room := MaxDeposit(depositCap, Some(aum)).value;
      room == 0 || room * ONE + aum <= depositCap * ONE
  {
    CeilBounds(aum, ONE);
    DivOfMultiple(CeilDiv(aum, ONE), ONE);
  }
}
