/** Deposit and withdrawal quotes of a wrapper vault over a kvault. */
module KvaultQuote {
  import opened Arith
  import opened Outcome
  import opened Fixed
  import opened Checked
  import opened WrapperShares
  import opened KlendReserve
  import opened Kvault

  /** `f * mult / div`, rounded down to the last fractional bit. */
  function Ratio(f: Fraction, mult: u64, div: u64): Result<Fraction> {
    if div == 0 then Err(DivideByZero)
    else
      var product :- FitU256(f * mult);
      FitU128(Quotient(product, div))
  }

  /** Vault shares for an amount, at an AUM rounded up to whole tokens. */
  function SharesToMint(aum: Fraction, amount: u64, sharesIssued: u64): Result<u64> {
    if sharesIssued == 0 then Ok(amount)
    else if aum == 0 then Err(AumZero)
    else
      var whole :- Ceil(aum);
      var price :- FitU64(whole);
      var shares :- Ratio(FromNum(sharesIssued), amount, price);
      FitU64(Floor(shares))
  }

  function Fundable(allocations: seq<Allocation>): nat {
    if allocations == [] then 0
    else Fundable(allocations[1..]) + if allocations[0].weight > 0 && allocations[0].cap > 0 then 1 else 0
  }

  datatype DepositPlan = DepositPlan(net: u64, user: u64, shares: u64, minted: u64)

  datatype Purchase = Purchase(net: u64, user: u64, shares: u64)

  /** The vault shares a deposit buys, before any wrapper shares are minted for them. */
  function PlanPurchase(s: KvaultState, clock: Clock, v: Vault, protocolFeeBps: u16, amount: u64): Result<Purchase> {
    var _ :- Require(amount != 0, ZeroAmount);
    var net :- Checked.NetAmount(amount, protocolFeeBps, v.creatorFeeBps);
    var _ :- Require(net != 0, NetZero);
    var crank :- FitU64(Fundable(s.allocations) * s.crankFeePerReserve);
    var user: u64 :- Sub(net, crank);
    var _ :- Require(user >= s.minDeposit, BelowMinimum);
    var _ :- Require(user <= s.cachedMaxDeposit, AboveCapacity);
    var aum :- CurrentAum(s, clock);
    var shares :- SharesToMint(aum, user, s.sharesIssued);
    var _ :- Require(shares != 0, CollateralZero);
    Ok(Purchase(net, user, shares))
  }

  function PlanDeposit(s: KvaultState, clock: Clock, v: Vault, protocolFeeBps: u16, amount: u64): Result<DepositPlan> {
    var bought :- PlanPurchase(s, clock, v, protocolFeeBps, amount);
    var minted :- MintAgainst(s.positionShares, v, bought.shares, bought.net);
    Ok(DepositPlan(bought.net, bought.user, bought.shares, minted))
  }

  function QuoteDeposit(s: KvaultState, clock: Clock, v: Vault, protocolFeeBps: u16, amount: u64): Result<u64> {
    var plan :- PlanDeposit(s, clock, v, protocolFeeBps, amount);
    Ok(plan.minted)
  }

  /** Wrapper shares for vault shares; the guard compares the position with the recorded holding. */
  function MintAgainst(position: u128, v: Vault, shares: u64, net: u64): Result<u64> {
    var minted :- SharesFor(shares, v.(held := position), net);
    var _ :- Require(minted != 0, MintZero);
    var newHeld :- FitU128(v.held + shares);
    var newSupply :- FitU64(v.supply + minted);
    var _ :- RequireNoValuePerShareLoss(position, v.supply, newHeld, newSupply);
    Ok(minted)
  }

  /** The allocation with the most collateral, the last one among equals. */
  function Primary(allocations: seq<Allocation>): Option<Allocation> {
    if allocations == [] then None
    else
      var n := |allocations| - 1;
      match Primary(allocations[..n])
      case None => Some(allocations[n])
      case Some(best) => if allocations[n].collateral >= best.collateral then Some(allocations[n]) else Some(best)
  }

  datatype Disinvestment = Disinvestment(sendFloor: u64, collateral: u64, actual: u64)

  function Frac(f: Fraction): nat {
    f % ONE
  }

  /** Collateral to redeem from one reserve, and what the user is promised from it. */
  function Disinvest(held: u64, cs: u128, ts: Fraction, wanted: u64): Result<Disinvestment> {
    var inReserve :- CollateralToLiquidityBits(held, cs, ts);
    var send: Fraction := Min(inReserve, FromNum(wanted));
    if send == 0 then Ok(Disinvestment(0, 0, 0))
    else
      var sendFloor :- FitU64(Floor(send));
      var needed :- LiquidityToCollateralCeil(sendFloor, cs, ts);
      var collateral := Min(needed, held);
      var worth :- CollateralToLiquidityBits(collateral, cs, ts);
      var roundingError := if Frac(worth) > 0 && Frac(worth) > Frac(send) then 1 else 0;
      Ok(Disinvestment(sendFloor, collateral, SatSub(sendFloor, roundingError)))
  }

  /** The tokens behind vault shares, before any penalty. */
  function GrossFor(sharesIssued: u64, aum: Fraction, shares: u64): Result<u64> {
    if shares == sharesIssued then FitU64(Floor(aum))
    else
      var full :- Ratio(aum, shares, sharesIssued);
      FitU64(Floor(full))
  }

  function PenaltyOn(bps: u64, least: u64, gross: u64): Result<u64> {
    var byRate :- FitU64(CeilDiv(gross * bps, FULL_BPS));
    Ok(Max(byRate, least))
  }

  datatype Payout = Payout(shares: u64, gross: u64, penalty: u64, paid: u64)

  /** The exchange rate of the cached reserve under a key. */
  function CachedRateOf(reserves: seq<(Key, KlendState)>, key: Key, clock: Clock): Result<(u128, Fraction)> {
    var reserve :- FindReserve(reserves, key);
    RateOf(reserve, clock)
  }

  /** The collateral to draw on, with its reserve's rate. */
  function Source(s: KvaultState, clock: Clock): Result<(u64, u128, Fraction)> {
    match Primary(s.allocations)
    case None => Err(ReserveNotCached)
    case Some(primary) =>
      var (cs, ts) :- CachedRateOf(s.reserves, primary.reserve, clock);
      Ok((primary.collateral, cs, ts))
  }

  /** Idle tokens first, the rest from the primary allocation. */
  function PayFrom(idle: u64, source: Result<(u64, u128, Fraction)>, due: u64): Result<u64> {
    if due <= idle then Ok(due)
    else
      var (held, cs, ts) :- source;
      var plan :- Disinvest(held, cs, ts, due - idle);
      FitU64(idle + plan.actual)
  }

  /** What a withdrawal redeems and pays, before the guard looks at it. */
  function PlanRedemption(s: KvaultState, clock: Clock, v: Vault, amount: u64): Result<Payout> {
    var _ :- Require(amount != 0, ZeroAmount);
    var _ :- Require(amount <= v.supply, BurnExceedsSupply);
    var _ :- Require(s.positionShares != 0, NoIntermediate);
    var shares :- TokensFor(amount, v.(held := s.positionShares));
    var _ :- Require(shares != 0, RedeemZero);
    var aum :- CurrentAum(s, clock);
    var _ :- Require(aum != 0, AumZero);
    PayoutFor(s, Source(s, clock), aum, shares)
  }

  function PlanWithdraw(s: KvaultState, clock: Clock, v: Vault, amount: u64): Result<Payout> {
    var plan :- PlanRedemption(s, clock, v, amount);
    var _ :- BurnAgainst(s.positionShares, v, plan.shares, amount);
    Ok(plan)
  }

  /** What redeeming vault shares pays after the penalty, drawing on `source` for what is not idle. */
  function PayoutFor(s: KvaultState, source: Result<(u64, u128, Fraction)>, aum: Fraction, shares: u64): Result<Payout> {
    var gross :- GrossFor(s.sharesIssued, aum, shares);
    var _ :- Require(gross != 0, TotalZero);
    var penalty :- PenaltyOn(s.PenaltyBps(), s.Penalty(), gross);
    var _ :- Require(penalty < gross, PenaltyTooLarge);
    var paid :- PayFrom(s.idle, source, gross - penalty);
    var _ :- Require(paid != 0, FinalZero);
    var _ :- Require(paid > s.minWithdraw, BelowMinimum);
    Ok(Payout(shares, gross, penalty, paid))
  }

  function BurnAgainst(position: u128, v: Vault, shares: u64, amount: u64): Result<()> {
    var newHeld: u128 :- Sub(v.held, shares);
    var newSupply: u64 :- Sub(v.supply, amount);
    RequireNoValuePerShareLoss(position, v.supply, newHeld, newSupply)
  }

  function QuoteWithdraw(s: KvaultState, clock: Clock, v: Vault, amount: u64): Result<u64> {
    var plan :- PlanWithdraw(s, clock, v, amount);
    Ok(plan.paid)
  }

  // ---------------------------------------------------------------- crank funds

  /** The allocations that a deposit pays crank funds for: those with a weight and a cap. */
  ghost function FundableAt(allocations: seq<Allocation>): set<nat> {
    set i: nat | i < |allocations| && allocations[i].weight > 0 && allocations[i].cap > 0
  }

  lemma {:induction false} FundableAppend(allocations: seq<Allocation>, last: Allocation)
    ensures Fundable(allocations + [last])
         == Fundable(allocations) + if last.weight > 0 && last.cap > 0 then 1 else 0
  {
    if allocations != [] {
      FundableAppend(allocations[1..], last);
      assert (allocations + [last])[1..] == allocations[1..] + [last];
    }
  }

  /** Each of them is counted once. */
  lemma {:induction false} FundableCounts(allocations: seq<Allocation>)
    ensures Fundable(allocations) == |FundableAt(allocations)|
  {
    if allocations != [] {
      var n := |allocations| - 1;
      FundableCounts(allocations[..n]);
      FundableAppend(allocations[..n], allocations[n]);
      assert allocations == allocations[..n] + [allocations[n]];
      if allocations[n].weight > 0 && allocations[n].cap > 0 {
        assert FundableAt(allocations) == FundableAt(allocations[..n]) + {n};
      } else {
        assert FundableAt(allocations) == FundableAt(allocations[..n]);
      }
    }
  }

  // ---------------------------------------------------------------- disinvesting

  /** The primary allocation holds at least as much as every other one. */
  lemma {:induction false} PrimaryIsLargest(allocations: seq<Allocation>)
    ensures Primary(allocations).None? <==> allocations == []
    ensures Primary(allocations).Some? ==>
      && Primary(allocations).value in allocations
      && forall a :: a in allocations ==> a.collateral <= Primary(allocations).value.collateral
  {
    if allocations != [] {
      var n := |allocations| - 1;
      PrimaryIsLargest(allocations[..n]);
      assert allocations == allocations[..n] + [allocations[n]];
    }
  }

  /** Among equals it is the last. */
  lemma {:induction false} PrimaryIsLast(allocations: seq<Allocation>) returns (i: nat)
    requires allocations != []
    ensures i < |allocations| && Primary(allocations) == Some(allocations[i])
    ensures forall j :: i < j < |allocations| ==> allocations[j].collateral < allocations[i].collateral
  {
    var n := |allocations| - 1;
    i := n;
    if n > 0 {
      var k := PrimaryIsLast(allocations[..n]);
      if allocations[n].collateral < allocations[k].collateral {
        i := k;
        assert forall j :: k < j < n ==> allocations[..n][j] == allocations[j];
      }
    }
  }

  lemma CeilCovers(liquidity: u64, cs: nat, ts: nat, needed: nat)
    requires cs > 0 && ts > 0 && needed == CeilDiv(liquidity * cs * ONE, ts)
    ensures liquidity * ONE <= needed * ts / cs
  {
    CeilBounds(liquidity * cs * ONE, ts);
    assert liquidity * cs * ONE == liquidity * ONE * cs;
    DivAtLeast(needed * ts, cs, liquidity * ONE);
  }

  lemma NeededExact(liquidity: u64, cs: u128, ts: Fraction)
    requires 0 < cs < U64_LIMIT && ts > 0 && LiquidityToCollateralCeil(liquidity, cs, ts).Ok?
    ensures LiquidityToCollateralCeil(liquidity, cs, ts).value == CeilDiv(liquidity * cs * ONE, ts)
  {
    MulMono(0, liquidity, cs);
  }

  /**
   What is redeemed from the reserve is always worth at least what is promised from it, whether or not
   the collateral was capped at the allocation; and the promise stays within what was asked for.
   */
  lemma DisinvestCovers(held: u64, cs: u128, ts: Fraction, wanted: u64, plan: Disinvestment)
    requires 0 < cs < U64_LIMIT && ts > 0 && Disinvest(held, cs, ts, wanted) == Ok(plan)
    ensures plan.collateral <= held && plan.actual <= plan.sendFloor <= wanted
    ensures CollateralToLiquidityBits(plan.collateral, cs, ts).Ok?
    ensures CollateralToLiquidityBits(plan.collateral, cs, ts).value >= plan.sendFloor * ONE >= plan.actual * ONE
    ensures plan.sendFloor * ONE <= CollateralToLiquidityBits(held, cs, ts).value
    ensures wanted * ONE <= CollateralToLiquidityBits(held, cs, ts).value ==> plan.sendFloor == wanted
  {
    var inReserve := CollateralToLiquidityBits(held, cs, ts).value;
    var send := Min(inReserve, wanted * ONE);
    DivBounds(send, ONE);
    DivOfMultiple(wanted, ONE);
    DivMono(send, wanted * ONE, ONE);
    DivAtLeast(send, ONE, 0);
    if send == 0 {
      MulMono(0, 0, ts);
    } else {
      NeededExact(plan.sendFloor, cs, ts);
      CeilCovers(plan.sendFloor, cs, ts, LiquidityToCollateralCeil(plan.sendFloor, cs, ts).value);
    }
  }

  // ---------------------------------------------------------------- what a withdrawal pays

  lemma GrossWithinShare(sharesIssued: u64, aum: Fraction, shares: u64)
    requires GrossFor(sharesIssued, aum, shares).Ok?
    ensures GrossFor(sharesIssued, aum, shares).value * ONE * sharesIssued <= aum * shares
  {
    var gross := GrossFor(sharesIssued, aum, shares).value;
    if shares == sharesIssued {
      DivBounds(aum, ONE);
      MulMono(gross * ONE, aum, shares);
    } else {
      var full := Ratio(aum, shares, sharesIssued).value;
      MulMono(0, aum, shares);
      DivBounds(aum * shares, sharesIssued);
      DivBounds(full, ONE);
      MulMono(gross * ONE, full, sharesIssued);
    }
  }

  /** A source at a rate that both sides of a reserve back. */
  ghost predicate Priced(source: Result<(u64, u128, Fraction)>) {
    source.Ok? ==> 0 < source.value.1 < U64_LIMIT && source.value.2 > 0
  }

  lemma SourceRate(s: KvaultState, clock: Clock)
    ensures Priced(Source(s, clock))
  {
    hide FindReserve, AccrueInterest, TotalSupply, Primary;
  }

  lemma PayFromWithin(idle: u64, source: Result<(u64, u128, Fraction)>, due: u64)
    requires Priced(source) && PayFrom(idle, source, due).Ok?
    ensures Min(idle, due) <= PayFrom(idle, source, due).value <= due
  {
    hide Disinvest;
    if due > idle {
      var (held, cs, ts) := source.value;
      DisinvestCovers(held, cs, ts, due - idle, Disinvest(held, cs, ts, due - idle).value);
    }
  }

  lemma PenaltyCovers(bps: u64, least: u64, gross: u64)
    requires PenaltyOn(bps, least, gross).Ok?
    ensures PenaltyOn(bps, least, gross).value * FULL_BPS >= gross * bps && PenaltyOn(bps, least, gross).value >= least
  {
    CeilBounds(gross * bps, FULL_BPS);
  }

  lemma PayoutWithinShare(s: KvaultState, source: Result<(u64, u128, Fraction)>, aum: Fraction, shares: u64, plan: Payout)
    requires Priced(source) && PayoutFor(s, source, aum, shares) == Ok(plan)
    ensures plan.shares == shares && plan.paid + plan.penalty <= plan.gross
    ensures (plan.paid + plan.penalty) * ONE * s.sharesIssued <= aum * shares
    ensures plan.penalty * FULL_BPS >= plan.gross * s.PenaltyBps() && plan.penalty >= s.Penalty()
  {
    hide PayFrom, GrossFor, PenaltyOn;
    GrossWithinShare(s.sharesIssued, aum, shares);
    PayFromWithin(s.idle, source, plan.gross - plan.penalty);
    PenaltyCovers(s.PenaltyBps(), s.Penalty(), plan.gross);
    MulMono((plan.paid + plan.penalty) * ONE, plan.gross * ONE, s.sharesIssued);
  }

  /**
   The user and the penalty together never take more than the redeemed shares' part of the AUM, and
   the penalty is at least its rate and at least its floor.
   */
  lemma WithdrawWithinShare(s: KvaultState, clock: Clock, v: Vault, amount: u64, plan: Payout)
    requires PlanWithdraw(s, clock, v, amount) == Ok(plan)
    ensures CurrentAum(s, clock).Ok?
    ensures plan.paid + plan.penalty <= plan.gross
    ensures (plan.paid + plan.penalty) * ONE * s.sharesIssued <= CurrentAum(s, clock).value * plan.shares
    ensures plan.penalty * FULL_BPS >= plan.gross * s.PenaltyBps() && plan.penalty >= s.Penalty()
    ensures plan.shares * v.supply <= amount * s.positionShares
  {
    hide CurrentAum, PayoutFor, Source, BurnAgainst, TokensFor;
    SourceRate(s, clock);
    TokensForBounds(amount, v.(held := s.positionShares));
    var shares := TokensFor(amount, v.(held := s.positionShares)).value;
    PayoutWithinShare(s, Source(s, clock), CurrentAum(s, clock).value, shares, plan);
  }

  /** Whole tokens behind the collateral that a withdrawal may draw on. */
  ghost function Worth(held: u64, cs: u128, ts: Fraction): nat
    requires cs > 0
  {
    MulMono(0, held, ts);
    Quotient(held * ts, cs * ONE)
  }

  /** A reserve gives what is asked for, as far as its collateral goes, or one token less for a rounding. */
  lemma DisinvestPays(held: u64, cs: u128, ts: Fraction, wanted: u64, plan: Disinvestment)
    requires 0 < cs < U64_LIMIT && ts > 0 && Disinvest(held, cs, ts, wanted) == Ok(plan)
    ensures plan.sendFloor == Min(wanted, Worth(held, cs, ts)) && plan.sendFloor - 1 <= plan.actual <= plan.sendFloor
  {
    MulMono(0, held, ts);
    DivDiv(held * ts, cs, ONE);
    var inReserve := Quotient(held * ts, cs);
    DivBounds(inReserve, ONE);
    DivOfMultiple(wanted, ONE);
    if inReserve < wanted * ONE {
      DivAtMost(inReserve, ONE, wanted);
    } else {
      DivAtLeast(inReserve, ONE, wanted);
    }
    hide LiquidityToCollateralCeil;
  }

  /** No fewer collateral tokens would do, unless the allocation has no more. */
  lemma DisinvestFewest(held: u64, cs: u128, ts: Fraction, wanted: u64, plan: Disinvestment)
    requires 0 < cs < U64_LIMIT && ts > 0 && Disinvest(held, cs, ts, wanted) == Ok(plan)
    ensures plan.collateral > 0 ==> (plan.collateral - 1) * ts < plan.sendFloor * cs * ONE
  {
    if plan.collateral > 0 {
      DrawsNeeded(held, cs, ts, wanted, plan);
      NeededExact(plan.sendFloor, cs, ts);
      hide Disinvest, LiquidityToCollateralCeil;
      FewerFallShort(plan.sendFloor * cs * ONE, ts, plan.collateral);
    }
  }

  lemma DrawsNeeded(held: u64, cs: u128, ts: Fraction, wanted: u64, plan: Disinvestment)
    requires Disinvest(held, cs, ts, wanted) == Ok(plan) && plan.collateral > 0
    ensures LiquidityToCollateralCeil(plan.sendFloor, cs, ts).Ok?
    ensures plan.collateral <= LiquidityToCollateralCeil(plan.sendFloor, cs, ts).value
  {
    hide LiquidityToCollateralCeil, CollateralToLiquidityBits;
  }

  lemma FewerFallShort(due: nat, ts: nat, collateral: nat)
    requires ts > 0 && 0 < collateral <= CeilDiv(due, ts)
    ensures (collateral - 1) * ts < due
  {
    CeilBounds(due, ts);
    MulMono(collateral - 1, CeilDiv(due, ts) - 1, ts);
    assert (CeilDiv(due, ts) - 1) * ts == CeilDiv(due, ts) * ts - ts;
  }

  /** Everything due, as far as the idle tokens and the collateral go, but for that token; all of it when idle covers it. */
  ghost predicate PaysDue(idle: u64, source: Result<(u64, u128, Fraction)>, due: u64, paid: u64) {
    if due <= idle then paid == due
    else
      && source.Ok? && source.value.1 > 0
      && var within := Min(due, idle + Worth(source.value.0, source.value.1, source.value.2));
      within - 1 <= paid <= within
  }

  lemma PayFromPays(idle: u64, source: Result<(u64, u128, Fraction)>, due: u64)
    requires Priced(source) && PayFrom(idle, source, due).Ok?
    ensures PaysDue(idle, source, due, PayFrom(idle, source, due).value)
  {
    hide Disinvest, Worth;
    if due > idle {
      var (held, cs, ts) := source.value;
      DisinvestPays(held, cs, ts, due - idle, Disinvest(held, cs, ts, due - idle).value);
    }
  }

  /** Disinvesting never fails once the collateral's worth fits, however much is wanted. */
  lemma DisinvestSucceeds(held: u64, cs: u128, ts: Fraction, wanted: u64)
    requires 0 < cs < U64_LIMIT && ts > 0
    ensures 0 <= held * ts
    ensures Disinvest(held, cs, ts, wanted).Ok? <==> Quotient(held * ts, cs) < U128_LIMIT
  {
    MulMono(0, held, ts);
    MulBelowLimits(held, ts, U64_LIMIT, U128_LIMIT);
    if Quotient(held * ts, cs) < U128_LIMIT {
      var send := Min(Quotient(held * ts, cs), wanted * ONE);
      DivBounds(send, ONE);
      DivAtLeast(send, ONE, 0);
      DivAtMost(send, ONE, wanted);
      if send > 0 {
        NeededFits(held, cs, ts, send / ONE);
        hide LiquidityToCollateralCeil;
        WorthFits(held, Min(LiquidityToCollateralCeil(send / ONE, cs, ts).value, held), cs, ts);
      }
    }
  }

  /** What is within the worth of some collateral needs no more than that collateral. */
  lemma NeededFits(held: u64, cs: u128, ts: Fraction, liquidity: u64)
    requires 0 < cs < U64_LIMIT && ts > 0 && liquidity * ONE <= held * ts / cs
    ensures LiquidityToCollateralCeil(liquidity, cs, ts).Ok?
  {
    MulMono(0, liquidity, cs);
    MulBelowLimits(liquidity, cs, U64_LIMIT, U64_LIMIT);
    DivBounds(held * ts, cs);
    MulMono(liquidity * ONE, held * ts / cs, cs);
    assert liquidity * cs * ONE == liquidity * ONE * cs;
    CeilAtMost(liquidity * cs * ONE, ts, held);
  }

  lemma WorthFits(held: u64, less: u64, cs: u128, ts: Fraction)
    requires cs > 0 && less <= held && 0 <= held * ts && Quotient(held * ts, cs) < U128_LIMIT
    ensures CollateralToLiquidityBits(less, cs, ts).Ok?
  {
    MulMono(0, less, ts);
    MulMono(less, held, ts);
    MulBelowLimits(less, ts, U64_LIMIT, U128_LIMIT);
    QuotientMono(less * ts, held * ts, cs);
  }

  /** So a payment succeeds from idle tokens alone, or from a source whose collateral's worth fits. */
  lemma PayFromSucceeds(idle: u64, source: Result<(u64, u128, Fraction)>, due: u64)
    requires Priced(source)
    ensures PayFrom(idle, source, due).Ok? <==>
      due <= idle || (source.Ok? && source.value.0 * source.value.2 / source.value.1 < U128_LIMIT)
  {
    hide Disinvest;
    if due > idle && source.Ok? {
      var (held, cs, ts) := source.value;
      DisinvestSucceeds(held, cs, ts, due - idle);
      if Disinvest(held, cs, ts, due - idle).Ok? {
        DisinvestCovers(held, cs, ts, due - idle, Disinvest(held, cs, ts, due - idle).value);
      }
    }
  }

  /** The gross amount of no more shares than there are can be computed whenever it fits. */
  lemma GrossSucceeds(sharesIssued: u64, aum: Fraction, shares: u64)
    requires 0 < shares <= sharesIssued
    ensures GrossFor(sharesIssued, aum, shares).Ok? <==> aum * shares / (sharesIssued * ONE) < U64_LIMIT
  {
    MulMono(0, aum, shares);
    MulBelowLimits(aum, shares, U128_LIMIT, U64_LIMIT);
    if shares == sharesIssued {
      DivCancel(aum, ONE, shares);
      assert ONE * shares == shares * ONE;
    } else {
      MulMono(shares, sharesIssued, aum);
      DivAtMost(aum * shares, sharesIssued, aum);
      DivDiv(aum * shares, sharesIssued, ONE);
    }
  }

  /** What a redemption is refused for, and nothing else, once its shares and the AUM are known. */
  lemma PayoutAccepted(s: KvaultState, source: Result<(u64, u128, Fraction)>, aum: Fraction, shares: u64)
    requires 0 < shares <= s.sharesIssued && Priced(source)
    ensures PayoutFor(s, source, aum, shares).Ok? <==>
      && GrossFor(s.sharesIssued, aum, shares).Ok?
      && var gross := GrossFor(s.sharesIssued, aum, shares).value;
      var penalty := Max(CeilDiv(gross * s.PenaltyBps(), FULL_BPS), s.Penalty());
      && 0 <= penalty < gross && PayFrom(s.idle, source, gross - penalty).Ok?
      && PayFrom(s.idle, source, gross - penalty).value > s.minWithdraw
  {
    hide PayFrom, GrossFor;
  }

  /** And before that, for nothing but its shares and an AUM that cannot be computed or is nothing. */
  lemma RedemptionAccepted(s: KvaultState, clock: Clock, v: Vault, amount: u64)
    ensures 0 <= amount * s.positionShares
    ensures PlanRedemption(s, clock, v, amount).Ok? <==>
      && 0 < amount <= v.supply && s.positionShares > 0 && amount * s.positionShares < U128_LIMIT
      && var shares := Quotient(amount * s.positionShares, v.supply);
      && 0 < shares < U64_LIMIT && CurrentAum(s, clock).Ok? && CurrentAum(s, clock).value > 0
      && PayoutFor(s, Source(s, clock), CurrentAum(s, clock).value, shares).Ok?
  {
    MulMono(0, amount, s.positionShares);
    hide CurrentAum, PayoutFor, Source, TokensFor;
    if 0 < amount <= v.supply {
      TokensForBounds(amount, v.(held := s.positionShares));
    }
  }

  /** The tokens behind vault shares are one floor of their part of the AUM. */
  lemma GrossExact(sharesIssued: u64, aum: Fraction, shares: u64)
    requires sharesIssued > 0 && GrossFor(sharesIssued, aum, shares).Ok?
    ensures 0 <= aum * shares
    ensures GrossFor(sharesIssued, aum, shares).value == Quotient(aum * shares, sharesIssued * ONE)
  {
    MulMono(0, aum, shares);
    if shares == sharesIssued {
      DivCancel(aum, ONE, shares);
      assert ONE * shares == shares * ONE;
    } else {
      DivDiv(aum * shares, sharesIssued, ONE);
    }
  }

  /** The penalty is its rate on the gross amount, rounded up, or its floor, whichever is more. */
  ghost predicate PenaltyIs(bps: u64, least: u64, gross: u64, penalty: u64) {
    && penalty >= least && penalty * FULL_BPS >= gross * bps
    && (penalty == least || penalty * FULL_BPS < gross * bps + FULL_BPS)
  }

  lemma PenaltyExact(bps: u64, least: u64, gross: u64)
    requires PenaltyOn(bps, least, gross).Ok?
    ensures PenaltyIs(bps, least, gross, PenaltyOn(bps, least, gross).value)
  {
    CeilBounds(gross * bps, FULL_BPS);
  }

  lemma PayoutPays(s: KvaultState, source: Result<(u64, u128, Fraction)>, aum: Fraction, shares: u64, plan: Payout)
    requires Priced(source) && shares > 0 && PayoutFor(s, source, aum, shares) == Ok(plan)
    ensures s.sharesIssued > 0 && 0 <= aum * shares
    ensures plan.shares == shares && plan.gross == Quotient(aum * shares, s.sharesIssued * ONE)
    ensures plan.penalty < plan.gross && PenaltyIs(s.PenaltyBps(), s.Penalty(), plan.gross, plan.penalty)
    ensures PaysDue(s.idle, source, plan.gross - plan.penalty, plan.paid) && plan.paid > s.minWithdraw
  {
    GrossOf(s.sharesIssued, aum, shares);
    hide PayFrom, GrossFor, PenaltyOn, PaysDue, PenaltyIs;
    GrossExact(s.sharesIssued, aum, shares);
    PayFromPays(s.idle, source, plan.gross - plan.penalty);
    PenaltyExact(s.PenaltyBps(), s.Penalty(), plan.gross);
  }

  lemma GrossOf(sharesIssued: u64, aum: Fraction, shares: u64)
    ensures GrossFor(sharesIssued, aum, shares).Ok? && shares > 0 ==> sharesIssued > 0
  {
  }

  /**
   A withdrawal in closed form: the wrapper shares' floored part of the position, those vault shares' floored
   part of the AUM, the penalty on that, and what is due paid as far as idle tokens and the primary allocation
   go, short of at most one token.
   */
  lemma WithdrawPaysDue(s: KvaultState, clock: Clock, v: Vault, amount: u64, plan: Payout)
    requires PlanWithdraw(s, clock, v, amount) == Ok(plan)
    ensures QuoteWithdraw(s, clock, v, amount) == Ok(plan.paid)
    ensures 0 < amount <= v.supply && CurrentAum(s, clock).Ok? && s.sharesIssued > 0
    ensures 0 <= amount * s.positionShares && plan.shares == Quotient(amount * s.positionShares, v.supply) > 0
    ensures 0 <= CurrentAum(s, clock).value * plan.shares
    ensures plan.gross == Quotient(CurrentAum(s, clock).value * plan.shares, s.sharesIssued * ONE)
    ensures plan.penalty < plan.gross
    ensures PenaltyIs(Max(s.vaultPenaltyBps, s.globalPenaltyBps), Max(s.vaultPenalty, s.globalPenalty), plan.gross,
                      plan.penalty)
    ensures PaysDue(s.idle, Source(s, clock), plan.gross - plan.penalty, plan.paid)
    ensures plan.paid > s.minWithdraw && plan.paid > 0
  {
    hide CurrentAum, PayoutFor, Source, BurnAgainst, TokensFor, PaysDue, PenaltyIs;
    MulMono(0, amount, s.positionShares);
    SourceRate(s, clock);
    TokensForBounds(amount, v.(held := s.positionShares));
    PayoutPays(s, Source(s, clock), CurrentAum(s, clock).value,
               TokensFor(amount, v.(held := s.positionShares)).value, plan);
  }

  // ---------------------------------------------------------------- what a deposit mints

  /** Vault shares are one floor of an amount's part at the AUM rounded up to whole tokens. */
  lemma SharesToMintExact(aum: Fraction, amount: u64, sharesIssued: u64)
    requires SharesToMint(aum, amount, sharesIssued).Ok? && sharesIssued > 0
    ensures CeilDiv(aum, ONE) > 0 && 0 <= sharesIssued * amount
    ensures SharesToMint(aum, amount, sharesIssued).value == Quotient(sharesIssued * amount, CeilDiv(aum, ONE))
  {
    var price := CeilDiv(aum, ONE);
    CeilBounds(aum, ONE);
    DivOfMultiple(price, ONE);
    MulMono(0, sharesIssued, amount);
    assert sharesIssued * ONE * amount == sharesIssued * amount * ONE;
    DivDiv(sharesIssued * amount * ONE, price, ONE);
    DivCancel(sharesIssued * amount, price, ONE);
  }

  /** Vault shares can be priced whenever the AUM in whole tokens and the shares fit 64 bits. */
  lemma SharesToMintSucceeds(aum: Fraction, amount: u64, sharesIssued: u64)
    requires sharesIssued > 0 && 0 < CeilDiv(aum, ONE) < U64_LIMIT
    ensures sharesIssued * amount / CeilDiv(aum, ONE) < U64_LIMIT ==> SharesToMint(aum, amount, sharesIssued).Ok?
  {
    var price := CeilDiv(aum, ONE);
    CeilBounds(aum, ONE);
    DivOfMultiple(price, ONE);
    MulMono(0, sharesIssued, amount);
    MulBelowLimits(sharesIssued, amount, U64_LIMIT, U64_LIMIT);
    assert sharesIssued * ONE * amount == sharesIssued * amount * ONE;
    DivDiv(sharesIssued * amount * ONE, price, ONE);
    DivCancel(sharesIssued * amount, price, ONE);
    DivBounds(sharesIssued * amount * ONE / price, ONE);
  }

  /** What a purchase is refused for, and nothing else. */
  lemma PurchaseAccepted(s: KvaultState, clock: Clock, v: Vault, feeBps: u16, amount: u64)
    ensures PlanPurchase(s, clock, v, feeBps, amount).Ok? <==>
      && amount > 0 && Checked.NetAmount(amount, feeBps, v.creatorFeeBps).Ok?
      && var user := Checked.NetAmount(amount, feeBps, v.creatorFeeBps).value
                     - Fundable(s.allocations) * s.crankFeePerReserve;
      && Checked.NetAmount(amount, feeBps, v.creatorFeeBps).value > 0
      && 0 <= user && s.minDeposit <= user <= s.cachedMaxDeposit && CurrentAum(s, clock).Ok?
      && SharesToMint(CurrentAum(s, clock).value, user, s.sharesIssued).Ok?
      && SharesToMint(CurrentAum(s, clock).value, user, s.sharesIssued).value > 0
  {
    hide CurrentAum, SharesToMint, Checked.NetAmount, Fundable;
    MulMono(0, Fundable(s.allocations), s.crankFeePerReserve);
  }

  /** The closed form of a deposit: what it buys of the vault, and what that mints against the position. */
  lemma DepositExact(s: KvaultState, clock: Clock, v: Vault, feeBps: u16, amount: u64, plan: DepositPlan)
    requires PlanDeposit(s, clock, v, feeBps, amount) == Ok(plan)
    ensures QuoteDeposit(s, clock, v, feeBps, amount) == Ok(plan.minted)
    ensures Checked.NetAmount(amount, feeBps, v.creatorFeeBps) == Ok(plan.net) && CurrentAum(s, clock).Ok?
    ensures plan.user + Fundable(s.allocations) * s.crankFeePerReserve == plan.net
    ensures s.sharesIssued == 0 ==> plan.shares == plan.user
    ensures s.sharesIssued > 0 ==>
      && CurrentAum(s, clock).value > 0 && CeilDiv(CurrentAum(s, clock).value, ONE) > 0
      && 0 <= s.sharesIssued * plan.user
      && plan.shares == Quotient(s.sharesIssued * plan.user, CeilDiv(CurrentAum(s, clock).value, ONE))
    ensures v.supply == 0 ==> plan.minted == plan.net
    ensures v.supply > 0 ==>
      && s.positionShares > 0 && 0 <= plan.shares * v.supply
      && plan.minted == Quotient(plan.shares * v.supply, s.positionShares)
  {
    MulMono(0, plan.shares, v.supply);
    if v.supply > 0 && s.positionShares > 0 {
      SharesForBounds(plan.shares, v.(held := s.positionShares), plan.net);
    }
    hide CurrentAum, Checked.NetAmount;
    if s.sharesIssued > 0 {
      SharesToMintExact(CurrentAum(s, clock).value, plan.user, s.sharesIssued);
    }
  }

  /** Vault shares never cost less than the AUM they are a part of. */
  lemma SharesWithinPart(aum: Fraction, amount: u64, sharesIssued: u64)
    requires SharesToMint(aum, amount, sharesIssued).Ok?
    ensures sharesIssued == 0 ==> SharesToMint(aum, amount, sharesIssued).value == amount
    ensures sharesIssued > 0 ==> SharesToMint(aum, amount, sharesIssued).value * aum <= amount * ONE * sharesIssued
  {
    if sharesIssued > 0 {
      var price := CeilDiv(aum, ONE);
      CeilBounds(aum, ONE);
      DivOfMultiple(price, ONE);
      var ratio := Ratio(FromNum(sharesIssued), amount, price).value;
      MulMono(0, sharesIssued * ONE, amount);
      DivBounds(sharesIssued * ONE * amount, price);
      DivBounds(ratio, ONE);
      PricedAbove(ratio / ONE, aum, price, ratio, amount, sharesIssued);
    }
  }

  lemma PricedAbove(shares: nat, aum: nat, price: nat, ratio: nat, amount: nat, issued: nat)
    requires shares * ONE <= ratio && aum <= price * ONE && ratio * price <= issued * ONE * amount
    ensures shares * aum <= amount * ONE * issued
  {
    MulMono(aum, price * ONE, shares);
    assert shares * (price * ONE) == shares * ONE * price;
    MulMono(shares * ONE, ratio, price);
    assert issued * ONE * amount == amount * ONE * issued;
  }

  /**
   A deposit credits the amount after fees and crank funds: its vault shares are at most that amount's
   part of the AUM, and its wrapper shares at most those shares' part of the position.
   */
  lemma DepositWithinShare(s: KvaultState, clock: Clock, v: Vault, feeBps: u16, amount: u64, plan: DepositPlan)
    requires PlanDeposit(s, clock, v, feeBps, amount) == Ok(plan)
    ensures CurrentAum(s, clock).Ok?
    ensures plan.user + Fundable(s.allocations) * s.crankFeePerReserve == plan.net <= amount
    ensures s.minDeposit <= plan.user <= s.cachedMaxDeposit
    ensures s.sharesIssued > 0 ==> plan.shares * CurrentAum(s, clock).value <= plan.user * ONE * s.sharesIssued
    ensures v.supply > 0 ==> plan.minted * s.positionShares <= plan.shares * v.supply
    ensures v.supply == 0 ==> plan.minted == plan.net
  {
    hide CurrentAum, SharesToMint, Checked.NetAmount;
    var aum := CurrentAum(s, clock).value;
    SharesWithinPart(aum, plan.user, s.sharesIssued);
    NetWithinAmount(amount, feeBps, v.creatorFeeBps);
    if v.supply > 0 {
      SharesForBounds(plan.shares, v.(held := s.positionShares), plan.net);
    }
  }

  /**
   Redeeming new vault shares from the AUM they were paid into gives back at most what was paid, unless
   the vault had no shares and still held at least one token.
   */
  lemma VaultRoundTrip(aum: Fraction, amount: u64, sharesIssued: u64, shares: u64, back: u64)
    requires SharesToMint(aum, amount, sharesIssued) == Ok(shares) && shares > 0
    requires sharesIssued + shares < U64_LIMIT && aum + amount * ONE < U128_LIMIT
    requires GrossFor(sharesIssued + shares, aum + amount * ONE, shares) == Ok(back)
    ensures back <= amount <==> sharesIssued > 0 || aum < ONE
  {
    var after := aum + amount * ONE;
    if sharesIssued == 0 {
      DivBounds(after, ONE);
      DivAtMost(after, ONE, amount + aum / ONE) by { DivBounds(aum, ONE); }
      DivAtLeast(after, ONE, amount + aum / ONE) by { DivBounds(aum, ONE); }
      DivBounds(aum, ONE);
    } else {
      SharesWithinPart(aum, amount, sharesIssued);
      GrossWithinShare(sharesIssued + shares, after, shares);
      assert after * shares == shares * aum + amount * ONE * shares;
      assert amount * ONE * (sharesIssued + shares) == amount * ONE * sharesIssued + amount * ONE * shares;
      MulCancel(back * ONE, amount * ONE, sharesIssued + shares);
    }
  }

  // ---------------------------------------------------------------- the guard

  /** How much further than the recorded holding the position is, in wrapper shares times position. */
  ghost predicate Outgrown(position: u128, v: Vault, shares: u64)
    requires position > 0
  {
    (position - v.held) * v.supply > shares * v.supply % position
  }

  /** The sizes of a mint against a position that the guard looks at. */
  ghost predicate MintFits(position: u128, v: Vault, shares: u64)
    requires position > 0
  {
    && 0 < shares * v.supply / position && v.supply + shares * v.supply / position < U64_LIMIT
    && v.held + shares < U128_LIMIT
  }

  lemma GuardByRemainder(position: nat, supply: nat, held: nat, shares: nat)
    requires position > 0
    ensures (held + shares) * supply >= position * (supply + shares * supply / position)
       <==> (position - held) * supply <= shares * supply % position
  {
    var m := shares * supply / position;
    assert position * (supply + m) == position * supply + position * m;
    assert position * m + shares * supply % position == shares * supply;
    assert (held + shares) * supply == held * supply + shares * supply;
    assert (position - held) * supply == position * supply - held * supply;
  }

  /**
   The guard rejects a mint exactly when the position has outgrown the recorded holding by more than
   the remainder that the floor of the mint leaves.
   */
  lemma MintGuardExact(position: u128, v: Vault, shares: u64, net: u64)
    ensures MintAgainst(position, v, shares, net) == Err(ValuePerShareLoss) <==>
      v.supply > 0 && position > 0 && MintFits(position, v, shares) && Outgrown(position, v, shares)
  {
    if v.supply > 0 && position > 0 {
      SharesForBounds(shares, v.(held := position), net);
      hide SharesFor;
      GuardByRemainder(position, v.supply, v.held, shares);
    }
  }

  /** While the position is not above the recorded holding the guard rejects nothing. */
  lemma MintGuardNeverRejects(position: u128, v: Vault, shares: u64, net: u64)
    requires position <= v.held
    ensures MintAgainst(position, v, shares, net) != Err(ValuePerShareLoss)
  {
    MintGuardExact(position, v, shares, net);
    hide MintAgainst;
    if v.supply > 0 && position > 0 {
      MulMono(position - v.held, 0, v.supply);
    }
  }

  lemma BurnByRemainder(position: int, held: int, supply: nat, amount: nat)
    requires 0 < amount < supply && 0 <= position
    ensures (held - amount * position / supply) * supply >= position * (supply - amount) <==> position <= held
  {
    var c := amount * position / supply;
    DivBounds(amount * position, supply);
    assert (held - c) * supply == held * supply - c * supply;
    assert position * (supply - amount) == position * supply - amount * position;
    if position <= held {
      MulMono(position, held, supply);
    } else {
      MulMono(held + 1, position, supply);
    }
  }

  /**
   A burn at the position's price passes exactly when the position is not above the recorded holding;
   no remainder ever helps, because it is less than one share.
   */
  lemma BurnGuardExact(position: u128, v: Vault, shares: u64, amount: u64)
    requires 0 < amount <= v.supply && TokensFor(amount, v.(held := position)) == Ok(shares)
    ensures BurnAgainst(position, v, shares, amount).Ok? <==> position <= v.held
    ensures BurnAgainst(position, v, shares, amount) == Err(ValuePerShareLoss) <==> shares <= v.held < position
  {
    TokensForBounds(amount, v.(held := position));
    hide TokensFor;
    if amount < v.supply {
      BurnByRemainder(position, v.held, v.supply, amount);
    } else {
      DivOfMultiple(position, v.supply);
      assert amount * position == position * v.supply;
    }
  }

  lemma {:induction false} InvestedFailsOtherwise(reserves: seq<(Key, KlendState)>, clock: Clock,
      allocations: seq<Allocation>)
    ensures Invested(reserves, clock, allocations) != Err(ValuePerShareLoss)
  {
    hide InvestedIn;
    if allocations != [] {
      var n := |allocations| - 1;
      InvestedFailsOtherwise(reserves, clock, allocations[..n]);
      RateFailsOtherwise(reserves, allocations[n].reserve, clock);
      InvestedInFailsOtherwise(reserves, clock, allocations[n]);
    }
  }

  lemma InvestedInFailsOtherwise(reserves: seq<(Key, KlendState)>, clock: Clock, a: Allocation)
    ensures InvestedIn(reserves, clock, a) != Err(ValuePerShareLoss)
  {
    RateFailsOtherwise(reserves, a.reserve, clock);
    hide FindReserve, RateOf;
    if FindReserve(reserves, a.reserve).Ok? {
      assert CachedRateOf(reserves, a.reserve, clock) == RateOf(FindReserve(reserves, a.reserve).value, clock);
    } else {
      assert CachedRateOf(reserves, a.reserve, clock) == Err(FindReserve(reserves, a.reserve).error);
    }
  }

  lemma RateFailsOtherwise(reserves: seq<(Key, KlendState)>, key: Key, clock: Clock)
    ensures CachedRateOf(reserves, key, clock) != Err(ValuePerShareLoss)
  {
    FindFailsOtherwise(reserves, key);
    hide FindReserve, AccrueInterest, TotalSupply;
    if FindReserve(reserves, key).Ok? {
      var reserve := FindReserve(reserves, key).value;
      BooksFailArithmetically(reserve, clock, Current(reserve));
      if AccrueInterest(reserve, clock).Ok? {
        BooksFailArithmetically(reserve, clock, AccrueInterest(reserve, clock).value);
      }
    }
  }

  lemma {:induction false} FindFailsOtherwise(reserves: seq<(Key, KlendState)>, key: Key)
    ensures FindReserve(reserves, key) != Err(ValuePerShareLoss)
  {
    if reserves != [] {
      FindFailsOtherwise(reserves[1..], key);
    }
  }

  lemma AumFailsOtherwise(s: KvaultState, clock: Clock)
    ensures CurrentAum(s, clock) != Err(ValuePerShareLoss)
  {
    InvestedFailsOtherwise(s.reserves, clock, s.allocations);
    hide Invested;
  }

  lemma PurchaseFailsOtherwise(s: KvaultState, clock: Clock, v: Vault, feeBps: u16, amount: u64)
    ensures PlanPurchase(s, clock, v, feeBps, amount) != Err(ValuePerShareLoss)
  {
    AumFailsOtherwise(s, clock);
    hide CurrentAum, Fundable;
  }

  lemma RedemptionFailsOtherwise(s: KvaultState, clock: Clock, v: Vault, amount: u64)
    ensures PlanRedemption(s, clock, v, amount) != Err(ValuePerShareLoss)
  {
    AumFailsOtherwise(s, clock);
    SourceFailsOtherwise(s, clock);
    hide CurrentAum, Source, PayoutFor;
    forall aum: Fraction, shares: u64
      ensures PayoutFor(s, Source(s, clock), aum, shares) != Err(ValuePerShareLoss)
    {
      PayoutFailsOtherwise(s, Source(s, clock), aum, shares);
    }
  }

  lemma PayoutFailsOtherwise(s: KvaultState, source: Result<(u64, u128, Fraction)>, aum: Fraction, shares: u64)
    requires source != Err(ValuePerShareLoss)
    ensures PayoutFor(s, source, aum, shares) != Err(ValuePerShareLoss)
  {
  }

  lemma SourceFailsOtherwise(s: KvaultState, clock: Clock)
    ensures Source(s, clock) != Err(ValuePerShareLoss)
  {
    if Primary(s.allocations).Some? {
      RateFailsOtherwise(s.reserves, Primary(s.allocations).value.reserve, clock);
    }
    hide CachedRateOf, Primary;
  }

  /**
   A deposit quote ends in the guard's error exactly when the vault shares it buys are minted against a
   position that has outgrown the recorded holding by more than the floor's remainder.
   */
  lemma DepositGuardExact(s: KvaultState, clock: Clock, v: Vault, feeBps: u16, amount: u64)
    ensures QuoteDeposit(s, clock, v, feeBps, amount) == Err(ValuePerShareLoss) <==>
      && PlanPurchase(s, clock, v, feeBps, amount).Ok? && v.supply > 0 && s.positionShares > 0
      && var shares := PlanPurchase(s, clock, v, feeBps, amount).value.shares;
      MintFits(s.positionShares, v, shares) && Outgrown(s.positionShares, v, shares)
    ensures s.positionShares <= v.held ==> QuoteDeposit(s, clock, v, feeBps, amount) != Err(ValuePerShareLoss)
  {
    PurchaseFailsOtherwise(s, clock, v, feeBps, amount);
    hide PlanPurchase, MintAgainst, MintFits, Outgrown;
    if PlanPurchase(s, clock, v, feeBps, amount).Ok? {
      var bought := PlanPurchase(s, clock, v, feeBps, amount).value;
      MintGuardExact(s.positionShares, v, bought.shares, bought.net);
      if s.positionShares <= v.held {
        MintGuardNeverRejects(s.positionShares, v, bought.shares, bought.net);
      }
    }
  }

  /**
   A withdrawal quotes exactly when it pays and the position is not above the recorded holding: once the
   position has outgrown the record, nothing can be withdrawn at all.
   */
  lemma WithdrawGuardExact(s: KvaultState, clock: Clock, v: Vault, amount: u64)
    ensures QuoteWithdraw(s, clock, v, amount).Ok? <==>
      PlanRedemption(s, clock, v, amount).Ok? && s.positionShares <= v.held
    ensures QuoteWithdraw(s, clock, v, amount) == Err(ValuePerShareLoss) <==>
      && PlanRedemption(s, clock, v, amount).Ok?
      && PlanRedemption(s, clock, v, amount).value.shares <= v.held < s.positionShares
  {
    RedemptionFailsOtherwise(s, clock, v, amount);
    if PlanRedemption(s, clock, v, amount).Ok? {
      RedeemedShares(s, clock, v, amount);
      hide PlanRedemption, BurnAgainst, TokensFor;
      BurnGuardExact(s.positionShares, v, PlanRedemption(s, clock, v, amount).value.shares, amount);
    }
  }

  lemma RedeemedShares(s: KvaultState, clock: Clock, v: Vault, amount: u64)
    requires PlanRedemption(s, clock, v, amount).Ok?
    ensures 0 < amount <= v.supply
    ensures TokensFor(amount, v.(held := s.positionShares)) == Ok(PlanRedemption(s, clock, v, amount).value.shares)
  {
    hide CurrentAum, Source, GrossFor, PenaltyOn, PayFrom, TokensFor;
  }

  /** The rejections happen: a position of 100 priced against a record of 50, and one of 50 that passes. */
  lemma GrownPositionRejected()
    ensures var v := Vault(100, 50, 0);
      && MintAgainst(100, v, 10, 10) == Err(ValuePerShareLoss) && MintAgainst(50, v, 10, 10) == Ok(20)
      && BurnAgainst(100, v, 10, 10) == Err(ValuePerShareLoss)
  {
  }

  // ---------------------------------------------------------------- caching refines recomputing

  lemma CachedAumAgrees(ready: KvaultState, raw: KvaultState, clock: Clock)
    requires CachedFrom(ready, raw, clock)
    ensures CurrentAum(ready, clock) == CurrentAum(raw, clock)
  {
    CachedInvested(raw.reserves, clock, raw.allocations);
    hide PreAccrued, Invested;
    var accrued := raw.(reserves := PreAccrued(raw.reserves, clock).value);
    AumIgnoresCaches(accrued, ready, clock);
    AumIgnoresCaches(accrued, raw, clock);
  }

  lemma CachedSourceAgrees(ready: KvaultState, raw: KvaultState, clock: Clock)
    requires CachedFrom(ready, raw, clock)
    ensures Source(ready, clock) == Source(raw, clock)
  {
    hide PreAccrued, CachedRateOf, Primary, ComputeAum;
    if Primary(raw.allocations).Some? {
      SameCachedRate(ready, raw, clock, Primary(raw.allocations).value.reserve);
    }
  }

  lemma SameCachedRate(ready: KvaultState, raw: KvaultState, clock: Clock, key: Key)
    requires CachedFrom(ready, raw, clock)
    ensures CachedRateOf(ready.reserves, key, clock) == CachedRateOf(raw.reserves, key, clock)
  {
    hide PreAccrued, FindReserve, RateOf, ComputeAum;
    CachedRate(raw.reserves, clock, key);
  }

  /** The same vault apart from what an update caches. */
  ghost predicate SameApartFromCaches(s: KvaultState, t: KvaultState) {
    s == t.(reserves := s.reserves, cachedAum := s.cachedAum)
  }

  lemma DepositSeesCachesOnlyThroughAum(s: KvaultState, t: KvaultState, clock: Clock, v: Vault, feeBps: u16, amount: u64)
    requires SameApartFromCaches(s, t) && CurrentAum(s, clock) == CurrentAum(t, clock)
    ensures QuoteDeposit(s, clock, v, feeBps, amount) == QuoteDeposit(t, clock, v, feeBps, amount)
  {
    hide CurrentAum, SharesToMint, MintAgainst, Checked.NetAmount, Fundable;
  }

  lemma WithdrawSeesCachesOnlyThroughRates(s: KvaultState, t: KvaultState, clock: Clock, v: Vault, amount: u64)
    requires SameApartFromCaches(s, t) && CurrentAum(s, clock) == CurrentAum(t, clock)
    requires Source(s, clock) == Source(t, clock)
    ensures QuoteWithdraw(s, clock, v, amount) == QuoteWithdraw(t, clock, v, amount)
  {
    hide CurrentAum, PayoutFor, Source, TokensFor, BurnAgainst;
    var aum, shares := CurrentAum(s, clock), TokensFor(amount, v.(held := s.positionShares));
    if aum.Ok? && shares.Ok? {
      PayoutSeesCachesOnlyThroughSource(s, t, Source(s, clock), aum.value, shares.value);
    }
  }

  lemma PayoutSeesCachesOnlyThroughSource(
    s: KvaultState, t: KvaultState, source: Result<(u64, u128, Fraction)>, aum: Fraction, shares: u64
  )
    requires SameApartFromCaches(s, t)
    ensures PayoutFor(s, source, aum, shares) == PayoutFor(t, source, aum, shares)
  {
    hide PayFrom, GrossFor, PenaltyOn;
  }

  /** At the clock of the update, quoting from the caches is quoting from the raw accounts. */
  lemma CachingRefinesRecomputing(ready: KvaultState, raw: KvaultState, clock: Clock, v: Vault, feeBps: u16, amount: u64)
    requires CachedFrom(ready, raw, clock)
    ensures QuoteDeposit(ready, clock, v, feeBps, amount) == QuoteDeposit(raw, clock, v, feeBps, amount)
    ensures QuoteWithdraw(ready, clock, v, amount) == QuoteWithdraw(raw, clock, v, amount)
  {
    CachedAumAgrees(ready, raw, clock);
    CachedSourceAgrees(ready, raw, clock);
    assert SameApartFromCaches(ready, raw);
    hide QuoteDeposit, QuoteWithdraw, CachedFrom, CurrentAum, Source;
    DepositSeesCachesOnlyThroughAum(ready, raw, clock, v, feeBps, amount);
    WithdrawSeesCachesOnlyThroughRates(ready, raw, clock, v, amount);
  }
}
