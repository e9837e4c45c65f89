/** Quotes over a Lulo protected position, whose pending fees are priced into every share. */
module Lulo {
  import opened Arith
  import opened Outcome
  import opened Fixed
  import opened Checked

  datatype LuloState = LuloState(
    halted: bool, depositLimit: u64, protectedAmount: u64, protectedSupply: u64,
    chargedQ60: u128, averageQ60: u128, referralBps: u16)

  /** A wrapper vault with idle underlying beside its position. */
  datatype LuloVault = LuloVault(supply: u64, position: u128, idle: u64, creatorFeeBps: u16)

  /** The gain of a position over a cost basis; only its low 128 bits are looked at. */
  function PositionProfit(s: LuloState, position: u128, basisQ60: u128): Result<u64> {
    if s.protectedSupply == 0 || s.protectedAmount == 0 || position == 0 then Ok(0)
    else
      var gain := SatSub(s.protectedAmount * ONE, basisQ60 * s.protectedSupply);
      FitU64(Quotient(gain * position, s.protectedSupply * ONE) % U128_LIMIT)
  }

  function FeeFromProfit(profit: u64, bps: u16): u64 {
    if profit * bps == 0 then 0 else Quotient(profit * bps - 1, FULL_BPS) % U64_LIMIT
  }

  /** The fee on the smaller of the gain since the last charge and the gain over the average cost. */
  function PositionFee(s: LuloState, position: u128, oldPosition: u128): Result<u64> {
    var sinceCharge :- PositionProfit(s, position, s.chargedQ60);
    var overAverage :- PositionProfit(s, oldPosition, s.averageQ60);
    Ok(FeeFromProfit(Min(sinceCharge, overAverage), s.referralBps))
  }

  function PositionValue(s: LuloState, position: u128): Result<u64> {
    if s.protectedSupply == 0 || s.protectedAmount == 0 || position == 0 then Ok(0)
    else
      var fee :- PositionFee(s, position, position);
      var product :- FitU128(position * s.protectedAmount);
      var gross :- FitU64(Quotient(product, s.protectedSupply));
      Ok(SatSub(gross, fee))
  }

  function TotalValue(s: LuloState, v: LuloVault): Result<u64> {
    var staked :- PositionValue(s, v.position);
    FitU64(v.idle + staked)
  }

  /** The position predicted for after staking the idle underlying and `net` more, less the pending fee. */
  function PositionAfter(s: LuloState, v: LuloVault, net: u64): Result<u128> {
    var buffer :- FitU64(v.idle + net);
    var pa: nat :- if s.protectedAmount == 0 then Err(DivideByZero) else Ok(s.protectedAmount);
    var bought: u128 :- FitU128(Quotient(buffer * s.protectedSupply, pa));
    var together :- FitU128(v.position + bought);
    var fee :- PositionFee(s, together, v.position);
    var feePosition := if fee == 0 then 0 else CeilDiv(fee * s.protectedSupply, pa);
    FitU128(v.position + SatSub(bought, feePosition))
  }

  /** The vault's value predicted for that position. */
  function PredictedValue(s: LuloState, v: LuloVault, before: u64, net: u64): Result<u64> {
    var after :- PositionAfter(s, v, net);
    var value :- PositionValue(s, after);
    var postFee :- PositionFee(s, after, after);
    var staked :- FitU64(value + postFee);
    var ceiling :- FitU64(before + net);
    Ok(Min(staked, ceiling))
  }

  function MintFor(v: LuloVault, before: u64, predicted: u64): Result<u64> {
    if v.supply == 0 then
      if before != 0 then Err(ValueWithoutSupply) else Ok(predicted)
    else if before == 0 then Err(SupplyWithoutValue)
    else
      var product :- FitU128(SatSub(predicted, before) * v.supply);
      FitU64(Quotient(product, before))
  }

  function QuoteDeposit(s: LuloState, v: LuloVault, protocolFeeBps: u16, amount: u64): Result<u64> {
    var _ :- Require(amount != 0, ZeroAmount);
    var _ :- Require(!s.halted, Halted);
    var net :- Checked.NetAmount(amount, protocolFeeBps, v.creatorFeeBps);
    var _ :- Require(net != 0, NetZero);
    var _ :- Require(net <= SatSub(s.depositLimit, s.protectedAmount) / 2, CoverageCap);
    var before :- TotalValue(s, v);
    var predicted :- PredictedValue(s, v, before, net);
    DepositAt(v, before, predicted)
  }

  function DepositAt(v: LuloVault, before: u64, predicted: u64): Result<u64> {
    var minted :- MintFor(v, before, predicted);
    var _ :- Require(minted != 0, MintZero);
    var newSupply :- FitU64(v.supply + minted);
    var _ :- RequireNoValuePerShareLoss(before, v.supply, predicted, newSupply);
    Ok(minted)
  }

  /** One position share, rounded up to whole atoms. */
  function CeilPrice(s: LuloState): nat {
    if s.protectedSupply == 0 then 0 else CeilDiv(s.protectedAmount, s.protectedSupply)
  }

  /** A partial exit: the share of the idle part and of the position, short one share price and one atom. */
  function Owed(s: LuloState, v: LuloVault, staked: u64, amount: u64): Result<u64>
    requires v.supply > 0
  {
    var idleShare := Quotient(amount * v.idle, v.supply);
    var product :- FitU128(amount * v.position);
    var userPosition := Quotient(product, v.supply);
    var stakedProduct :- FitU128(staked * userPosition);
    var stakedShare := if v.position == 0 then 0 else Quotient(stakedProduct, v.position);
    FitU64(SatSub(idleShare + stakedShare, CeilPrice(s) + 1))
  }

  function QuoteWithdraw(s: LuloState, v: LuloVault, amount: u64): Result<u64> {
    var _ :- Require(amount != 0, ZeroAmount);
    var _ :- Require(!s.halted, Halted);
    var _ :- Require(amount <= v.supply, BurnExceedsSupply);
    var staked :- PositionValue(s, v.position);
    var total :- FitU64(v.idle + staked);
    var _ :- Require(total != 0, TotalZero);
    var _ :- Require(amount != v.supply, FullExit);
    var owed :- Owed(s, v, staked, amount);
    var _ :- Require(owed != 0, OwedZero);
    var newValue: u64 :- Sub(total, owed);
    var newSupply: u64 :- Sub(v.supply, amount);
    var _ :- RequireNoValuePerShareLoss(total, v.supply, newValue, newSupply);
    Ok(owed)
  }

  // ---------------------------------------------------------------- fees

  /** The gain of the pool over a cost basis, in 60-bit fixed point. */
  ghost function PoolGain(s: LuloState, basisQ60: u128): nat {
    SatSub(s.protectedAmount * ONE, basisQ60 * s.protectedSupply)
  }

  /** A position's profit is at most its part of the pool's gain. */
  lemma ProfitWithinGain(s: LuloState, position: u128, basisQ60: u128)
    requires PositionProfit(s, position, basisQ60).Ok?
    ensures PositionProfit(s, position, basisQ60).value * (s.protectedSupply * ONE)
         <= PoolGain(s, basisQ60) * position
  {
    MulMono(0, PoolGain(s, basisQ60), position);
    if s.protectedSupply > 0 && s.protectedAmount > 0 && position > 0 {
      var exact := Quotient(PoolGain(s, basisQ60) * position, s.protectedSupply * ONE);
      DivBounds(PoolGain(s, basisQ60) * position, s.protectedSupply * ONE);
      CutBelow(exact);
      MulMono(PositionProfit(s, position, basisQ60).value, exact, s.protectedSupply * ONE);
    }
  }

  lemma CutBelow(n: nat)
    ensures n % U128_LIMIT <= n && n % U64_LIMIT <= n
  {
  }

  /** A fee stays strictly below its rate on the profit, and a profit without gain pays none. */
  lemma FeeBelowRate(profit: u64, bps: u16)
    ensures FeeFromProfit(profit, bps) * FULL_BPS <= profit * bps
    ensures profit * bps > 0 ==> FeeFromProfit(profit, bps) * FULL_BPS < profit * bps
    ensures profit * bps > 0 && bps <= FULL_BPS ==> profit * bps <= FeeFromProfit(profit, bps) * FULL_BPS + FULL_BPS
  {
    MulMono(0, profit, bps);
    if profit * bps > 0 {
      var due := profit * bps - 1;
      if bps <= FULL_BPS {
        MulMono(bps, FULL_BPS, profit);
      }
      FeeCut(due, profit);
    }
  }

  lemma FeeCut(due: nat, profit: u64)
    ensures Quotient(due, FULL_BPS) % U64_LIMIT * FULL_BPS <= due
    ensures due < profit * FULL_BPS ==> due < Quotient(due, FULL_BPS) % U64_LIMIT * FULL_BPS + FULL_BPS
  {
    DivBounds(due, FULL_BPS);
    CutBelow(Quotient(due, FULL_BPS));
  }

  lemma FeeScaled(fee: nat, profit: nat, gain: nat, bps: nat, scale: nat, gained: nat)
    requires fee * FULL_BPS <= profit * bps && profit <= gain && gain * scale <= gained
    ensures fee * FULL_BPS * scale <= gained * bps
  {
    MulMono(profit, gain, scale);
    MulMono(fee * FULL_BPS, profit * bps, scale);
    assert profit * bps * scale == profit * scale * bps;
    MulMono(profit * scale, gained, bps);
  }

  /**
   The pending fee is at most the referral rate on either gain: the one since the last charge and the
   one over the average cost. A position that has not gained on one of them owes nothing.
   */
  lemma FeeWithinBothGains(s: LuloState, position: u128, oldPosition: u128, fee: u64)
    requires PositionFee(s, position, oldPosition) == Ok(fee)
    ensures fee * FULL_BPS * (s.protectedSupply * ONE) <= PoolGain(s, s.chargedQ60) * position * s.referralBps
    ensures fee * FULL_BPS * (s.protectedSupply * ONE) <= PoolGain(s, s.averageQ60) * oldPosition * s.referralBps
    ensures PoolGain(s, s.chargedQ60) == 0 || PoolGain(s, s.averageQ60) == 0 ==> fee == 0
  {
    hide PositionProfit, PoolGain, FeeFromProfit;
    var sinceCharge := PositionProfit(s, position, s.chargedQ60).value;
    var overAverage := PositionProfit(s, oldPosition, s.averageQ60).value;
    var profit: u64 := Min(sinceCharge, overAverage);
    FeeBelowRate(profit, s.referralBps);
    ProfitWithinGain(s, position, s.chargedQ60);
    ProfitWithinGain(s, oldPosition, s.averageQ60);
    FeeScaled(fee, profit, sinceCharge, s.referralBps, s.protectedSupply * ONE, PoolGain(s, s.chargedQ60) * position);
    FeeScaled(fee, profit, overAverage, s.referralBps, s.protectedSupply * ONE, PoolGain(s, s.averageQ60) * oldPosition);
    if PoolGain(s, s.chargedQ60) == 0 || PoolGain(s, s.averageQ60) == 0 {
      NoProfitNoFee(s, position, oldPosition);
    }
  }

  lemma NoProfitNoFee(s: LuloState, position: u128, oldPosition: u128)
    requires PositionFee(s, position, oldPosition).Ok?
    requires PoolGain(s, s.chargedQ60) == 0 || PoolGain(s, s.averageQ60) == 0
    ensures PositionFee(s, position, oldPosition).value == 0
  {
    if PoolGain(s, s.chargedQ60) == 0 {
      NoGainNoProfit(s, position, s.chargedQ60);
    } else {
      NoGainNoProfit(s, oldPosition, s.averageQ60);
    }
    hide PositionProfit, PoolGain;
  }

  lemma NoGainNoProfit(s: LuloState, position: u128, basisQ60: u128)
    requires PositionProfit(s, position, basisQ60).Ok? && PoolGain(s, basisQ60) == 0
    ensures PositionProfit(s, position, basisQ60).value == 0
  {
    if s.protectedSupply > 0 && s.protectedAmount > 0 && position > 0 {
      DivAtMost(0, s.protectedSupply * ONE, 0);
      DivAtLeast(0, s.protectedSupply * ONE, 0);
    }
  }

  /** At referral rates up to 100% a pending fee is at most what the whole position is worth. */
  lemma FeeWithinWorth(s: LuloState, position: u128, fee: u64)
    requires s.referralBps <= FULL_BPS && PositionFee(s, position, position) == Ok(fee)
    ensures fee * s.protectedSupply <= position * s.protectedAmount
  {
    hide PositionFee;
    FeeWithinBothGains(s, position, position, fee);
    var gain := PoolGain(s, s.chargedQ60);
    assert gain <= s.protectedAmount * ONE by { MulMono(0, s.chargedQ60, s.protectedSupply); }
    hide PoolGain;
    WorthScaled(fee, s.protectedSupply, gain, position, s.referralBps, s.protectedAmount);
  }

  // ---------------------------------------------------------------- no more is kept back than that

  /** A profit that fits 128 bits is the position's part of the pool's gain, rounded down. */
  lemma ProfitReachesGain(s: LuloState, position: u128, basisQ60: u128)
    requires s.protectedSupply > 0 && PositionProfit(s, position, basisQ60).Ok?
    requires position * s.protectedAmount < U128_LIMIT
    ensures PoolGain(s, basisQ60) * position
          < (PositionProfit(s, position, basisQ60).value + 1) * (s.protectedSupply * ONE)
  {
    var gain := PoolGain(s, basisQ60);
    MulMono(0, basisQ60, s.protectedSupply);
    if s.protectedAmount > 0 && position > 0 {
      MulMono(gain, s.protectedAmount * ONE, position);
      MulMono(0, gain, position);
      assert s.protectedAmount * ONE * position == position * s.protectedAmount * ONE;
      DivBounds(gain * position, s.protectedSupply * ONE);
      ProfitFits(gain * position, position * s.protectedAmount, s.protectedSupply);
    } else {
      assert gain * position == 0;
    }
  }

  lemma ProfitFits(gained: nat, worth: nat, supply: nat)
    requires supply > 0 && gained <= worth * ONE && worth < U128_LIMIT
    ensures Quotient(gained, supply * ONE) < U128_LIMIT
  {
    MulMono(ONE, supply * ONE, U128_LIMIT);
    DivAtMost(gained, supply * ONE, U128_LIMIT - 1);
  }

  /** The pending fee reaches its rate on one of the two gains, but for an atom of fee and one of profit. */
  lemma FeeReachesOneGain(s: LuloState, position: u128, oldPosition: u128, fee: u64)
    requires s.protectedSupply > 0 && s.referralBps <= FULL_BPS && PositionFee(s, position, oldPosition) == Ok(fee)
    requires position * s.protectedAmount < U128_LIMIT && oldPosition * s.protectedAmount < U128_LIMIT
    ensures var most := (fee * FULL_BPS + FULL_BPS + s.referralBps) * (s.protectedSupply * ONE);
      || PoolGain(s, s.chargedQ60) * position * s.referralBps <= most
      || PoolGain(s, s.averageQ60) * oldPosition * s.referralBps <= most
  {
    ProfitReachesGain(s, position, s.chargedQ60);
    ProfitReachesGain(s, oldPosition, s.averageQ60);
    hide PositionProfit, PoolGain, FeeFromProfit;
    var sinceCharge := PositionProfit(s, position, s.chargedQ60).value;
    var overAverage := PositionProfit(s, oldPosition, s.averageQ60).value;
    var profit: u64 := Min(sinceCharge, overAverage);
    FeeBelowRate(profit, s.referralBps);
    MulMono(0, profit, s.referralBps);
    assert profit * s.referralBps <= fee * FULL_BPS + FULL_BPS;
    if sinceCharge <= overAverage {
      ReachesScaled(fee, profit, s.referralBps, s.protectedSupply * ONE, PoolGain(s, s.chargedQ60) * position);
    } else {
      ReachesScaled(fee, profit, s.referralBps, s.protectedSupply * ONE, PoolGain(s, s.averageQ60) * oldPosition);
    }
  }

  lemma ReachesScaled(fee: nat, profit: nat, bps: nat, scale: nat, gained: nat)
    requires profit * bps <= fee * FULL_BPS + FULL_BPS && gained < (profit + 1) * scale
    ensures gained * bps <= (fee * FULL_BPS + FULL_BPS + bps) * scale
  {
    MulMono(gained, (profit + 1) * scale, bps);
    assert (profit + 1) * scale * bps == (profit * bps + bps) * scale;
    MulMono(profit * bps + bps, fee * FULL_BPS + FULL_BPS + bps, scale);
  }

  /** A position's value with its pending fee put back is its worth at the pool's price, but for an atom. */
  lemma ValueReachesWorth(s: LuloState, position: u128, value: u64, fee: u64)
    requires s.protectedSupply > 0
    requires PositionValue(s, position) == Ok(value) && PositionFee(s, position, position) == Ok(fee)
    ensures position * s.protectedAmount < (value + fee + 1) * s.protectedSupply
  {
    hide PositionFee;
    if s.protectedAmount > 0 && position > 0 {
      MulMono(0, position, s.protectedAmount);
      DivBounds(position * s.protectedAmount, s.protectedSupply);
      var gross := Quotient(position * s.protectedAmount, s.protectedSupply);
      MulMono(gross + 1, value + fee + 1, s.protectedSupply);
      assert (gross + 1) * s.protectedSupply == gross * s.protectedSupply + s.protectedSupply;
    } else {
      MulMono(0, value + fee, s.protectedSupply);
    }
  }

  lemma WorthScaled(fee: nat, supply: nat, gain: nat, position: nat, bps: nat, amount: nat)
    requires fee * FULL_BPS * (supply * ONE) <= gain * position * bps
    requires bps <= FULL_BPS && gain <= amount * ONE
    ensures fee * supply <= position * amount
  {
    MulMono(0, gain, position);
    MulMono(bps, FULL_BPS, gain * position);
    assert fee * FULL_BPS * (supply * ONE) == fee * supply * ONE * FULL_BPS;
    MulCancel(fee * supply * ONE, gain * position, FULL_BPS);
    MulMono(gain, amount * ONE, position);
    assert amount * ONE * position == position * amount * ONE;
    MulCancel(fee * supply, position * amount, ONE);
  }

  /** A position's value with its pending fee put back is at most its worth at the pool's price. */
  lemma ValueWithinWorth(s: LuloState, position: u128, value: u64, fee: u64)
    requires s.referralBps <= FULL_BPS
    requires PositionValue(s, position) == Ok(value) && PositionFee(s, position, position) == Ok(fee)
    ensures (value + fee) * s.protectedSupply <= position * s.protectedAmount
  {
    FeeWithinWorth(s, position, fee);
    MulMono(0, position, s.protectedAmount);
    hide PositionFee;
    if s.protectedSupply > 0 && s.protectedAmount > 0 && position > 0 {
      DivBounds(position * s.protectedAmount, s.protectedSupply);
    }
  }

  /** Underlying that goes into the stake, at the pool's price. */
  ghost function Bought(s: LuloState, v: LuloVault, net: u64): nat
    requires s.protectedAmount > 0
  {
    Quotient((v.idle + net) * s.protectedSupply, s.protectedAmount)
  }

  /** The worth of a position and a fee, or of what was bought if that is less, fit the old position and the stake. */
  ghost predicate FeeCovered(pa: int, position: int, stake: int, bought: int, fee: int, after: int) {
    after * pa + Min(fee, bought * pa) <= position * pa + stake
  }

  /**
   The predicted position has the pending fee taken out: together with that fee, or with the whole new
   stake when it does not cover the fee, it is worth at most the old position and all idle underlying.
   */
  lemma PositionAfterPaysFee(s: LuloState, v: LuloVault, net: u64, after: u128)
    requires PositionAfter(s, v, net) == Ok(after)
    ensures s.protectedAmount > 0 && v.position + Bought(s, v, net) < U128_LIMIT
    ensures PositionFee(s, v.position + Bought(s, v, net), v.position).Ok?
    ensures var (bought, fee) := (Bought(s, v, net), PositionFee(s, v.position + Bought(s, v, net), v.position).value);
      FeeCovered(s.protectedAmount, v.position, (v.idle + net) * s.protectedSupply, bought, fee * s.protectedSupply, after)
  {
    hide PositionFee, FeeCovered;
    var bought, fee := Bought(s, v, net), PositionFee(s, v.position + Bought(s, v, net), v.position).value;
    var feePosition := if fee == 0 then 0 else CeilDiv(fee * s.protectedSupply, s.protectedAmount);
    FeeTakenOut(s.protectedAmount, v.position, (v.idle + net) * s.protectedSupply, bought, fee * s.protectedSupply,
                feePosition);
  }

  /** The predicted value is at most the predicted position's worth, and capped at what was there and what came in. */
  lemma PredictionWithinWorth(s: LuloState, v: LuloVault, before: u64, net: u64, predicted: u64)
    requires s.referralBps <= FULL_BPS && PredictedValue(s, v, before, net) == Ok(predicted)
    ensures predicted <= before + net && PositionAfter(s, v, net).Ok?
    ensures predicted * s.protectedSupply <= PositionAfter(s, v, net).value * s.protectedAmount
  {
    hide PositionFee, PositionValue, PositionAfter;
    var after := PositionAfter(s, v, net).value;
    var value, postFee := PositionValue(s, after).value, PositionFee(s, after, after).value;
    ValueWithinWorth(s, after, value, postFee);
    MulMono(predicted, value + postFee, s.protectedSupply);
  }

  /** Nothing else is taken out: position and stake are worth the predicted position and the fee, but for two shares. */
  lemma PositionAfterReaches(s: LuloState, v: LuloVault, net: u64, after: u128)
    requires PositionAfter(s, v, net) == Ok(after)
    ensures s.protectedAmount > 0 && v.position + Bought(s, v, net) < U128_LIMIT
    ensures PositionFee(s, v.position + Bought(s, v, net), v.position).Ok?
    ensures v.position * s.protectedAmount + (v.idle + net) * s.protectedSupply
          < (after + 2) * s.protectedAmount
            + PositionFee(s, v.position + Bought(s, v, net), v.position).value * s.protectedSupply
  {
    hide PositionFee;
    var bought, fee := Bought(s, v, net), PositionFee(s, v.position + Bought(s, v, net), v.position).value;
    var feePosition := if fee == 0 then 0 else CeilDiv(fee * s.protectedSupply, s.protectedAmount);
    FeeTakenOnce(s.protectedAmount, v.position, (v.idle + net) * s.protectedSupply, bought, fee * s.protectedSupply,
                 feePosition);
  }

  lemma FeeTakenOnce(pa: nat, position: nat, stake: nat, bought: nat, fee: nat, feePosition: nat)
    requires pa > 0 && bought == Quotient(stake, pa) && (feePosition == CeilDiv(fee, pa) || fee == 0 == feePosition)
    ensures position * pa + stake < (position + SatSub(bought, feePosition) + 2) * pa + fee
  {
    DivBounds(stake, pa);
    CeilBounds(fee, pa);
    MulMono(position + bought - feePosition + 2, position + SatSub(bought, feePosition) + 2, pa);
    assert (position + bought - feePosition + 2) * pa == position * pa + bought * pa - feePosition * pa + 2 * pa;
  }

  /** The predicted value is the predicted position's worth, but for an atom, unless it is capped. */
  lemma PredictionReachesWorth(s: LuloState, v: LuloVault, before: u64, net: u64, predicted: u64)
    requires s.protectedSupply > 0 && PredictedValue(s, v, before, net) == Ok(predicted)
    ensures PositionAfter(s, v, net).Ok?
    ensures predicted == before + net
         || PositionAfter(s, v, net).value * s.protectedAmount < (predicted + 1) * s.protectedSupply
  {
    hide PositionFee, PositionValue, PositionAfter;
    var after := PositionAfter(s, v, net).value;
    ValueReachesWorth(s, after, PositionValue(s, after).value, PositionFee(s, after, after).value);
  }

  lemma FeeTakenOut(pa: nat, position: nat, stake: nat, bought: nat, fee: nat, feePosition: nat)
    requires pa > 0 && bought == Quotient(stake, pa) && (feePosition == CeilDiv(fee, pa) || fee == 0 == feePosition)
    ensures FeeCovered(pa, position, stake, bought, fee, position + SatSub(bought, feePosition))
  {
    DivBounds(stake, pa);
    CeilBounds(fee, pa);
    assert (position + SatSub(bought, feePosition)) * pa == position * pa + SatSub(bought, feePosition) * pa;
    if feePosition <= bought {
      assert (bought - feePosition) * pa == bought * pa - feePosition * pa;
    }
  }

  // ---------------------------------------------------------------- properties

  /** A deposit is never credited with more than it brought, and the guard never rejects one. */
  lemma DepositNeverDilutes(s: LuloState, v: LuloVault, before: u64, predicted: u64, net: u64)
    requires PredictedValue(s, v, before, net) == Ok(predicted)
    ensures DepositAt(v, before, predicted) != Err(ValuePerShareLoss)
    ensures DepositAt(v, before, predicted).Ok? ==>
      var minted := DepositAt(v, before, predicted).value;
      && minted > 0
      && (v.supply > 0 ==> before < predicted && minted * before <= net * v.supply
                           && minted == (predicted - before) * v.supply / before)
      && (v.supply == 0 ==> before == 0 && minted == predicted <= net)
  {
    hide PositionFee, PositionValue;
    assert predicted <= before + net;
    if v.supply > 0 && before > 0 {
      var added := SatSub(predicted, before);
      DivBounds(added * v.supply, before);
      MulMono(added, net, v.supply);
      MulBelowLimits(added, v.supply, U64_LIMIT, U64_LIMIT);
      MulMono(0, added, v.supply);
      var minted := added * v.supply / before;
      if minted > 0 {
        assert added > 0;
        if v.supply + minted < U64_LIMIT {
          MintPassesGuard(before, v.supply, added, predicted, minted, v.supply + minted);
        }
      } else {
        DivAtLeast(added * v.supply, before, 0);
      }
    }
  }

  /**
   A deposit is accepted only in a running pool and up to half of what its limit leaves, and mints the
   pro-rata floor of what it adds to the predicted value, or that value whole as the first.
   */
  lemma DepositExact(s: LuloState, v: LuloVault, protocolFeeBps: u16, amount: u64)
    requires QuoteDeposit(s, v, protocolFeeBps, amount).Ok?
    ensures amount > 0 && !s.halted && Checked.NetAmount(amount, protocolFeeBps, v.creatorFeeBps).Ok?
    ensures TotalValue(s, v).Ok?
    ensures var (net, before) := (Checked.NetAmount(amount, protocolFeeBps, v.creatorFeeBps).value, TotalValue(s, v).value);
      && net > 0 && s.protectedAmount + 2 * net <= s.depositLimit && PredictedValue(s, v, before, net).Ok?
      && var (predicted, minted) := (PredictedValue(s, v, before, net).value,
                                     QuoteDeposit(s, v, protocolFeeBps, amount).value);
      if v.supply == 0 then before == 0 && minted == predicted
      else
        && 0 < before < predicted
        && minted * before <= (predicted - before) * v.supply < (minted + 1) * before
  {
    hide PredictedValue, TotalValue, DepositAt, Checked.NetAmount;
    var net, before := Checked.NetAmount(amount, protocolFeeBps, v.creatorFeeBps).value, TotalValue(s, v).value;
    var predicted := PredictedValue(s, v, before, net).value;
    DepositNeverDilutes(s, v, before, predicted, net);
    if v.supply > 0 {
      NotWithoutValue(v, before, predicted);
      DivBounds((predicted - before) * v.supply, before);
    }
  }

  /** And nothing else is asked. */
  lemma DepositAccepted(s: LuloState, v: LuloVault, protocolFeeBps: u16, amount: u64)
    requires amount > 0 && !s.halted && Checked.NetAmount(amount, protocolFeeBps, v.creatorFeeBps).Ok?
    requires TotalValue(s, v).Ok?
    ensures var (net, before) := (Checked.NetAmount(amount, protocolFeeBps, v.creatorFeeBps).value, TotalValue(s, v).value);
      0 < net <= SatSub(s.depositLimit, s.protectedAmount) / 2 && PredictedValue(s, v, before, net).Ok? ==>
      var predicted := PredictedValue(s, v, before, net).value;
      QuoteDeposit(s, v, protocolFeeBps, amount).Ok? <==>
        if v.supply == 0 then before == 0 < predicted
        else
          && 0 < before < predicted && 0 < (predicted - before) * v.supply / before
          && v.supply + (predicted - before) * v.supply / before < U64_LIMIT
  {
    hide PredictedValue, TotalValue, DepositAt, Checked.NetAmount;
    var net, before := Checked.NetAmount(amount, protocolFeeBps, v.creatorFeeBps).value, TotalValue(s, v).value;
    if net > 0 && PredictedValue(s, v, before, net).Ok? {
      MintAccepted(v, before, PredictedValue(s, v, before, net).value);
    }
  }

  lemma MintAccepted(v: LuloVault, before: u64, predicted: u64)
    ensures DepositAt(v, before, predicted).Ok? <==>
      if v.supply == 0 then before == 0 < predicted
      else
        && 0 < before < predicted && 0 < (predicted - before) * v.supply / before
        && v.supply + (predicted - before) * v.supply / before < U64_LIMIT
  {
    if v.supply > 0 && before > 0 {
      var added := SatSub(predicted, before);
      MulBelowLimits(added, v.supply, U64_LIMIT, U64_LIMIT);
      MulMono(0, added, v.supply);
      DivBounds(added * v.supply, before);
      var minted := added * v.supply / before;
      if added == 0 {
        DivAtMost(0, before, 0);
      } else if 0 < minted && v.supply + minted < U64_LIMIT {
        MintPassesGuard(before, v.supply, added, predicted, minted, v.supply + minted);
      }
    }
  }

  lemma NotWithoutValue(v: LuloVault, before: u64, predicted: u64)
    requires v.supply > 0 && DepositAt(v, before, predicted).Ok?
    ensures before > 0
  {
  }

  lemma QuoteDepositNeverRejectedByGuard(s: LuloState, v: LuloVault, protocolFeeBps: u16, amount: u64)
    ensures QuoteDeposit(s, v, protocolFeeBps, amount) != Err(ValuePerShareLoss)
  {
    hide PositionFee, PositionValue, DepositAt;
    ValueFailsArithmetically(s, v.position);
    var net, before := Checked.NetAmount(amount, protocolFeeBps, v.creatorFeeBps), TotalValue(s, v);
    if net.Ok? && before.Ok? {
      PredictionFailsArithmetically(s, v, before.value, net.value);
      if PredictedValue(s, v, before.value, net.value).Ok? {
        DepositNeverDilutes(s, v, before.value, PredictedValue(s, v, before.value, net.value).value, net.value);
      }
    }
  }

  lemma PredictionFailsArithmetically(s: LuloState, v: LuloVault, before: u64, net: u64)
    ensures PredictedValue(s, v, before, net) != Err(ValuePerShareLoss)
  {
    hide PositionFee, PositionValue;
    FeeFailsArithmetically(s);
    forall position: u128
      ensures PositionValue(s, position) != Err(ValuePerShareLoss)
    {
      ValueFailsArithmetically(s, position);
    }
  }

  lemma FeeFailsArithmetically(s: LuloState)
    ensures forall p: u128, q: u128 :: PositionFee(s, p, q) != Err(ValuePerShareLoss)
  {
    forall p: u128, q: u128
      ensures PositionFee(s, p, q) != Err(ValuePerShareLoss)
    {
    }
  }

  /** The two shares of a partial exit together are at most the exiting fraction of the whole. */
  lemma OwedWithinShare(idle: nat, staked: nat, position: nat, supply: nat, amount: nat, stakedShare: nat)
    requires supply > 0
    requires stakedShare == if position == 0 then 0
                            else Quotient(staked * Quotient(amount * position, supply), position)
    ensures (Quotient(amount * idle, supply) + stakedShare) * supply <= amount * (idle + staked)
  {
    var idleShare, user := Quotient(amount * idle, supply), Quotient(amount * position, supply);
    DivBounds(amount * idle, supply);
    DivBounds(amount * position, supply);
    assert amount * (idle + staked) == amount * idle + amount * staked;
    assert (idleShare + stakedShare) * supply == idleShare * supply + stakedShare * supply;
    if position > 0 {
      DivBounds(staked * user, position);
      StakedWithin(staked, position, supply, amount, user, stakedShare);
    } else {
      MulMono(0, amount, staked);
    }
  }

  lemma StakedWithin(staked: nat, position: nat, supply: nat, amount: nat, user: nat, share: nat)
    requires position > 0 && share * position <= staked * user && user * supply <= amount * position
    ensures share * supply <= amount * staked
  {
    MulMono(share * position, staked * user, supply);
    MulMono(user * supply, amount * position, staked);
    assert share * position * supply == share * supply * position;
    assert staked * user * supply == user * supply * staked;
    assert amount * position * staked == amount * staked * position;
    MulCancel(share * supply, amount * staked, position);
  }

  /**
   A partial exit leaves at least one share price and one atom of the exiting fraction behind, so the
   guard never rejects one.
   */
  lemma WithdrawNeverDilutes(s: LuloState, v: LuloVault, amount: u64)
    ensures QuoteWithdraw(s, v, amount) != Err(ValuePerShareLoss)
    ensures QuoteWithdraw(s, v, amount) != Err(Underflow)
    ensures QuoteWithdraw(s, v, amount).Ok? ==>
      && TotalValue(s, v).Ok? && 0 < amount < v.supply
      && (QuoteWithdraw(s, v, amount).value + CeilPrice(s) + 1) * v.supply <= amount * TotalValue(s, v).value
  {
    hide PositionValue, CeilPrice;
    ValueFailsArithmetically(s, v.position);
    var staked := PositionValue(s, v.position);
    if staked.Ok? && 0 < amount < v.supply && v.idle + staked.value < U64_LIMIT {
      var total := v.idle + staked.value;
      var owed := Owed(s, v, staked.value, amount);
      if owed.Ok? && owed.value > 0 {
        OwedLeavesBehind(s, v, staked.value, amount);
        var kept := CeilPrice(s) + 1;
        assert (owed.value + kept) * v.supply == owed.value * v.supply + kept * v.supply;
        MulMono(0, kept, v.supply);
        MulMono(amount, v.supply, total);
        MulCancel(owed.value, total, v.supply);
        BurnPassesGuard(total, v.supply, owed.value, total - owed.value, amount, v.supply - amount);
      }
    }
  }

  lemma OwedLeavesBehind(s: LuloState, v: LuloVault, staked: u64, amount: u64)
    requires v.supply > 0 && Owed(s, v, staked, amount).Ok? && Owed(s, v, staked, amount).value > 0
    ensures (Owed(s, v, staked, amount).value + CeilPrice(s) + 1) * v.supply <= amount * (v.idle + staked)
  {
    hide CeilPrice;
    var user := Quotient(amount * v.position, v.supply);
    var stakedShare := if v.position == 0 then 0 else Quotient(staked * user, v.position);
    OwedWithinShare(v.idle, staked, v.position, v.supply, amount, stakedShare);
  }

  /** One position share is worth at most the rounded-up price, and at most an atom less. */
  lemma CeilPriceExact(s: LuloState)
    requires s.protectedSupply > 0
    ensures s.protectedAmount <= CeilPrice(s) * s.protectedSupply < s.protectedAmount + s.protectedSupply
  {
    CeilBounds(s.protectedAmount, s.protectedSupply);
  }

  /**
   A partial exit pays the exiting fraction of the whole, but for that share price and atom, the roundings of
   both parts, and what one position share less is worth.
   */
  lemma WithdrawReachesShare(s: LuloState, v: LuloVault, amount: u64)
    requires QuoteWithdraw(s, v, amount).Ok?
    ensures PositionValue(s, v.position).Ok?
    ensures var (paid, staked) := (QuoteWithdraw(s, v, amount).value, PositionValue(s, v.position).value);
      && (v.position == 0 ==> amount * v.idle < (paid + CeilPrice(s) + 2) * v.supply)
      && (v.position > 0 ==>
            amount * (v.idle + staked) * v.position
              < (paid + CeilPrice(s) + 3) * v.supply * v.position + staked * v.supply)
  {
    hide CeilPrice, PositionValue;
    var staked := PositionValue(s, v.position).value;
    var user := Quotient(amount * v.position, v.supply);
    var stakedShare := if v.position == 0 then 0 else Quotient(staked * user, v.position);
    OwedReachesShare(v.idle, staked, v.position, v.supply, amount, stakedShare,
                     QuoteWithdraw(s, v, amount).value + CeilPrice(s) + 1);
  }

  /** When a withdrawal is accepted: a partial exit from a running pool whose sizes fit and that leaves something to pay. */
  lemma WithdrawAccepted(s: LuloState, v: LuloVault, amount: u64)
    requires 0 < amount < v.supply && !s.halted && PositionValue(s, v.position).Ok?
    requires v.idle + PositionValue(s, v.position).value < U64_LIMIT
    ensures QuoteWithdraw(s, v, amount).Ok? <==>
      var owed := Owed(s, v, PositionValue(s, v.position).value, amount);
      owed.Ok? && owed.value > 0
    ensures QuoteWithdraw(s, v, amount).Ok? ==>
      QuoteWithdraw(s, v, amount) == Owed(s, v, PositionValue(s, v.position).value, amount)
  {
    WithdrawNeverDilutes(s, v, amount);
    hide PositionValue, CeilPrice;
    var staked := PositionValue(s, v.position).value;
    var owed := Owed(s, v, staked, amount);
    if owed.Ok? && owed.value > 0 {
      OwedLeavesBehind(s, v, staked, amount);
      hide Owed;
      OwedWithinTotal(owed.value + CeilPrice(s) + 1, v.supply, amount, v.idle + staked);
    }
  }

  lemma OwedWithinTotal(kept: nat, supply: nat, amount: nat, total: nat)
    requires kept * supply <= amount * total && amount <= supply && supply > 0
    ensures kept <= total
  {
    MulMono(amount, supply, total);
    MulCancel(kept, total, supply);
  }

  /** What is owed can always be computed once the products fit. */
  lemma OwedSucceeds(s: LuloState, v: LuloVault, staked: u64, amount: u64)
    requires 0 < v.supply && amount <= v.supply && v.idle + staked < U64_LIMIT
    requires 0 <= amount * v.position < U128_LIMIT
    requires staked * Quotient(amount * v.position, v.supply) < U128_LIMIT
    ensures Owed(s, v, staked, amount).Ok?
  {
    hide CeilPrice, Quotient;
    var user := Quotient(amount * v.position, v.supply);
    var stakedShare := if v.position == 0 then 0 else Quotient(staked * user, v.position);
    OwedWithinShare(v.idle, staked, v.position, v.supply, amount, stakedShare);
    OwedWithinTotal(Quotient(amount * v.idle, v.supply) + stakedShare, v.supply, amount, v.idle + staked);
  }

  lemma OwedReachesShare(idle: nat, staked: nat, position: nat, supply: nat, amount: nat, stakedShare: nat, covered: nat)
    requires supply > 0 && covered >= Quotient(amount * idle, supply) + stakedShare
    requires stakedShare == if position == 0 then 0
                            else Quotient(staked * Quotient(amount * position, supply), position)
    ensures position == 0 ==> amount * idle < (covered + 1) * supply
    ensures position > 0 ==>
      amount * (idle + staked) * position < (covered + 2) * supply * position + staked * supply
  {
    var idleShare, user := Quotient(amount * idle, supply), Quotient(amount * position, supply);
    DivBounds(amount * idle, supply);
    DivBounds(amount * position, supply);
    if position == 0 {
      MulMono(idleShare + 1, covered + 1, supply);
    } else {
      DivBounds(staked * user, position);
      ReachesWhole(idle, staked, position, supply, amount, idleShare, user, stakedShare, covered);
    }
  }

  lemma ReachesWhole(idle: nat, staked: nat, position: nat, supply: nat, amount: nat, idleShare: nat, user: nat,
      stakedShare: nat, covered: nat)
    requires position > 0 && supply > 0 && idleShare + stakedShare <= covered
    requires amount * idle < idleShare * supply + supply && amount * position < user * supply + supply
    requires staked * user < stakedShare * position + position
    ensures amount * (idle + staked) * position < (covered + 2) * supply * position + staked * supply
  {
    IdleReaches(amount * idle, idleShare, supply, position);
    StakedReaches(staked, position, supply, amount, user, stakedShare);
    SplitProduct(amount, idle, staked, position);
    SharesAdd(idleShare, stakedShare, covered, supply * position);
    Regrouped(covered + 2, supply, position);
  }

  lemma SplitProduct(amount: nat, idle: nat, staked: nat, position: nat)
    ensures amount * (idle + staked) * position == amount * idle * position + amount * staked * position
  {
    assert amount * (idle + staked) == amount * idle + amount * staked;
  }

  lemma Regrouped(k: nat, supply: nat, position: nat)
    ensures k * supply * position == k * (supply * position)
  {
  }

  lemma SharesAdd(idleShare: nat, stakedShare: nat, covered: nat, unit: nat)
    requires idleShare + stakedShare <= covered
    ensures (idleShare + 1) * unit + (stakedShare + 1) * unit <= (covered + 2) * unit
  {
    MulMono(idleShare + stakedShare + 2, covered + 2, unit);
  }

  lemma IdleReaches(due: nat, idleShare: nat, supply: nat, position: nat)
    requires due < idleShare * supply + supply && position > 0
    ensures due * position < (idleShare + 1) * (supply * position)
  {
    MulMono(due + 1, (idleShare + 1) * supply, position);
    assert (due + 1) * position == due * position + position;
  }

  lemma StakedReaches(staked: nat, position: nat, supply: nat, amount: nat, user: nat, share: nat)
    requires amount * position < user * supply + supply && staked * user < share * position + position
    ensures amount * staked * position <= (share + 1) * (supply * position) + staked * supply
  {
    MulMono(amount * position, user * supply + supply, staked);
    MulMono(staked * user, share * position + position, supply);
    TakenFrom(staked, user, supply);
    assert staked * (amount * position) == amount * staked * position;
    assert (share * position + position) * supply == (share + 1) * (supply * position);
  }

  lemma TakenFrom(staked: nat, user: nat, supply: nat)
    ensures staked * (user * supply + supply) == staked * user * supply + staked * supply
  {
  }

  lemma ValueFailsArithmetically(s: LuloState, position: u128)
    ensures PositionValue(s, position).Err? ==>
      PositionValue(s, position).error == Overflow || PositionValue(s, position).error == DoesNotFit
  {
  }
}
