/** Deposit and withdrawal quotes of a wrapper vault over a klend reserve. */
module KlendQuote {
  import opened Arith
  import opened Outcome
  import opened Fixed
  import opened Checked
  import opened WrapperShares
  import opened KlendReserve

  const PROGRAM_VERSION: nat := 1

  datatype DepositPlan = DepositPlan(net: u64, collateral: u64, liquidity: u64, minted: u64)
  datatype WithdrawPlan = WithdrawPlan(collateral: u64, liquidity: u64)

  function PlanDeposit(s: KlendState, clock: Clock, v: Vault, protocolFeeBps: u16, amount: u64): Result<DepositPlan> {
    var _ :- Require(amount != 0, ZeroAmount);
    var _ :- Require(!s.emergencyMode, EmergencyMode);
    var _ :- Require(s.version == PROGRAM_VERSION, ReserveDeprecated);
    var _ :- Require(s.status == 0, ReserveObsolete);
    var _ :- Require(!s.blockCtokenUsage, CtokenUsageBlocked);
    var accrued :- AccrueInterest(s, clock);
    var total :- TotalSupply(s, accrued);
    var net :- Checked.NetAmount(amount, protocolFeeBps, v.creatorFeeBps);
    var _ :- Require(net != 0, NetZero);
    var (cs, ts) := ExchangeRatePair(s.collateralSupply, total);
    PlanDepositAt(s.depositLimit, total, cs, ts, v, net)
  }

  /** The deposit of `net` at the rate `ts / cs`. */
  function PlanDepositAt(limit: u64, total: Fraction, cs: u128, ts: Fraction, v: Vault, net: u64): Result<DepositPlan> {
    var collateral :- LiquidityToCollateral(net, cs, ts);
    var _ :- Require(collateral != 0, CollateralZero);
    var liquidity :- CollateralToLiquidityCeil(collateral, cs, ts);
    var _ :- Require(liquidity <= net, DepositAboveNet);
    var newTotal :- Add(FromNum(liquidity), total);
    var _ :- Require(newTotal <= FromNum(limit), DepositLimit);
    var minted :- SharesFor(collateral, v, net);
    var _ :- Require(minted != 0, MintZero);
    var newHeld :- FitU128(v.held + collateral);
    var newSupply :- FitU64(v.supply + minted);
    var _ :- RequireNoValuePerShareLoss(v.held, v.supply, newHeld, newSupply);
    Ok(DepositPlan(net, collateral, liquidity, minted))
  }

  function QuoteDeposit(s: KlendState, clock: Clock, v: Vault, protocolFeeBps: u16, amount: u64): Result<u64> {
    var plan :- PlanDeposit(s, clock, v, protocolFeeBps, amount);
    Ok(plan.minted)
  }

  function PlanWithdraw(s: KlendState, clock: Clock, v: Vault, amount: u64): Result<WithdrawPlan> {
    var _ :- Require(amount != 0, ZeroAmount);
    var _ :- Require(!s.emergencyMode, EmergencyMode);
    var _ :- Require(s.version == PROGRAM_VERSION, ReserveDeprecated);
    var _ :- Require(amount <= v.supply, BurnExceedsSupply);
    var _ :- Require(v.held != 0, NoIntermediate);
    var collateral :- TokensFor(amount, v);
    var _ :- Require(collateral != 0, RedeemZero);
    var accrued :- AccrueInterest(s, clock);
    var total :- TotalSupply(s, accrued);
    var (cs, ts) := ExchangeRatePair(s.collateralSupply, total);
    PlanWithdrawAt(s, clock, cs, ts, v, amount, collateral)
  }

  /** The redemption of `collateral` at the rate `ts / cs`. */
  function PlanWithdrawAt(
    s: KlendState, clock: Clock, cs: u128, ts: Fraction, v: Vault, amount: u64, collateral: u64
  ): Result<WithdrawPlan> {
    var liquidity :- CollateralToLiquidity(collateral, cs, ts);
    var _ :- Require(liquidity != 0, UnderlyingZero);
    var queued :- if s.queuedCollateral == 0 then Ok(0) else CollateralToLiquidity(s.queuedCollateral, cs, ts);
    var _ :- Require(liquidity <= SatSub(s.totalAvailable, queued), InsufficientLiquidity);
    var _ :- Require(liquidity <= s.depositCap.Remaining(clock.Seconds()), WithdrawalCap);
    var newHeld: u128 :- Sub(v.held, collateral);
    var newSupply: u64 :- Sub(v.supply, amount);
    var _ :- RequireNoValuePerShareLoss(v.held, v.supply, newHeld, newSupply);
    Ok(WithdrawPlan(collateral, liquidity))
  }

  function QuoteWithdraw(s: KlendState, clock: Clock, v: Vault, amount: u64): Result<u64> {
    var plan :- PlanWithdraw(s, clock, v, amount);
    Ok(plan.liquidity)
  }

  // ---------------------------------------------------------------- closed forms

  /** Depositing what `collateral` costs never asks for more than was there. */
  lemma CostWithinNet(net: nat, cs: nat, ts: nat)
    requires cs > 0 && ts > 0
    ensures cs * ONE > 0 && CeilDiv(cs * net * ONE / ts * ts, cs * ONE) <= net
  {
    DivBounds(cs * net * ONE, ts);
    assert cs * net * ONE == net * (cs * ONE);
    DivAtLeast(cs * net * ONE, ts, 0);
    CeilAtMost(cs * net * ONE / ts * ts, cs * ONE, net);
  }

  /**
   What a deposit does, in closed form: `collateral` is one floor, `liquidity` is one ceiling and
   at most the net amount, and the shares are one floor. Two of the listed errors cannot happen.
   */
  lemma DepositExact(limit: u64, total: Fraction, cs: u128, ts: Fraction, v: Vault, net: u64)
    requires 0 < cs < U64_LIMIT && ts > 0
    ensures PlanDepositAt(limit, total, cs, ts, v, net) != Err(DepositAboveNet)
    ensures PlanDepositAt(limit, total, cs, ts, v, net) != Err(ValuePerShareLoss)
    ensures
      var c, k := cs * net * ONE / ts, cs * ONE;
      var m := if v.supply == 0 then net else if v.held == 0 then 0 else c * v.supply / v.held;
      (c >= 0 && k > 0) &&
      var cost := CeilDiv(c * ts, k);
      && (PlanDepositAt(limit, total, cs, ts, v, net).Ok? <==>
            && 0 < c < U64_LIMIT && cost * ONE + total < U128_LIMIT && cost * ONE + total <= limit * ONE
            && 0 < m && v.held + c < U128_LIMIT && v.supply + m < U64_LIMIT)
      && (PlanDepositAt(limit, total, cs, ts, v, net).Ok? ==>
            && PlanDepositAt(limit, total, cs, ts, v, net).value == DepositPlan(net, c, cost, m)
            && cost <= net)
  {
    LiquidityToCollateralExact(net, cs, ts);
    MulMono(0, cs, net);
    DivAtLeast(cs * net * ONE, ts, 0);
    var c := cs * net * ONE / ts;
    if 0 < c < U64_LIMIT {
      CollateralToLiquidityCeilExact(c, cs, ts);
      CostWithinNet(net, cs, ts);
      if v.supply > 0 && v.held > 0 {
        SharesForBounds(c, v, net);
        var m := c * v.supply / v.held;
        if v.held + c < U128_LIMIT && v.supply + m < U64_LIMIT && m >= 0 {
          MintPassesGuard(v.held, v.supply, c, v.held + c, m, v.supply + m);
        }
      }
    }
  }

  /** The conditions on a deposit that do not depend on its size at the exchange rate. */
  ghost predicate DepositOpen(s: KlendState, clock: Clock, v: Vault, feeBps: u16, amount: u64) {
    hide AccrueInterest, TotalSupply, Checked.NetAmount;
    && amount > 0 && !s.emergencyMode && s.version == PROGRAM_VERSION && s.status == 0 && !s.blockCtokenUsage
    && AccrueInterest(s, clock).Ok? && TotalSupply(s, AccrueInterest(s, clock).value).Ok?
    && Checked.NetAmount(amount, feeBps, v.creatorFeeBps).Ok?
    && Checked.NetAmount(amount, feeBps, v.creatorFeeBps).value > 0
  }

  /** A deposit is accepted exactly when it is open and its net amount is at the reserve's own rate: see DepositExact. */
  lemma DepositOpensExact(s: KlendState, clock: Clock, v: Vault, feeBps: u16, amount: u64)
    ensures QuoteDeposit(s, clock, v, feeBps, amount).Ok? <==>
      && DepositOpen(s, clock, v, feeBps, amount)
      && PlanDepositAt(s.depositLimit, TotalSupply(s, AccrueInterest(s, clock).value).value, Rate(s, clock).0,
                       Rate(s, clock).1, v, Checked.NetAmount(amount, feeBps, v.creatorFeeBps).value).Ok?
    ensures QuoteDeposit(s, clock, v, feeBps, amount).Ok? ==>
      PlanDeposit(s, clock, v, feeBps, amount)
        == PlanDepositAt(s.depositLimit, TotalSupply(s, AccrueInterest(s, clock).value).value, Rate(s, clock).0,
                         Rate(s, clock).1, v, Checked.NetAmount(amount, feeBps, v.creatorFeeBps).value)
  {
    hide AccrueInterest, TotalSupply, Checked.NetAmount, PlanDepositAt;
  }

  /** The conditions on a withdrawal that do not depend on its size. */
  ghost predicate WithdrawOpen(s: KlendState, clock: Clock, v: Vault) {
    && !s.emergencyMode && s.version == PROGRAM_VERSION && v.held != 0
    && AccrueInterest(s, clock).Ok? && TotalSupply(s, AccrueInterest(s, clock).value).Ok?
    && (s.queuedCollateral != 0 ==> CollateralToLiquidity(s.queuedCollateral, Rate(s, clock).0, Rate(s, clock).1).Ok?)
  }

  /** The exchange rate the quotes at `clock` use. */
  ghost function Rate(s: KlendState, clock: Clock): (pair: (u128, Fraction))
    requires AccrueInterest(s, clock).Ok? && TotalSupply(s, AccrueInterest(s, clock).value).Ok?
    ensures 0 < pair.0 < U64_LIMIT && 0 < pair.1
  {
    ExchangeRatePair(s.collateralSupply, TotalSupply(s, AccrueInterest(s, clock).value).value)
  }

  /** The most a withdrawal may pay: free liquidity and what the cap leaves. */
  ghost function WithdrawCeiling(s: KlendState, clock: Clock, v: Vault): nat
    requires WithdrawOpen(s, clock, v)
  {
    var queued := if s.queuedCollateral == 0 then 0
                  else CollateralToLiquidity(s.queuedCollateral, Rate(s, clock).0, Rate(s, clock).1).value;
    Min(SatSub(s.totalAvailable, queued), s.depositCap.Remaining(clock.Seconds()))
  }

  /** A withdrawal's payout, in closed form: two floors, one per layer of shares. */
  ghost function Payout(v: Vault, cs: nat, ts: nat, amount: nat): nat
    requires v.supply > 0 && cs > 0
  {
    Quotient(Quotient(amount * v.held, v.supply) * ts, cs * ONE)
  }

  /**
   A withdrawal is accepted exactly when both layers redeem something, the sizes fit and the
   payout stays under the ceiling; the value-per-share guard never rejects one.
   */
  lemma WithdrawExact(s: KlendState, clock: Clock, v: Vault, amount: u64)
    ensures QuoteWithdraw(s, clock, v, amount) != Err(ValuePerShareLoss)
    ensures QuoteWithdraw(s, clock, v, amount).Ok? <==>
      && 0 < amount <= v.supply && WithdrawOpen(s, clock, v)
      && amount * v.held < U128_LIMIT
      && 0 < amount * v.held / v.supply < U64_LIMIT
      && 0 < Payout(v, Rate(s, clock).0, Rate(s, clock).1, amount) <= WithdrawCeiling(s, clock, v)
    ensures QuoteWithdraw(s, clock, v, amount).Ok? ==>
      && PlanWithdraw(s, clock, v, amount).value
           == WithdrawPlan(amount * v.held / v.supply, Payout(v, Rate(s, clock).0, Rate(s, clock).1, amount))
      && QuoteWithdraw(s, clock, v, amount).value == Payout(v, Rate(s, clock).0, Rate(s, clock).1, amount)
  {
    BooksFailArithmetically(s, clock, Current(s));
    if AccrueInterest(s, clock).Ok? {
      BooksFailArithmetically(s, clock, AccrueInterest(s, clock).value);
    }
    hide AccrueInterest, TotalSupply, TokensFor, PlanWithdrawAt, CollateralToLiquidity;
    if 0 < amount <= v.supply {
      TokensForBounds(amount, v);
      if AccrueInterest(s, clock).Ok? && TotalSupply(s, AccrueInterest(s, clock).value).Ok?
         && 0 < amount * v.held / v.supply < U64_LIMIT {
        var (cs, ts) := Rate(s, clock);
        WithdrawAtExact(s, clock, cs, ts, v, amount);
      }
    }
  }

  lemma WithdrawAtExact(s: KlendState, clock: Clock, cs: u128, ts: Fraction, v: Vault, amount: u64)
    requires 0 < cs < U64_LIMIT && ts > 0
    requires 0 < amount <= v.supply && 0 < amount * v.held / v.supply < U64_LIMIT
    ensures var c := amount * v.held / v.supply;
      var plan := PlanWithdrawAt(s, clock, cs, ts, v, amount, c);
      var queued := if s.queuedCollateral == 0 then Ok(0) else CollateralToLiquidity(s.queuedCollateral, cs, ts);
      && plan != Err(ValuePerShareLoss)
      && (plan.Ok? <==>
            queued.Ok? && 0 < Payout(v, cs, ts, amount)
              <= Min(SatSub(s.totalAvailable, queued.value), s.depositCap.Remaining(clock.Seconds())))
      && (plan.Ok? ==> plan.value == WithdrawPlan(c, Payout(v, cs, ts, amount)))
  {
    var c := amount * v.held / v.supply;
    TokensForBounds(amount, v);
    ConversionsFailArithmetically(c, cs, ts);
    ConversionsFailArithmetically(s.queuedCollateral, cs, ts);
    CollateralToLiquidityExact(c, cs, ts);
    BurnPassesGuard(v.held, v.supply, c, v.held - c, amount, v.supply - amount);
    hide CollateralToLiquidity;
  }

  lemma PayoutMono(v: Vault, cs: nat, ts: nat, a: nat, b: nat)
    requires v.supply > 0 && cs > 0 && a <= b
    ensures Payout(v, cs, ts, a) <= Payout(v, cs, ts, b)
  {
    MulMono(a, b, v.held);
    QuotientMono(a * v.held, b * v.held, v.supply);
    var x, y := Quotient(a * v.held, v.supply), Quotient(b * v.held, v.supply);
    MulMono(x, y, ts);
    QuotientMono(x * ts, y * ts, cs * ONE);
  }

  /** The amounts a withdrawal accepts have no gaps, and pay non-decreasingly. */
  lemma WithdrawInterval(s: KlendState, clock: Clock, v: Vault, a: u64, b: u64, c: u64)
    requires a <= b <= c && QuoteWithdraw(s, clock, v, a).Ok? && QuoteWithdraw(s, clock, v, c).Ok?
    ensures QuoteWithdraw(s, clock, v, b).Ok?
    ensures 0 < QuoteWithdraw(s, clock, v, a).value <= QuoteWithdraw(s, clock, v, b).value
         <= QuoteWithdraw(s, clock, v, c).value
  {
    hide QuoteWithdraw, PlanWithdraw, Payout, AccrueInterest, TotalSupply;
    WithdrawExact(s, clock, v, a);
    WithdrawExact(s, clock, v, b);
    WithdrawExact(s, clock, v, c);
    MulMono(a, b, v.held);
    MulMono(b, c, v.held);
    DivMono(a * v.held, b * v.held, v.supply);
    DivMono(b * v.held, c * v.held, v.supply);
    var (cs, ts) := Rate(s, clock);
    PayoutMono(v, cs, ts, a, b);
    PayoutMono(v, cs, ts, b, c);
  }

  /** At one exchange rate, more net liquidity never mints fewer shares. */
  lemma MintedMonotone(limit: u64, total: Fraction, cs: u128, ts: Fraction, v: Vault, less: u64, more: u64)
    requires 0 < cs < U64_LIMIT && ts > 0 && less <= more
    requires PlanDepositAt(limit, total, cs, ts, v, less).Ok? && PlanDepositAt(limit, total, cs, ts, v, more).Ok?
    ensures PlanDepositAt(limit, total, cs, ts, v, less).value.minted
         <= PlanDepositAt(limit, total, cs, ts, v, more).value.minted
  {
    hide PlanDepositAt;
    DepositExact(limit, total, cs, ts, v, less);
    DepositExact(limit, total, cs, ts, v, more);
    MulMono(less, more, cs);
    MulMono(cs * less, cs * more, ONE);
    DivMono(cs * less * ONE, cs * more * ONE, ts);
    if v.supply > 0 {
      MulMono(cs * less * ONE / ts, cs * more * ONE / ts, v.supply);
      DivMono(cs * less * ONE / ts * v.supply, cs * more * ONE / ts * v.supply, v.held);
    }
  }

  /** The most wrapper shares one net atom can be worth, both roundings included. */
  function AtomWorth(cs: u128, ts: Fraction, v: Vault): nat
    requires ts > 0
  {
    if v.supply == 0 || v.held == 0 then 1
    else Quotient((Quotient(cs * ONE, ts) + 1) * v.supply, v.held) + 1
  }

  /** A floored quotient grows by at most the floored quotient of what is added, and one. */
  lemma FloorSplit(a: nat, b: nat, d: nat)
    requires d > 0
    ensures Quotient(a + b, d) <= Quotient(a, d) + Quotient(b, d) + 1
  {
    DivBounds(a, d);
    DivBounds(b, d);
    assert (a / d + b / d + 1 + 1) * d == a / d * d + d + (b / d * d + d);
    DivAtMost(a + b, d, a / d + b / d + 1);
  }

  lemma AtomCost(cs: nat, ts: nat, supply: nat, held: nat, net: nat)
    requires ts > 0 && held > 0
    ensures Quotient(Quotient(cs * (net + 1) * ONE, ts) * supply, held)
         <= Quotient(Quotient(cs * net * ONE, ts) * supply, held)
            + Quotient((Quotient(cs * ONE, ts) + 1) * supply, held) + 1
  {
    var x, y, z := Quotient(cs * (net + 1) * ONE, ts), Quotient(cs * net * ONE, ts), Quotient(cs * ONE, ts) + 1;
    assert cs * (net + 1) * ONE == cs * net * ONE + cs * ONE;
    FloorSplit(cs * net * ONE, cs * ONE, ts);
    MulMono(x, y + z, supply);
    assert (y + z) * supply == y * supply + z * supply;
    QuotientMono(x * supply, y * supply + z * supply, held);
    FloorSplit(y * supply, z * supply, held);
  }

  /** One more net atom mints at most what an atom is worth. */
  lemma MintedPerAtom(limit: u64, total: Fraction, cs: u128, ts: Fraction, v: Vault, less: u64, more: u64)
    requires 0 < cs < U64_LIMIT && ts > 0 && more == less + 1
    requires PlanDepositAt(limit, total, cs, ts, v, less).Ok? && PlanDepositAt(limit, total, cs, ts, v, more).Ok?
    ensures PlanDepositAt(limit, total, cs, ts, v, more).value.minted
         <= PlanDepositAt(limit, total, cs, ts, v, less).value.minted + AtomWorth(cs, ts, v)
  {
    hide PlanDepositAt;
    DepositExact(limit, total, cs, ts, v, less);
    DepositExact(limit, total, cs, ts, v, more);
    if v.supply > 0 && v.held > 0 {
      MulMono(0, cs, less);
      MulMono(0, cs, more);
      AtomCost(cs, ts, v.supply, v.held, less);
    }
  }

  /**
   A larger deposit never mints fewer shares when either fee is zero; with two fees it nets at most one
   atom less, and then mints less by at most what that atom is worth.
   */
  lemma DepositNearlyMonotone(s: KlendState, clock: Clock, v: Vault, feeBps: u16, less: u64, more: u64)
    requires less <= more
    requires PlanDeposit(s, clock, v, feeBps, less).Ok? && PlanDeposit(s, clock, v, feeBps, more).Ok?
    ensures AccrueInterest(s, clock).Ok? && TotalSupply(s, AccrueInterest(s, clock).value).Ok?
    ensures var (p, q) := (PlanDeposit(s, clock, v, feeBps, less).value, PlanDeposit(s, clock, v, feeBps, more).value);
      var (cs, ts) := Rate(s, clock);
      && p.net <= q.net + 1 && p.minted <= q.minted + AtomWorth(cs, ts, v)
      && (p.net <= q.net || feeBps == 0 || v.creatorFeeBps == 0 ==> p.minted <= q.minted)
  {
    hide AccrueInterest, TotalSupply, PlanDepositAt, Checked.NetAmount, AtomWorth;
    var total := TotalSupply(s, AccrueInterest(s, clock).value).value;
    var (cs, ts) := ExchangeRatePair(s.collateralSupply, total);
    var x := Checked.NetAmount(less, feeBps, v.creatorFeeBps).value;
    var y := Checked.NetAmount(more, feeBps, v.creatorFeeBps).value;
    NetAmountNearlyMonotone(less, more, feeBps, v.creatorFeeBps, x, y);
    DepositExact(s.depositLimit, total, cs, ts, v, x);
    DepositExact(s.depositLimit, total, cs, ts, v, y);
    if x <= y {
      MintedMonotone(s.depositLimit, total, cs, ts, v, x, y);
    } else {
      MintedPerAtom(s.depositLimit, total, cs, ts, v, y, x);
    }
  }

  lemma CostMono(a: nat, b: nat, cs: nat, ts: nat)
    requires cs > 0 && a <= b
    ensures cs * ONE > 0 && CeilDiv(a * ts, cs * ONE) <= CeilDiv(b * ts, cs * ONE)
  {
    MulMono(a, b, ts);
    DivMono(a * ts + cs * ONE - 1, b * ts + cs * ONE - 1, cs * ONE);
  }

  /** At one exchange rate the accepted net amounts have no gaps, and mint non-decreasingly. */
  lemma DepositAtInterval(limit: u64, total: Fraction, cs: u128, ts: Fraction, v: Vault, a: u64, b: u64, c: u64)
    requires 0 < cs < U64_LIMIT && ts > 0 && a <= b <= c
    requires PlanDepositAt(limit, total, cs, ts, v, a).Ok? && PlanDepositAt(limit, total, cs, ts, v, c).Ok?
    ensures PlanDepositAt(limit, total, cs, ts, v, b).Ok?
    ensures 0 < PlanDepositAt(limit, total, cs, ts, v, a).value.minted
         <= PlanDepositAt(limit, total, cs, ts, v, b).value.minted
         <= PlanDepositAt(limit, total, cs, ts, v, c).value.minted
  {
    hide PlanDepositAt;
    DepositExact(limit, total, cs, ts, v, a);
    DepositExact(limit, total, cs, ts, v, b);
    DepositExact(limit, total, cs, ts, v, c);
    CollateralMono(cs, ts, v, a, b);
    CollateralMono(cs, ts, v, b, c);
    CostMono(cs * b * ONE / ts, cs * c * ONE / ts, cs, ts);
    MintedMonotone(limit, total, cs, ts, v, a, b);
    MintedMonotone(limit, total, cs, ts, v, b, c);
  }

  lemma CollateralMono(cs: nat, ts: nat, v: Vault, less: nat, more: nat)
    requires ts > 0 && less <= more
    ensures 0 <= cs * less * ONE / ts <= cs * more * ONE / ts
    ensures v.held > 0 ==> cs * less * ONE / ts * v.supply / v.held <= cs * more * ONE / ts * v.supply / v.held
  {
    MulMono(0, cs, less);
    MulMono(less, more, cs);
    MulMono(cs * less, cs * more, ONE);
    DivMono(cs * less * ONE, cs * more * ONE, ts);
    DivAtLeast(cs * less * ONE, ts, 0);
    if v.held > 0 {
      MulMono(cs * less * ONE / ts, cs * more * ONE / ts, v.supply);
      DivMono(cs * less * ONE / ts * v.supply, cs * more * ONE / ts * v.supply, v.held);
    }
  }

  /** With one fee not charged, the amounts a deposit accepts have no gaps, and mint non-decreasingly. */
  lemma DepositInterval(s: KlendState, clock: Clock, v: Vault, feeBps: u16, a: u64, b: u64, c: u64)
    requires a <= b <= c && (feeBps == 0 || v.creatorFeeBps == 0)
    ensures QuoteDeposit(s, clock, v, feeBps, a).Ok? && QuoteDeposit(s, clock, v, feeBps, c).Ok? ==>
      && QuoteDeposit(s, clock, v, feeBps, b).Ok?
      && 0 < QuoteDeposit(s, clock, v, feeBps, a).value <= QuoteDeposit(s, clock, v, feeBps, b).value
           <= QuoteDeposit(s, clock, v, feeBps, c).value
  {
    hide AccrueInterest, TotalSupply, PlanDepositAt, Checked.NetAmount;
    if QuoteDeposit(s, clock, v, feeBps, a).Ok? && QuoteDeposit(s, clock, v, feeBps, c).Ok? {
      var total := TotalSupply(s, AccrueInterest(s, clock).value).value;
      var (cs, ts) := ExchangeRatePair(s.collateralSupply, total);
      var x := Checked.NetAmount(a, feeBps, v.creatorFeeBps).value;
      var z := Checked.NetAmount(c, feeBps, v.creatorFeeBps).value;
      if feeBps + v.creatorFeeBps >= FULL_BPS {
        NetWhenFeesTakeAll(a, feeBps, v.creatorFeeBps, x);
      } else {
        NetAmountSucceeds(b, feeBps, v.creatorFeeBps);
        var y := Checked.NetAmount(b, feeBps, v.creatorFeeBps).value;
        NetAmountNearlyMonotone(a, b, feeBps, v.creatorFeeBps, x, y);
        NetAmountNearlyMonotone(b, c, feeBps, v.creatorFeeBps, y, z);
        DepositAtInterval(s.depositLimit, total, cs, ts, v, x, y, z);
      }
    }
  }

  /** A net amount `y` one atom below a smaller deposit's `x` or one above a larger one's `z`, or none at all. */
  ghost predicate OneAtomOff(x: Result<u64>, y: Result<u64>, z: Result<u64>) {
    x.Ok? && z.Ok? && (y.Ok? ==> y.value + 1 == x.value || y.value == z.value + 1)
  }

  /** At any fee rates, a deposit between two accepted ones is refused only for the one atom its net amount is off. */
  lemma DepositNearlyInterval(s: KlendState, clock: Clock, v: Vault, feeBps: u16, a: u64, b: u64, c: u64)
    requires a <= b <= c
    ensures QuoteDeposit(s, clock, v, feeBps, a).Ok? && QuoteDeposit(s, clock, v, feeBps, c).Ok?
            && QuoteDeposit(s, clock, v, feeBps, b).Err? ==>
      && OneAtomOff(Checked.NetAmount(a, feeBps, v.creatorFeeBps), Checked.NetAmount(b, feeBps, v.creatorFeeBps),
                    Checked.NetAmount(c, feeBps, v.creatorFeeBps))
      && (feeBps + v.creatorFeeBps <= FULL_BPS ==> Checked.NetAmount(b, feeBps, v.creatorFeeBps).Ok?)
  {
    hide AccrueInterest, TotalSupply, PlanDepositAt, Checked.NetAmount;
    if QuoteDeposit(s, clock, v, feeBps, a).Ok? && QuoteDeposit(s, clock, v, feeBps, c).Ok? {
      var total := TotalSupply(s, AccrueInterest(s, clock).value).value;
      var (cs, ts) := ExchangeRatePair(s.collateralSupply, total);
      var x := Checked.NetAmount(a, feeBps, v.creatorFeeBps).value;
      var y := Checked.NetAmount(b, feeBps, v.creatorFeeBps);
      var z := Checked.NetAmount(c, feeBps, v.creatorFeeBps).value;
      if feeBps + v.creatorFeeBps <= FULL_BPS {
        NetAmountSucceeds(b, feeBps, v.creatorFeeBps);
      }
      if y.Ok? {
        NetAmountNearlyMonotone(a, b, feeBps, v.creatorFeeBps, x, y.value);
        NetAmountNearlyMonotone(b, c, feeBps, v.creatorFeeBps, y.value, z);
        if x <= y.value <= z {
          DepositAtInterval(s.depositLimit, total, cs, ts, v, x, y.value, z);
        }
      }
    }
  }

  /** Nothing is quoted for nothing. */
  lemma ZeroNotQuoted(s: KlendState, clock: Clock, v: Vault, feeBps: u16)
    ensures QuoteWithdraw(s, clock, v, 0) == Err(ZeroAmount)
    ensures QuoteDeposit(s, clock, v, feeBps, 0) == Err(ZeroAmount)
  {
    hide AccrueInterest;
  }
}
