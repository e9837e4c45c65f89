/** Whole histories of a wrapper vault over a klend reserve. */
module KlendRuns {
  import opened Arith
  import opened Outcome
  import opened Fixed
  import opened Checked
  import KlendCurve
  import opened WrapperShares
  import opened KlendReserve
  import opened KlendQuote

  datatype World = World(reserve: KlendState, vault: Vault)

  /** Wrapper deposits and withdrawals, accrual, and other holders of the same reserve coming and going. */
  datatype Step =
    | Deposit(clock: Clock, protocolFeeBps: u16, amount: u64)
    | Withdraw(clock: Clock, amount: u64)
    | Accrue(clock: Clock)
    | Join(clock: Clock, liquidity: u64)
    | Leave(clock: Clock, collateral: u64)

  function Accrued(s: KlendState, clock: Clock): Result<KlendState> {
    var accrued :- AccrueInterest(s, clock);
    Ok(WithAccrued(s, accrued, clock))
  }

  function MintCollateral(s: KlendState, collateral: u64, liquidity: u64): Result<KlendState> {
    var supply :- FitU64(s.collateralSupply + collateral);
    var available :- FitU64(s.totalAvailable + liquidity);
    Ok(s.(collateralSupply := supply, totalAvailable := available))
  }

  function BurnCollateral(s: KlendState, collateral: u64, liquidity: u64): Result<KlendState> {
    var supply: u64 :- Sub(s.collateralSupply, collateral);
    var available: u64 :- Sub(s.totalAvailable, liquidity);
    Ok(s.(collateralSupply := supply, totalAvailable := available))
  }

  function Apply(w: World, step: Step): Result<World> {
    var s :- Accrued(w.reserve, step.clock);
    match step
    case Accrue(_) => Ok(w.(reserve := s))
    case Deposit(clock, fee, amount) =>
      var plan :- PlanDeposit(w.reserve, clock, w.vault, fee, amount);
      var t :- MintCollateral(s, plan.collateral, plan.liquidity);
      var supply :- FitU64(w.vault.supply + plan.minted);
      var held :- FitU128(w.vault.held + plan.collateral);
      Ok(World(t, w.vault.(supply := supply, held := held)))
    case Withdraw(clock, amount) =>
      var plan :- PlanWithdraw(w.reserve, clock, w.vault, amount);
      var t :- BurnCollateral(s, plan.collateral, plan.liquidity);
      var supply: u64 :- Sub(w.vault.supply, amount);
      var held: u128 :- Sub(w.vault.held, plan.collateral);
      Ok(World(t, w.vault.(supply := supply, held := held)))
    case Join(_, liquidity) =>
      var t :- JoinReserve(s, liquidity);
      Ok(w.(reserve := t))
    case Leave(_, collateral) =>
      var t :- LeaveReserve(s, w.vault.held, collateral);
      Ok(w.(reserve := t))
  }

  /** Another depositor buys collateral at the reserve's rate. */
  function JoinReserve(s: KlendState, liquidity: u64): Result<KlendState> {
    var total :- TotalSupply(s, Current(s));
    var (cs, ts) := ExchangeRatePair(s.collateralSupply, total);
    var collateral :- LiquidityToCollateral(liquidity, cs, ts);
    var _ :- Require(collateral != 0, CollateralZero);
    var cost :- CollateralToLiquidityCeil(collateral, cs, ts);
    MintCollateral(s, collateral, cost)
  }

  /** Another holder redeems collateral that the vault does not hold. */
  function LeaveReserve(s: KlendState, held: u128, collateral: u64): Result<KlendState> {
    var total :- TotalSupply(s, Current(s));
    var (cs, ts) := ExchangeRatePair(s.collateralSupply, total);
    var _ :- Require(collateral + held <= s.collateralSupply, InsufficientLiquidity);
    var paid :- CollateralToLiquidity(collateral, cs, ts);
    BurnCollateral(s, collateral, paid)
  }

  /** A step that fails leaves everything as it was. */
  function Next(w: World, step: Step): World {
    if Apply(w, step).Ok? then Apply(w, step).value else w
  }

  function Run(w: World, steps: seq<Step>): World
    decreases |steps|
  {
    hide Next;
    if steps == [] then w else Run(Next(w, steps[0]), steps[1..])
  }

  /** The vault is never emptied along the way. */
  ghost predicate NeverEmpty(w: World, steps: seq<Step>)
    decreases |steps|
  {
    hide Next;
    w.vault.supply > 0 && (steps != [] ==> NeverEmpty(Next(w, steps[0]), steps[1..]))
  }

  ghost predicate Empty(w: World) {
    w.vault.supply == 0 && w.vault.held == 0 && w.reserve.takeRatePct <= 100
  }

  ghost predicate Sound(w: World) {
    && w.reserve.takeRatePct <= 100
    && (w.vault.supply == 0 <==> w.vault.held == 0)
    && w.vault.held <= w.reserve.collateralSupply
    && (w.vault.supply > 0 ==> w.reserve.Supply() > 0)
  }

  /** Neither layer's exchange rate is lower in `after`, stated without division. */
  ghost predicate RatesKept(before: World, after: World) {
    && after.vault.held * before.vault.supply >= before.vault.held * after.vault.supply
    && after.reserve.Supply() * before.reserve.collateralSupply
         >= before.reserve.Supply() * after.reserve.collateralSupply
  }

  // ---------------------------------------------------------------- one step

  lemma AccruedFacts(s: KlendState, clock: Clock, t: KlendState)
    requires s.takeRatePct <= 100 && Accrued(s, clock) == Ok(t)
    ensures t.Supply() >= s.Supply() && t.collateralSupply == s.collateralSupply
    ensures t.takeRatePct == s.takeRatePct && t.totalAvailable == s.totalAvailable
    ensures TotalSupply(s, AccrueInterest(s, clock).value) == TotalSupply(t, Current(t))
    ensures TotalSupply(t, Current(t)).Ok? ==> TotalSupply(t, Current(t)).value == t.Supply()
  {
    AccrualBalances(s, clock, AccrueInterest(s, clock).value);
    TotalSupplyExact(t);
  }

  /** New collateral priced up to a whole atom lifts the reserve's rate, or sets it on an empty one. */
  lemma MintKeepsRate(total: nat, supply: nat, cs: nat, ts: nat, c: nat, cost: nat)
    requires cs > 0 && ts > 0 && c > 0 && cost == CeilDiv(c * ts, cs * ONE)
    requires supply == cs && total == ts
    ensures cost > 0 && (total + cost * ONE) * supply >= total * (supply + c)
  {
    CeilBounds(c * ts, cs * ONE);
    assert cost * (cs * ONE) == cost * ONE * cs;
    MulMono(1, c, ts);
    assert (total + cost * ONE) * supply == total * supply + cost * ONE * cs;
    assert total * (supply + c) == total * supply + c * ts;
  }

  lemma CostPositive(cs: nat, ts: nat, c: nat)
    requires cs > 0 && ts > 0 && c > 0
    ensures cs * ONE > 0 && CeilDiv(c * ts, cs * ONE) > 0
  {
    assert c * ts > 0;
    CeilBounds(c * ts, cs * ONE);
  }

  /** Redeeming collateral rounded down leaves the others no poorer. */
  lemma BurnKeepsRate(total: nat, supply: nat, c: nat, paid: nat)
    requires 0 < supply && c <= supply && 0 < total
    requires supply * ONE > 0 && paid == c * total / (supply * ONE)
    ensures (total - paid * ONE) * supply >= total * (supply - c)
    ensures c < supply ==> total - paid * ONE > 0
    ensures total - paid * ONE >= 0
  {
    DivBounds(c * total, supply * ONE);
    assert paid * (supply * ONE) == paid * ONE * supply;
    assert (total - paid * ONE) * supply == total * supply - paid * ONE * supply;
    assert total * (supply - c) == total * supply - c * total;
    MulMono(c, supply, total);
    if total - paid * ONE < 0 {
      MulMono(total - paid * ONE, -1, supply);
    }
    if c < supply {
      MulMono(1, supply - c, total);
    }
  }

  /** What `c` collateral costs at the rate `ts / cs`, rounded up to whole tokens. */
  ghost function CostOf(c: nat, cs: nat, ts: nat): nat
    requires cs > 0
  {
    CeilDiv(c * ts, cs * ONE)
  }

  /** What a deposit leaves behind, in closed form. */
  lemma DepositEffect(w: World, step: Step, s: KlendState, plan: DepositPlan)
    requires step.Deposit? && Apply(w, step).Ok? && Accrued(w.reserve, step.clock) == Ok(s)
    requires PlanDeposit(w.reserve, step.clock, w.vault, step.protocolFeeBps, step.amount) == Ok(plan)
    requires s.takeRatePct <= 100
    ensures var (v, after) := (w.vault, Next(w, step));
      var (c, cost, m) := (plan.collateral, plan.liquidity, plan.minted);
      && 0 <= s.Supply() < U128_LIMIT
      && var (cs, ts) := ExchangeRatePair(s.collateralSupply, s.Supply());
      && after.vault == v.(supply := v.supply + m, held := v.held + c)
      && after.reserve == s.(collateralSupply := s.collateralSupply + c, totalAvailable := s.totalAvailable + cost)
      && 0 < c && 0 < m && cost == CostOf(c, cs, ts) && cost <= plan.net <= step.amount
      && (v.supply == 0 ==> m == plan.net)
      && (v.supply > 0 ==> m * v.held <= c * v.supply)
  {
    hide AccrueInterest, TotalSupply, Checked.NetAmount;
    AccruedFacts(w.reserve, step.clock, s);
    var total := TotalSupply(s, Current(s)).value;
    var (cs, ts) := ExchangeRatePair(s.collateralSupply, total);
    DepositExact(s.depositLimit, total, cs, ts, w.vault, plan.net);
    NetWithinAmount(step.amount, step.protocolFeeBps, w.vault.creatorFeeBps);
    if w.vault.supply > 0 {
      SharesForBounds(plan.collateral, w.vault, plan.net);
    }
  }

  lemma DepositKeeps(w: World, step: Step)
    requires Sound(w) && step.Deposit? && Apply(w, step).Ok?
    ensures Sound(Next(w, step))
    ensures w.vault.supply > 0 ==> RatesKept(w, Next(w, step)) && Next(w, step).vault.supply > 0
  {
    hide AccrueInterest, PlanDeposit, Next;
    var s := Accrued(w.reserve, step.clock).value;
    AccruedFacts(w.reserve, step.clock, s);
    var plan := PlanDeposit(w.reserve, step.clock, w.vault, step.protocolFeeBps, step.amount).value;
    DepositEffect(w, step, s, plan);
    var v, after := w.vault, Next(w, step);
    var c, cost, m := plan.collateral, plan.liquidity, plan.minted;
    var total := s.Supply();
    var (cs, ts) := ExchangeRatePair(s.collateralSupply, total);
    CostPositive(cs, ts, c);
    assert after.reserve.Supply() == total + cost * ONE;
    if v.supply > 0 {
      MintKeepsRate(total, s.collateralSupply, cs, ts, c, cost);
      SharesKeepRate(v.held, v.supply, c, m);
      Dominate(after.reserve.Supply(), s.collateralSupply, total, s.collateralSupply + c, w.reserve.Supply());
    }
  }

  lemma SharesKeepRate(held: nat, supply: nat, c: nat, m: nat)
    requires m * held <= c * supply
    ensures (held + c) * supply >= held * (supply + m)
  {
    assert (held + c) * supply == held * supply + c * supply;
    assert held * (supply + m) == held * supply + m * held;
  }

  /** A rate that beats `total / cs` beats every lower total too. */
  lemma Dominate(after: int, cs: int, total: int, csAfter: int, before: int)
    requires after * cs >= total * csAfter && total >= before && csAfter >= 0
    ensures after * cs >= before * csAfter
  {
    MulMono(before, total, csAfter);
  }

  /** What a withdrawal leaves behind, in closed form. */
  lemma WithdrawEffect(w: World, step: Step, s: KlendState)
    requires step.Withdraw? && Apply(w, step).Ok? && Accrued(w.reserve, step.clock) == Ok(s)
    requires s.takeRatePct <= 100
    ensures var (v, a, after) := (w.vault, step.amount, Next(w, step));
      && 0 < a <= v.supply && s.Supply() >= 0
      && var c := a * v.held / v.supply;
      && var (cs, ts) := ExchangeRatePair(s.collateralSupply, s.Supply());
      && cs * ONE > 0
      && var paid := c * ts / (cs * ONE);
      && 0 < c <= v.held && 0 < paid
      && after.vault == v.(supply := v.supply - a, held := v.held - c)
      && c <= s.collateralSupply && paid <= s.totalAvailable
      && after.reserve == s.(collateralSupply := s.collateralSupply - c, totalAvailable := s.totalAvailable - paid)
  {
    hide AccrueInterest, TotalSupply, CollateralToLiquidity;
    AccruedFacts(w.reserve, step.clock, s);
    WithdrawExact(w.reserve, step.clock, w.vault, step.amount);
    TokensForBounds(step.amount, w.vault);
  }

  lemma WithdrawKeeps(w: World, step: Step)
    requires Sound(w) && step.Withdraw? && Apply(w, step).Ok?
    ensures Sound(Next(w, step))
    ensures Next(w, step).vault.supply > 0 ==> RatesKept(w, Next(w, step))
  {
    hide AccrueInterest, PlanWithdraw, Next;
    var s := Accrued(w.reserve, step.clock).value;
    AccruedFacts(w.reserve, step.clock, s);
    WithdrawEffect(w, step, s);
    var v, a, after := w.vault, step.amount, Next(w, step);
    var c := a * v.held / v.supply;
    var total, supply := s.Supply(), s.collateralSupply;
    var paid := c * total / (supply * ONE);
    BurnKeepsRate(total, supply, c, paid);
    BurnTogether(v, a, c);
    assert after.reserve.Supply() == total - paid * ONE;
    if a < v.supply {
      Dominate(after.reserve.Supply(), supply, total, supply - c, w.reserve.Supply());
    }
  }

  lemma JoinKeeps(s: KlendState, liquidity: u64, t: KlendState)
    requires JoinReserve(s, liquidity) == Ok(t) && s.collateralSupply > 0 && s.Supply() > 0
    ensures t.collateralSupply > s.collateralSupply && t.takeRatePct == s.takeRatePct
    ensures t.Supply() * s.collateralSupply >= s.Supply() * t.collateralSupply && t.Supply() > 0
  {
    hide TotalSupply, LiquidityToCollateral, CollateralToLiquidityCeil;
    TotalSupplyExact(s);
    var total, cs := s.Supply(), s.collateralSupply;
    var c := LiquidityToCollateral(liquidity, cs, total).value;
    CollateralToLiquidityCeilExact(c, cs, total);
    var cost := CollateralToLiquidityCeil(c, cs, total).value;
    MintKeepsRate(total, cs, cs, total, c, cost);
    assert t.Supply() == total + cost * ONE;
  }

  lemma LeaveKeeps(s: KlendState, held: u128, collateral: u64, t: KlendState)
    requires LeaveReserve(s, held, collateral) == Ok(t) && held > 0 && s.Supply() > 0
    ensures held <= t.collateralSupply && t.takeRatePct == s.takeRatePct
    ensures t.Supply() * s.collateralSupply >= s.Supply() * t.collateralSupply && t.Supply() > 0
  {
    hide TotalSupply, CollateralToLiquidity;
    TotalSupplyExact(s);
    var total, cs := s.Supply(), s.collateralSupply;
    CollateralToLiquidityExact(collateral, cs, total);
    var paid := CollateralToLiquidity(collateral, cs, total).value;
    BurnKeepsRate(total, cs, collateral, paid);
    assert t.Supply() == total - paid * ONE;
  }

  /** Others joining or leaving cannot hurt a vault over the same reserve. */
  lemma OthersKeep(w: World, step: Step)
    requires Sound(w) && (step.Join? || step.Leave?)
    ensures Sound(Next(w, step)) && Next(w, step).vault == w.vault
    ensures w.vault.supply > 0 ==> RatesKept(w, Next(w, step))
  {
    hide AccrueInterest, JoinReserve, LeaveReserve;
    if Apply(w, step).Ok? {
      var s, t := Accrued(w.reserve, step.clock).value, Next(w, step).reserve;
      AccruedFacts(w.reserve, step.clock, s);
      if w.vault.supply > 0 {
        if step.Join? {
          JoinKeeps(s, step.liquidity, t);
        } else {
          LeaveKeeps(s, w.vault.held, step.collateral, t);
        }
        Dominate(t.Supply(), s.collateralSupply, s.Supply(), t.collateralSupply, w.reserve.Supply());
      } else {
        OthersKeepEmpty(s, step, t);
      }
    }
  }

  lemma OthersKeepEmpty(s: KlendState, step: Step, t: KlendState)
    requires step.Join? ==> JoinReserve(s, step.liquidity) == Ok(t)
    requires step.Leave? ==> LeaveReserve(s, 0, step.collateral) == Ok(t)
    ensures step.Join? || step.Leave? ==> t.takeRatePct == s.takeRatePct
  {
    hide TotalSupply, LiquidityToCollateral, CollateralToLiquidityCeil, CollateralToLiquidity;
  }

  lemma AccrueKeeps(w: World, step: Step)
    requires Sound(w) && step.Accrue? && Apply(w, step).Ok?
    ensures Sound(Next(w, step)) && Next(w, step).vault == w.vault
    ensures w.vault.supply > 0 ==> RatesKept(w, Next(w, step))
  {
    hide AccrueInterest, TotalSupply;
    var s := Accrued(w.reserve, step.clock).value;
    AccruedFacts(w.reserve, step.clock, s);
    MulMono(w.reserve.Supply(), s.Supply(), s.collateralSupply);
  }

  /** Every step keeps the invariant, and both rates as long as the vault stays non-empty. */
  lemma StepKeeps(w: World, step: Step)
    requires Sound(w)
    ensures Sound(Next(w, step))
    ensures w.vault.supply > 0 && Next(w, step).vault.supply > 0 ==> RatesKept(w, Next(w, step))
  {
    hide Apply;
    if Apply(w, step).Ok? {
      hide Next;
      match step {
        case Deposit(_, _, _) => DepositKeeps(w, step);
        case Withdraw(_, _) => WithdrawKeeps(w, step);
        case Accrue(_) => AccrueKeeps(w, step);
        case Join(_, _) => OthersKeep(w, step);
        case Leave(_, _) => OthersKeep(w, step);
      }
    }
  }

  // ---------------------------------------------------------------- whole runs

  lemma {:induction false} RunStaysSound(w: World, steps: seq<Step>)
    requires Sound(w)
    ensures Sound(Run(w, steps))
    decreases |steps|
  {
    hide Next, Sound;
    if steps != [] {
      StepKeeps(w, steps[0]);
      RunStaysSound(Next(w, steps[0]), steps[1..]);
    }
  }

  /** Along any history that never empties the vault, neither exchange rate ever falls. */
  lemma {:induction false} RunKeepsRates(w: World, steps: seq<Step>)
    requires Sound(w) && NeverEmpty(w, steps)
    ensures RatesKept(w, Run(w, steps)) && Run(w, steps).vault.supply > 0
    decreases |steps|
  {
    hide Next;
    if steps != [] {
      var next := Next(w, steps[0]);
      StepKeeps(w, steps[0]);
      RunKeepsRates(next, steps[1..]);
      var last := Run(next, steps[1..]);
      RunStaysSound(next, steps[1..]);
      RatioTransitive(w.vault.held, w.vault.supply, next.vault.held, next.vault.supply,
                      last.vault.held, last.vault.supply);
      RatioTransitive(w.reserve.Supply(), w.reserve.collateralSupply, next.reserve.Supply(),
                      next.reserve.collateralSupply, last.reserve.Supply(), last.reserve.collateralSupply);
    }
  }

  /** What `amount` wrapper shares redeem for at the current books. */
  ghost function Redemption(w: World, amount: nat): nat
    requires w.vault.supply > 0 && w.reserve.collateralSupply > 0 && w.reserve.Supply() > 0
  {
    Payout(w.vault, w.reserve.collateralSupply, w.reserve.Supply(), amount)
  }

  /** The underlying that a fixed number of wrapper shares redeems for never falls. */
  lemma RedemptionNeverFalls(w: World, steps: seq<Step>, amount: nat)
    requires Sound(w) && NeverEmpty(w, steps)
    ensures Sound(Run(w, steps)) && Run(w, steps).vault.supply > 0
    ensures Redemption(w, amount) <= Redemption(Run(w, steps), amount)
  {
    hide Next, Run;
    var last := Run(w, steps);
    RunKeepsRates(w, steps);
    RunStaysSound(w, steps);
    FlooredRatioMono(amount, amount, w.vault.held, w.vault.supply, last.vault.held, last.vault.supply);
    var t0, c0 := w.reserve.Supply(), w.reserve.collateralSupply;
    var t1, c1 := last.reserve.Supply(), last.reserve.collateralSupply;
    assert t1 * (c0 * ONE) >= t0 * (c1 * ONE) by {
      MulMono(t0 * c1, t1 * c0, ONE);
      assert t1 * (c0 * ONE) == t1 * c0 * ONE && t0 * (c1 * ONE) == t0 * c1 * ONE;
    }
    FlooredRatioMono(Quotient(amount * w.vault.held, w.vault.supply),
                     Quotient(amount * last.vault.held, last.vault.supply), t0, c0 * ONE, t1, c1 * ONE);
  }

  /**
   From an empty vault: after any history, over any further history that keeps the vault non-empty, the
   underlying behind a fixed number of wrapper shares never falls.
   */
  lemma NoHistoryLosesValue(start: World, past: seq<Step>, future: seq<Step>, amount: nat)
    requires Empty(start) && NeverEmpty(Run(start, past), future)
    ensures var (w, end) := (Run(start, past), Run(Run(start, past), future));
      && Sound(w) && Sound(end) && w.vault.supply > 0 && end.vault.supply > 0
      && RatesKept(w, end) && Redemption(w, amount) <= Redemption(end, amount)
  {
    hide Next, Run, Redemption;
    RunStaysSound(start, past);
    var w := Run(start, past);
    RunKeepsRates(w, future);
    RedemptionNeverFalls(w, future, amount);
  }

  /** From an empty vault, the two bookkeeping errors of the quotes are never seen. */
  lemma BookkeepingErrorsUnreachable(start: World, steps: seq<Step>, clock: Clock, feeBps: u16, amount: u64)
    requires Empty(start)
    ensures var w := Run(start, steps);
      && Sound(w)
      && QuoteDeposit(w.reserve, clock, w.vault, feeBps, amount) != Err(OutOfSync)
      && QuoteWithdraw(w.reserve, clock, w.vault, amount) != Err(NoIntermediate)
  {
    hide Next, Run;
    RunStaysSound(start, steps);
    var w := Run(start, steps);
    DepositInSync(w, clock, feeBps, amount);
    WithdrawInSync(w, clock, amount);
  }

  lemma DepositInSync(w: World, clock: Clock, feeBps: u16, amount: u64)
    requires w.vault.supply == 0 || w.vault.held > 0
    ensures QuoteDeposit(w.reserve, clock, w.vault, feeBps, amount) != Err(OutOfSync)
  {
    hide AccrueInterest, TotalSupply, LiquidityToCollateral, CollateralToLiquidityCeil;
    var s := w.reserve;
    BooksFailArithmetically(s, clock, Current(s));
    if AccrueInterest(s, clock).Ok? {
      var a := AccrueInterest(s, clock).value;
      BooksFailArithmetically(s, clock, a);
      var net := Checked.NetAmount(amount, feeBps, w.vault.creatorFeeBps);
      if TotalSupply(s, a).Ok? && net.Ok? {
        var (cs, ts) := ExchangeRatePair(s.collateralSupply, TotalSupply(s, a).value);
        ConversionsFailArithmetically(net.value, cs, ts);
        if LiquidityToCollateral(net.value, cs, ts).Ok? {
          ConversionsFailArithmetically(LiquidityToCollateral(net.value, cs, ts).value, cs, ts);
        }
      }
    }
  }

  lemma WithdrawInSync(w: World, clock: Clock, amount: u64)
    requires w.vault.supply == 0 || w.vault.held > 0
    ensures QuoteWithdraw(w.reserve, clock, w.vault, amount) != Err(NoIntermediate)
  {
    hide AccrueInterest, TotalSupply, CollateralToLiquidity;
    var s := w.reserve;
    BooksFailArithmetically(s, clock, Current(s));
    if AccrueInterest(s, clock).Ok? {
      var a := AccrueInterest(s, clock).value;
      BooksFailArithmetically(s, clock, a);
      if TotalSupply(s, a).Ok? {
        var (cs, ts) := ExchangeRatePair(s.collateralSupply, TotalSupply(s, a).value);
        ConversionsFailArithmetically(s.queuedCollateral, cs, ts);
        if amount <= w.vault.supply && TokensFor(amount, w.vault).Ok? {
          ConversionsFailArithmetically(TokensFor(amount, w.vault).value, cs, ts);
        }
      }
    }
  }

  // ---------------------------------------------------------------- the round trip

  lemma SameClockAccrual(s: KlendState, clock: Clock, t: KlendState, collateral: u64, available: u64)
    requires Accrued(s, clock) == Ok(t)
    ensures var u := t.(collateralSupply := collateral, totalAvailable := available);
      AccrueInterest(u, clock) == Ok(Current(u))
  {
  }

  /** Collateral bought for `cost` redeems for at most `cost` at the rate it leaves behind. */
  lemma CostGivesBackAtMost(total: nat, supply: nat, c: nat, cost: nat, redeemed: nat)
    requires c > 0 && redeemed <= c && c * total <= cost * ONE * supply
    ensures (supply + c) * ONE > 0
    ensures redeemed * (total + cost * ONE) / ((supply + c) * ONE) <= cost
  {
    var t, k := total + cost * ONE, (supply + c) * ONE;
    MulMono(redeemed, c, t);
    assert c * t == c * total + c * (cost * ONE);
    assert cost * k == cost * ONE * supply + c * (cost * ONE);
    DivMono(redeemed * t, cost * k, k);
    DivOfMultiple(cost, k);
  }

  /**
   What a redemption gives back, if it is quoted: at most the cost if and only if the reserve had shares
   or held less than an atom, and in a reserve without shares its whole atoms on top.
   */
  ghost predicate GivesBack(before: KlendState, cost: u64, back: Result<u64>) {
    back.Ok? ==>
      && (back.value <= cost <==> before.collateralSupply > 0 || before.Supply() < ONE)
      && (before.collateralSupply == 0 ==> back.value == cost + before.Supply() / ONE)
  }

  /**
   Depositing and redeeming exactly the minted shares at the same clock pays at most what the
   deposit cost, with one exception: a reserve without shares that still holds at least one atom,
   whose whole supply then comes on top.
   */
  lemma RoundTrip(w: World, clock: Clock, feeBps: u16, amount: u64)
    requires Sound(w)
    ensures var (step, after) := (Deposit(clock, feeBps, amount), Next(w, Deposit(clock, feeBps, amount)));
      Apply(w, step).Ok? ==>
      var (plan, before) := (PlanDeposit(w.reserve, clock, w.vault, feeBps, amount).value, Accrued(w.reserve, clock).value);
      && plan.liquidity <= plan.net <= amount
      && GivesBack(before, plan.liquidity, QuoteWithdraw(after.reserve, clock, after.vault, plan.minted))
  {
    hide Next, AccrueInterest, TotalSupply, PlanDeposit, QuoteWithdraw, ExchangeRatePair, GivesBack;
    var step, v := Deposit(clock, feeBps, amount), w.vault;
    if Apply(w, step).Ok? {
      var s := Accrued(w.reserve, clock).value;
      AccruedFacts(w.reserve, clock, s);
      var plan := PlanDeposit(w.reserve, clock, v, feeBps, amount).value;
      DepositEffect(w, step, s, plan);
      var after := Next(w, step);
      SameClockAccrual(w.reserve, clock, s, after.reserve.collateralSupply, after.reserve.totalAvailable);
      var (cs, ts) := ExchangeRatePair(s.collateralSupply, s.Supply());
      CostPositive(cs, ts, plan.collateral);
      BackFromOwnBooks(s, v, plan, after.reserve, after.vault, clock);
    }
  }

  /** Redeeming at a clock the books are already accrued to, in closed form. */
  lemma RedeemedAtOwnBooks(t: KlendState, clock: Clock, v: Vault, amount: u64)
    requires AccrueInterest(t, clock) == Ok(Current(t)) && t.collateralSupply > 0 && t.Supply() > 0
    ensures QuoteWithdraw(t, clock, v, amount).Ok? ==>
      && v.supply > 0 && amount * v.held / v.supply >= 0
      && QuoteWithdraw(t, clock, v, amount).value
           == amount * v.held / v.supply * t.Supply() / (t.collateralSupply * ONE)
  {
    TotalSupplyExact(t);
    hide AccrueInterest, TotalSupply, QuoteWithdraw, PlanWithdraw;
    WithdrawExact(t, clock, v, amount);
  }

  lemma BackFromOwnBooks(s: KlendState, v: Vault, plan: DepositPlan, t: KlendState, u: Vault, clock: Clock)
    requires v.supply == 0 <==> v.held == 0
    requires v.held <= s.collateralSupply && 0 <= s.Supply() < U128_LIMIT && (v.supply > 0 ==> s.Supply() > 0)
    requires plan.collateral > 0 && plan.minted > 0
    requires v.supply > 0 ==> plan.minted * v.held <= plan.collateral * v.supply
    requires var (cs, ts) := ExchangeRatePair(s.collateralSupply, s.Supply());
      plan.liquidity == CostOf(plan.collateral, cs, ts)
    requires u.supply == v.supply + plan.minted && u.held == v.held + plan.collateral
    requires t.collateralSupply == s.collateralSupply + plan.collateral
    requires t.Supply() == s.Supply() + plan.liquidity * ONE > 0 && AccrueInterest(t, clock) == Ok(Current(t))
    ensures GivesBack(s, plan.liquidity, QuoteWithdraw(t, clock, u, plan.minted))
  {
    hide AccrueInterest, QuoteWithdraw, ExchangeRatePair, CostOf;
    RedeemedAtOwnBooks(t, clock, u, plan.minted);
    var back := QuoteWithdraw(t, clock, u, plan.minted);
    if back.Ok? {
      PaidBack(v, s.collateralSupply, s.Supply(), plan, back.value);
    }
  }

  /** The arithmetic of the round trip: what the minted shares of a plan redeem for afterwards. */
  lemma PaidBack(v: Vault, supply: u64, total: Fraction, plan: DepositPlan, paid: int)
    requires v.supply == 0 <==> v.held == 0
    requires v.held <= supply && (v.supply > 0 ==> total > 0)
    requires plan.collateral > 0 && plan.minted > 0
    requires v.supply > 0 ==> plan.minted * v.held <= plan.collateral * v.supply
    requires var (cs, ts) := ExchangeRatePair(supply, total);
      plan.liquidity == CostOf(plan.collateral, cs, ts)
    requires var (c, m) := (plan.collateral, plan.minted);
      && v.supply + m > 0 && (supply + c) * ONE > 0
      && paid == m * (v.held + c) / (v.supply + m) * (total + plan.liquidity * ONE) / ((supply + c) * ONE)
    ensures paid <= plan.liquidity <==> supply > 0 || total < ONE
    ensures supply == 0 ==> paid == plan.liquidity + total / ONE
  {
    var c, cost, m := plan.collateral, plan.liquidity, plan.minted;
    var redeemed := m * (v.held + c) / (v.supply + m);
    DivAtLeast(m * (v.held + c), v.supply + m, 0) by { MulMono(0, m, v.held + c); }
    if v.supply > 0 {
      SharesGiveBackAtMost(v, c, m);
    } else {
      assert m * (v.held + c) == c * (v.supply + m);
      DivOfMultiple(c, v.supply + m);
    }
    if supply > 0 {
      var (cs, ts) := ExchangeRatePair(supply, total);
      CoveredCost(total, supply, cs, ts, c, cost);
      CostGivesBackAtMost(total, supply, c, cost, redeemed);
    } else {
      FirstHolderTakesAll(total, c, cost);
      DivBounds(total, ONE);
    }
  }

  lemma CoveredCost(total: nat, supply: nat, cs: nat, ts: nat, c: nat, cost: nat)
    requires supply > 0 && if total == 0 then cs == 1 && ts == ONE else cs == supply && ts == total
    requires cs * ONE > 0 && cost == CeilDiv(c * ts, cs * ONE)
    ensures c * total <= cost * ONE * supply
  {
    CeilBounds(c * ts, cs * ONE);
    assert cost * (cs * ONE) == cost * ONE * cs;
    if total == 0 {
      MulMono(0, cost * ONE, supply);
    }
  }

  lemma FirstHolderTakesAll(total: nat, c: nat, cost: nat)
    requires c > 0
    ensures c * ONE > 0 && c * (total + cost * ONE) / (c * ONE) == cost + total / ONE
  {
    DivCancel(total + cost * ONE, ONE, c);
    assert (total + cost * ONE) * c == c * (total + cost * ONE);
    assert ONE * c == c * ONE;
  }

  /** A small reserve without debt, current at CLOCK, under a vault that holds all of its shares. */
  function SmallWorld(curve: KlendCurve.Curve, shares: u64, atoms: u64): World {
    World(KlendState(1, 1, 1, atoms, 0, 0, 0, 0, shares, 0, false, false, 0, 0, 0, curve, 1000,
                     WithdrawalCaps(0, 0, 0, 0), 0),
          Vault(shares, shares, 0))
  }

  const CLOCK: Clock := Clock(1, 1)

  lemma SmallBooks(curve: KlendCurve.Curve, shares: u64, atoms: u64)
    ensures var s := SmallWorld(curve, shares, atoms).reserve;
      && AccrueInterest(s, CLOCK) == Ok(Current(s)) && TotalSupply(s, Current(s)) == Ok(atoms * ONE)
      && Accrued(s, CLOCK) == Ok(s)
  {
  }

  lemma WindfallDeposit(curve: KlendCurve.Curve)
    ensures PlanDeposit(SmallWorld(curve, 0, 5).reserve, CLOCK, Vault(0, 0, 0), 0, 10) == Ok(DepositPlan(10, 10, 10, 10))
  {
    SmallBooks(curve, 0, 5);
    DepositExact(1000, 5 * ONE, 1, ONE, Vault(0, 0, 0), 10);
    assert Checked.NetAmount(10, 0, 0) == Ok(10);
    hide AccrueInterest, TotalSupply, PlanDepositAt;
  }

  lemma WindfallRedemption(curve: KlendCurve.Curve)
    ensures QuoteWithdraw(SmallWorld(curve, 10, 15).reserve, CLOCK, Vault(10, 10, 0), 10) == Ok(15)
  {
    var s, v := SmallWorld(curve, 10, 15).reserve, Vault(10, 10, 0);
    SmallBooks(curve, 10, 15);
    hide AccrueInterest, TotalSupply;
    assert s.depositCap.Remaining(CLOCK.Seconds()) == U64_MAX;
    assert ExchangeRatePair(10, 15 * ONE) == (10, 15 * ONE);
    WithdrawExact(s, CLOCK, v, 10);
    assert Payout(v, 10, 15 * ONE, 10) == 15;
  }

  /** The exception of RoundTrip happens: 10 atoms into a shareless reserve holding 5 come back as 15. */
  lemma SharelessReserveWindfall(curve: KlendCurve.Curve)
    ensures var w := SmallWorld(curve, 0, 5);
      && Empty(w) && Apply(w, Deposit(CLOCK, 0, 10)) == Ok(SmallWorld(curve, 10, 15))
      && QuoteWithdraw(SmallWorld(curve, 10, 15).reserve, CLOCK, Vault(10, 10, 0), 10) == Ok(15)
  {
    SmallBooks(curve, 0, 5);
    WindfallDeposit(curve);
    WindfallRedemption(curve);
    hide Accrued, PlanDeposit, QuoteWithdraw;
  }

  // ---------------------------------------------------------------- when deposit quotes are monotone

  /** Every reserve and vault mints no less for a larger accepted deposit. */
  ghost predicate DepositsMonotone(feeBps: u16, creatorBps: u16) {
    forall s, clock, v: Vault, x: u64, y: u64 ::
      && v.creatorFeeBps == creatorBps && x <= y
      && QuoteDeposit(s, clock, v, feeBps, x).Ok? && QuoteDeposit(s, clock, v, feeBps, y).Ok? ==>
      QuoteDeposit(s, clock, v, feeBps, x).value <= QuoteDeposit(s, clock, v, feeBps, y).value
  }

  lemma MonotonePair(s: KlendState, clock: Clock, v: Vault, feeBps: u16, x: u64, y: u64)
    requires feeBps == 0 || v.creatorFeeBps == 0 || feeBps + v.creatorFeeBps >= FULL_BPS
    requires x <= y && QuoteDeposit(s, clock, v, feeBps, x).Ok? && QuoteDeposit(s, clock, v, feeBps, y).Ok?
    ensures QuoteDeposit(s, clock, v, feeBps, x).value <= QuoteDeposit(s, clock, v, feeBps, y).value
  {
    hide PlanDepositAt, AccrueInterest, TotalSupply, Checked.NetAmount, AtomWorth;
    DepositNearlyMonotone(s, clock, v, feeBps, x, y);
    if feeBps + v.creatorFeeBps >= FULL_BPS {
      NetOfPlan(s, clock, v, feeBps, x);
      NetOfPlan(s, clock, v, feeBps, y);
      NetWhenFeesTakeAll(x, feeBps, v.creatorFeeBps, PlanDeposit(s, clock, v, feeBps, x).value.net);
    }
  }

  lemma NetOfPlan(s: KlendState, clock: Clock, v: Vault, feeBps: u16, x: u64)
    ensures PlanDeposit(s, clock, v, feeBps, x).Ok? ==>
      var net := PlanDeposit(s, clock, v, feeBps, x).value.net;
      net > 0 && Checked.NetAmount(x, feeBps, v.creatorFeeBps) == Ok(net)
  {
    hide AccrueInterest, TotalSupply, Checked.NetAmount, LiquidityToCollateral, CollateralToLiquidityCeil, SharesFor;
  }

  /** An empty reserve, one to one, open up to a limit. */
  function Fresh(curve: KlendCurve.Curve, limit: u64): KlendState {
    SmallWorld(curve, 0, 0).reserve.(depositLimit := limit)
  }

  /** An empty vault over it mints the net amount, up to the limit. */
  lemma FreshMintsNet(curve: KlendCurve.Curve, limit: u64, feeBps: u16, creatorBps: u16, amount: u64, net: u64)
    requires Checked.NetAmount(amount, feeBps, creatorBps) == Ok(net) && amount > 0 && 0 < net <= 20_000
    ensures var quoted := QuoteDeposit(Fresh(curve, limit), CLOCK, Vault(0, 0, creatorBps), feeBps, amount);
      if net <= limit then quoted == Ok(net) else quoted.Err?
  {
    var s := Fresh(curve, limit);
    assert AccrueInterest(s, CLOCK) == Ok(Current(s)) && TotalSupply(s, Current(s)) == Ok(0);
    DepositExact(limit, 0, 1, ONE, Vault(0, 0, creatorBps), net);
    assert 1 * net * ONE / ONE == net && CeilDiv(net * ONE, ONE) == net;
    hide AccrueInterest, TotalSupply, PlanDepositAt, Checked.NetAmount;
  }

  /** Two fees of 50 basis points over a fresh vault: 199 atoms quote 199 shares and 200 quote 198. */
  lemma QuoteDips(curve: KlendCurve.Curve)
    ensures QuoteDeposit(Fresh(curve, 1000), CLOCK, Vault(0, 0, 50), 50, 199) == Ok(199)
    ensures QuoteDeposit(Fresh(curve, 1000), CLOCK, Vault(0, 0, 50), 50, 200) == Ok(198)
  {
    OneAtomDip();
    FreshMintsNet(curve, 1000, 50, 50, 199, 199);
    FreshMintsNet(curve, 1000, 50, 50, 200, 198);
  }

  /** At a limit of 198 the same fees leave a gap: 198 and 200 are accepted, 199 is not. */
  lemma DepositGap(curve: KlendCurve.Curve)
    ensures QuoteDeposit(Fresh(curve, 198), CLOCK, Vault(0, 0, 50), 50, 198) == Ok(198)
    ensures QuoteDeposit(Fresh(curve, 198), CLOCK, Vault(0, 0, 50), 50, 199).Err?
    ensures QuoteDeposit(Fresh(curve, 198), CLOCK, Vault(0, 0, 50), 50, 200) == Ok(198)
  {
    OneAtomDip();
    assert Checked.NetAmount(198, 50, 50) == Ok(198);
    FreshMintsNet(curve, 198, 50, 50, 198, 198);
    FreshMintsNet(curve, 198, 50, 50, 199, 199);
    FreshMintsNet(curve, 198, 50, 50, 200, 198);
  }

  /**
   Deposit quotes are non-decreasing for every reserve and vault exactly when one fee is not charged, or
   both together take everything but single atoms.
   */
  lemma DepositsMonotoneIff(feeBps: u16, creatorBps: u16, curve: KlendCurve.Curve)
    ensures DepositsMonotone(feeBps, creatorBps) <==> feeBps == 0 || creatorBps == 0 || feeBps + creatorBps >= FULL_BPS
  {
    hide QuoteDeposit;
    if feeBps == 0 || creatorBps == 0 || feeBps + creatorBps >= FULL_BPS {
      forall s, clock, v: Vault, x: u64, y: u64 |
        && v.creatorFeeBps == creatorBps && x <= y
        && QuoteDeposit(s, clock, v, feeBps, x).Ok? && QuoteDeposit(s, clock, v, feeBps, y).Ok?
        ensures QuoteDeposit(s, clock, v, feeBps, x).value <= QuoteDeposit(s, clock, v, feeBps, y).value
      {
        MonotonePair(s, clock, v, feeBps, x, y);
      }
    } else {
      NetDip(feeBps, creatorBps);
      FreshMintsNet(curve, 20_000, feeBps, creatorBps, 9_999, 10_001 - feeBps - creatorBps);
      FreshMintsNet(curve, 20_000, feeBps, creatorBps, 10_000, 10_000 - feeBps - creatorBps);
    }
  }

  // ---------------------------------------------------------------- when accepted deposits have no gaps

  /** Between two accepted deposits every deposit is accepted. */
  ghost predicate GaplessFor(s: KlendState, clock: Clock, v: Vault, feeBps: u16) {
    forall a: u64, b: u64, c: u64 ::
      a <= b <= c && QuoteDeposit(s, clock, v, feeBps, a).Ok? && QuoteDeposit(s, clock, v, feeBps, c).Ok? ==>
      QuoteDeposit(s, clock, v, feeBps, b).Ok?
  }

  ghost predicate DepositsGapless(feeBps: u16, creatorBps: u16) {
    forall s, clock, v: Vault :: v.creatorFeeBps == creatorBps ==> GaplessFor(s, clock, v, feeBps)
  }

  /** Below 10000 atoms the amounts that leave one atom form a range; with fees above 100% no others are accepted. */
  ghost predicate SingleAtomsInARow(feeBps: u16, creatorBps: u16) {
    forall a: u64, b: u64, c: u64 ::
      && a <= b <= c < FULL_BPS
      && Checked.NetAmount(a, feeBps, creatorBps) == Ok(1) && Checked.NetAmount(c, feeBps, creatorBps) == Ok(1) ==>
      Checked.NetAmount(b, feeBps, creatorBps) == Ok(1)
  }

  /** Two positive fees below 100% together: at a limit of what 10000 nets, 9999 nets one atom too many. */
  lemma GapBelowFull(curve: KlendCurve.Curve, p: u16, c: u16)
    requires 0 < p && 0 < c && p + c < FULL_BPS
    ensures !GaplessFor(Fresh(curve, 10_000 - p - c), CLOCK, Vault(0, 0, c), p)
  {
    hide Checked.NetAmount, QuoteDeposit, GaplessFor, Fresh;
    var limit := 10_000 - p - c;
    NetDip(p, c);
    OneAtomNets(p, c);
    FreshMintsNet(curve, limit, p, c, 1, 1);
    FreshMintsNet(curve, limit, p, c, 9_999, 10_001 - p - c);
    FreshMintsNet(curve, limit, p, c, 10_000, limit);
    NotGapless(Fresh(curve, limit), CLOCK, Vault(0, 0, c), p, 1, 9_999, 10_000);
  }

  lemma OneAtomNets(p: u16, c: u16)
    requires p + c < FULL_BPS
    ensures Checked.NetAmount(1, p, c) == Ok(1)
  {
  }

  lemma NotGapless(s: KlendState, clock: Clock, v: Vault, feeBps: u16, a: u64, b: u64, c: u64)
    requires a <= b <= c && QuoteDeposit(s, clock, v, feeBps, a).Ok? && QuoteDeposit(s, clock, v, feeBps, c).Ok?
    requires QuoteDeposit(s, clock, v, feeBps, b).Err?
    ensures !GaplessFor(s, clock, v, feeBps)
  {
    hide QuoteDeposit;
  }

  /** Two positive fees of exactly 100% together take 10000 atoms whole, but not 9999 or 10001. */
  lemma GapAtFull(curve: KlendCurve.Curve, p: u16, c: u16)
    requires 0 < p && 0 < c && p + c == FULL_BPS
    ensures !GaplessFor(Fresh(curve, 1), CLOCK, Vault(0, 0, c), p)
  {
    hide QuoteDeposit, Checked.NetAmount, GaplessFor, Fresh;
    NetAtFull(p, c);
    FreshMintsNet(curve, 1, p, c, 9_999, 1);
    FreshMintsNet(curve, 1, p, c, 10_001, 1);
    NothingNet(Fresh(curve, 1), CLOCK, Vault(0, 0, c), p, 10_000);
    NotGapless(Fresh(curve, 1), CLOCK, Vault(0, 0, c), p, 9_999, 10_000, 10_001);
  }

  lemma NothingNet(s: KlendState, clock: Clock, v: Vault, feeBps: u16, amount: u64)
    requires forall n: u64 :: n > 0 ==> Checked.NetAmount(amount, feeBps, v.creatorFeeBps) != Ok(n)
    ensures QuoteDeposit(s, clock, v, feeBps, amount).Err?
  {
    NetOfPlan(s, clock, v, feeBps, amount);
    hide PlanDeposit, Checked.NetAmount;
  }

  /** With fees above 100% together at most a single atom is left, and only below 10000. */
  lemma SingleAtom(amount: u64, feeBps: u16, creatorBps: u16, net: u64)
    requires feeBps + creatorBps > FULL_BPS && net > 0 && Checked.NetAmount(amount, feeBps, creatorBps) == Ok(net)
    ensures net == 1 && amount < FULL_BPS
  {
    NetWhenFeesTakeAll(amount, feeBps, creatorBps, net);
    if amount >= FULL_BPS {
      NothingLeft(amount, feeBps, creatorBps, net);
    }
  }

  /** So that is all a quote accepts. */
  lemma AcceptsSingleAtom(s: KlendState, clock: Clock, v: Vault, feeBps: u16, amount: u64)
    ensures QuoteDeposit(s, clock, v, feeBps, amount).Ok? ==>
      feeBps + v.creatorFeeBps > FULL_BPS ==> LeavesOne(amount, feeBps, v.creatorFeeBps)
  {
    NetOfPlan(s, clock, v, feeBps, amount);
    hide PlanDeposit, Checked.NetAmount;
    if QuoteDeposit(s, clock, v, feeBps, amount).Ok? && feeBps + v.creatorFeeBps > FULL_BPS {
      SingleAtom(amount, feeBps, v.creatorFeeBps, PlanDeposit(s, clock, v, feeBps, amount).value.net);
    }
  }

  ghost predicate LeavesOne(amount: u64, feeBps: u16, creatorBps: u16) {
    hide Checked.NetAmount;
    amount < FULL_BPS && Checked.NetAmount(amount, feeBps, creatorBps) == Ok(1)
  }

  /** Deposits of equal net amounts are accepted together. */
  lemma SameNet(s: KlendState, clock: Clock, v: Vault, feeBps: u16, a: u64, b: u64)
    requires a > 0 && b > 0
    requires Checked.NetAmount(a, feeBps, v.creatorFeeBps) == Checked.NetAmount(b, feeBps, v.creatorFeeBps)
    ensures QuoteDeposit(s, clock, v, feeBps, a) == QuoteDeposit(s, clock, v, feeBps, b)
  {
    hide AccrueInterest, TotalSupply, PlanDepositAt, Checked.NetAmount;
  }

  lemma ZeroNets(p: u16, c: u16)
    ensures Checked.NetAmount(0, p, c) == Ok(0)
  {
  }

  /** Above 100% together only single atoms are accepted, so the gaps are those of the net amounts below 10000. */
  lemma GaplessAboveFull(feeBps: u16, creatorBps: u16, curve: KlendCurve.Curve)
    requires feeBps + creatorBps > FULL_BPS
    ensures DepositsGapless(feeBps, creatorBps) <==> SingleAtomsInARow(feeBps, creatorBps)
  {
    hide QuoteDeposit, Checked.NetAmount;
    ZeroNets(feeBps, creatorBps);
    if SingleAtomsInARow(feeBps, creatorBps) {
      forall s, clock, v: Vault, a: u64, b: u64, c: u64 |
        && v.creatorFeeBps == creatorBps && a <= b <= c
        && QuoteDeposit(s, clock, v, feeBps, a).Ok? && QuoteDeposit(s, clock, v, feeBps, c).Ok?
        ensures QuoteDeposit(s, clock, v, feeBps, b).Ok?
      {
        AcceptsSingleAtom(s, clock, v, feeBps, a);
        AcceptsSingleAtom(s, clock, v, feeBps, c);
        SameNet(s, clock, v, feeBps, a, b);
      }
    }
    if DepositsGapless(feeBps, creatorBps) {
      var s, v := Fresh(curve, 1), Vault(0, 0, creatorBps);
      assert GaplessFor(s, CLOCK, v, feeBps);
      forall a: u64, b: u64, c: u64 |
        && a <= b <= c < FULL_BPS
        && Checked.NetAmount(a, feeBps, creatorBps) == Ok(1) && Checked.NetAmount(c, feeBps, creatorBps) == Ok(1)
        ensures Checked.NetAmount(b, feeBps, creatorBps) == Ok(1)
      {
        FreshMintsNet(curve, 1, feeBps, creatorBps, a, 1);
        FreshMintsNet(curve, 1, feeBps, creatorBps, c, 1);
        AcceptsSingleAtom(s, CLOCK, v, feeBps, b);
      }
    }
  }

  /**
   Accepted deposits have no gaps, for every reserve and vault: with fees of at most 100% together exactly
   when one is not charged, and above that exactly when single net atoms come in a row.
   */
  lemma DepositsGaplessIff(feeBps: u16, creatorBps: u16, curve: KlendCurve.Curve)
    ensures DepositsGapless(feeBps, creatorBps) <==>
      if feeBps + creatorBps <= FULL_BPS then feeBps == 0 || creatorBps == 0 else SingleAtomsInARow(feeBps, creatorBps)
  {
    hide QuoteDeposit, GaplessFor, SingleAtomsInARow;
    if feeBps + creatorBps > FULL_BPS {
      GaplessAboveFull(feeBps, creatorBps, curve);
    } else if feeBps == 0 || creatorBps == 0 {
      forall s, clock, v: Vault | v.creatorFeeBps == creatorBps
        ensures GaplessFor(s, clock, v, feeBps)
      {
        GaplessWithOneFee(s, clock, v, feeBps);
      }
    } else if feeBps + creatorBps < FULL_BPS {
      GapBelowFull(curve, feeBps, creatorBps);
    } else {
      GapAtFull(curve, feeBps, creatorBps);
    }
  }

  lemma GaplessWithOneFee(s: KlendState, clock: Clock, v: Vault, feeBps: u16)
    requires feeBps == 0 || v.creatorFeeBps == 0
    ensures GaplessFor(s, clock, v, feeBps)
  {
    hide QuoteDeposit;
    forall a: u64, b: u64, c: u64 |
      a <= b <= c && QuoteDeposit(s, clock, v, feeBps, a).Ok? && QuoteDeposit(s, clock, v, feeBps, c).Ok?
      ensures QuoteDeposit(s, clock, v, feeBps, b).Ok?
    {
      DepositInterval(s, clock, v, feeBps, a, b, c);
    }
  }
}
