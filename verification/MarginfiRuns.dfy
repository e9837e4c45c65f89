/** Whole histories of a wrapper vault over a marginfi bank. */
module MarginfiRuns {
  import opened Arith
  import opened Outcome
  import opened Fixed
  import Checked
  import WrapperShares
  import opened Marginfi

  /** The bank, the vault's position in it included, and the wrapper shares outstanding. */
  datatype World = World(bank: Bank, supply: u64)

  /**
   Wrapper deposits and withdrawals, accrual, and whatever else happens to the bank: its other users and its
   administrator may change all of it but the vault's own shares and the asset share value.
   */
  datatype Step =
    | Deposit(now: int, creatorBps: u16, protocolBps: u16, amount: u64)
    | Withdraw(now: int, amount: u64)
    | Accrue(now: int)
    | Others(other: Bank)

  function AtClock(b: Bank, now: int): Result<Bank> {
    var values :- AccrueShareValues(b, now);
    Ok(b.(assetShareValue := values.asset, liabilityShareValue := values.liability, lastUpdate := now))
  }

  /** The bank shares that a deposit buys at its clock. */
  function SharesBought(b: Bank, now: int, creatorBps: u16, protocolBps: u16, amount: u64): Result<fixed48> {
    var net :- Checked.NetAmount(amount, protocolBps, creatorBps);
    var values :- AccrueShareValues(b, now);
    Div48(FromNum48(net), values.asset)
  }

  function AddShares(b: Bank, added: fixed48): Result<Bank> {
    if b.totalAssetShares + added >= FIXED_LIMIT || b.userShares + added >= FIXED_LIMIT then Err(Overflow)
    else Ok(b.(totalAssetShares := b.totalAssetShares + added, userShares := b.userShares + added))
  }

  /** The pro-rata part of the vault's bank shares behind `amount` wrapper shares. */
  function SharesBehind(w: World, amount: u64): nat {
    if w.supply == 0 || w.bank.userShares < 0 then 0 else Quotient(amount * w.bank.userShares, w.supply)
  }

  function RemoveShares(b: Bank, removed: nat): Result<Bank> {
    if b.totalAssetShares < removed then Err(Underflow)
    else Ok(b.(totalAssetShares := b.totalAssetShares - removed, userShares := b.userShares - removed))
  }

  function Apply(w: World, step: Step): Result<World> {
    match step
    case Deposit(now, creatorBps, protocolBps, amount) =>
      var minted :- QuoteDeposit(w.bank, now, w.supply, creatorBps, protocolBps, amount);
      var added :- SharesBought(w.bank, now, creatorBps, protocolBps, amount);
      var current :- AtClock(w.bank, now);
      var bank :- AddShares(current, added);
      var supply :- FitU64(w.supply + minted);
      Ok(World(bank, supply))
    case Withdraw(now, amount) =>
      var _ :- QuoteWithdraw(w.bank, now, w.supply, amount);
      var current :- AtClock(w.bank, now);
      var bank :- RemoveShares(current, SharesBehind(w, amount));
      var supply: u64 :- Sub(w.supply, amount);
      Ok(World(bank, supply))
    case Accrue(now) =>
      var bank :- AtClock(w.bank, now);
      Ok(w.(bank := bank))
    case Others(other) =>
      Ok(w.(bank := other.(assetShareValue := w.bank.assetShareValue, userShares := w.bank.userShares)))
  }

  /** A step that fails leaves everything as it was. */
  function Next(w: World, step: Step): World {
    if Apply(w, step).Ok? then Apply(w, step).value else w
  }

  function Run(w: World, steps: seq<Step>): World
    decreases |steps|
  {
    hide Next;
    if steps == [] then w else Run(Next(w, steps[0]), steps[1..])
  }

  /** The vault is never emptied along the way. */
  ghost predicate NeverEmpty(w: World, steps: seq<Step>)
    decreases |steps|
  {
    hide Next;
    w.supply > 0 && (steps != [] ==> NeverEmpty(Next(w, steps[0]), steps[1..]))
  }

  ghost predicate Empty(w: World) {
    w.supply == 0 && w.bank.userShares == 0
  }

  ghost predicate Sound(w: World) {
    w.bank.userShares >= 0 && (w.supply == 0 <==> w.bank.userShares == 0)
  }

  /** Neither the bank shares behind a wrapper share nor the value of a bank share fall. */
  ghost predicate RatesKept(was: World, now: World) {
    && now.bank.userShares * was.supply >= was.bank.userShares * now.supply
    && now.bank.assetShareValue >= was.bank.assetShareValue
  }

  // ---------------------------------------------------------------- one step

  /** What an accepted deposit mints, and that it buys something. */
  lemma DepositTerms(b: Bank, now: int, supply: u64, creatorBps: u16, protocolBps: u16, amount: u64, added: fixed48)
    requires QuoteDeposit(b, now, supply, creatorBps, protocolBps, amount).Ok?
    requires SharesBought(b, now, creatorBps, protocolBps, amount) == Ok(added)
    ensures added > 0 && QuoteDeposit(b, now, supply, creatorBps, protocolBps, amount).value > 0
    ensures supply > 0 ==>
      && b.userShares > 0
      && QuoteDeposit(b, now, supply, creatorBps, protocolBps, amount).value == added * supply / b.userShares
  {
    hide AccrueShareValues, MintFor;
    var net := Checked.NetAmount(amount, protocolBps, creatorBps).value;
    DepositGuardNeverRejects(b, supply, net, added);
  }

  lemma DepositKeeps(w: World, step: Step)
    requires Sound(w) && step.Deposit? && Apply(w, step).Ok?
    ensures Sound(Next(w, step)) && (w.supply > 0 ==> RatesKept(w, Next(w, step)))
  {
    hide QuoteDeposit, SharesBought, AccrueShareValues;
    var b := w.bank;
    var added := SharesBought(b, step.now, step.creatorBps, step.protocolBps, step.amount).value;
    DepositTerms(b, step.now, w.supply, step.creatorBps, step.protocolBps, step.amount, added);
    ShareValuesNeverFall(b, step.now);
    if w.supply > 0 {
      MintKeepsRatio(b.userShares, w.supply, added, Next(w, step).supply - w.supply);
    }
  }

  lemma MintKeepsRatio(held: nat, supply: nat, added: nat, minted: nat)
    requires held > 0 && minted == added * supply / held
    ensures (held + added) * supply >= held * (supply + minted)
  {
    DivBounds(added * supply, held);
    assert (held + added) * supply == held * supply + added * supply;
    assert held * (supply + minted) == held * supply + minted * held;
  }

  /** An accepted withdrawal burns no more than there is. */
  lemma WithdrawTerms(b: Bank, now: int, supply: u64, amount: u64)
    requires QuoteWithdraw(b, now, supply, amount).Ok?
    ensures 0 < amount <= supply && 0 < b.userShares < U128_LIMIT
  {
    hide AccrueShareValues, PayFor;
  }

  lemma WithdrawKeeps(w: World, step: Step)
    requires Sound(w) && step.Withdraw? && Apply(w, step).Ok?
    ensures Sound(Next(w, step)) && (w.supply > 0 ==> RatesKept(w, Next(w, step)))
  {
    hide QuoteWithdraw, AccrueShareValues;
    var b := w.bank;
    WithdrawTerms(b, step.now, w.supply, step.amount);
    ShareValuesNeverFall(b, step.now);
    var v := WrapperShares.Vault(w.supply, b.userShares, 0);
    WrapperShares.TokensForBounds(step.amount, v);
    WrapperShares.BurnTogether(v, step.amount, SharesBehind(w, step.amount));
  }

  lemma AccrueKeeps(w: World, step: Step)
    requires Sound(w) && step.Accrue? && Apply(w, step).Ok?
    ensures Sound(Next(w, step)) && RatesKept(w, Next(w, step))
  {
    hide AccrueShareValues;
    ShareValuesNeverFall(w.bank, step.now);
  }

  /** Every step keeps the invariant, and both rates as long as there are wrapper shares. */
  lemma StepKeeps(w: World, step: Step)
    requires Sound(w)
    ensures Sound(Next(w, step)) && (w.supply > 0 ==> RatesKept(w, Next(w, step)))
  {
    hide QuoteDeposit, QuoteWithdraw, AtClock, SharesBought;
    if Apply(w, step).Ok? {
      match step {
        case Deposit(_, _, _, _) => DepositKeeps(w, step);
        case Withdraw(_, _) => WithdrawKeeps(w, step);
        case Accrue(_) => AccrueKeeps(w, step);
        case Others(_) =>
      }
    }
  }

  // ---------------------------------------------------------------- whole runs

  lemma {:induction false} RunStaysSound(w: World, steps: seq<Step>)
    requires Sound(w)
    ensures Sound(Run(w, steps))
    decreases |steps|
  {
    hide Next, Sound;
    if steps != [] {
      StepKeeps(w, steps[0]);
      RunStaysSound(Next(w, steps[0]), steps[1..]);
    }
  }

  lemma {:induction false} RunKeepsRates(w: World, steps: seq<Step>)
    requires Sound(w) && NeverEmpty(w, steps)
    ensures RatesKept(w, Run(w, steps)) && Run(w, steps).supply > 0
    decreases |steps|
  {
    hide Next;
    if steps != [] {
      var next := Next(w, steps[0]);
      StepKeeps(w, steps[0]);
      RunKeepsRates(next, steps[1..]);
      var last := Run(next, steps[1..]);
      RunStaysSound(next, steps[1..]);
      RatioTransitive(w.bank.userShares, w.supply, next.bank.userShares, next.supply,
                      last.bank.userShares, last.supply);
    }
  }

  /** What `amount` wrapper shares redeem for at the bank's current share value. */
  ghost function Redemption(w: World, amount: nat): nat
    requires w.supply > 0 && w.bank.userShares >= 0
  {
    Quotient(Quotient(amount * w.bank.userShares, w.supply) * w.bank.assetShareValue, ONE48 * ONE48)
  }

  /** From an empty vault neither of the quotes' two bookkeeping errors can arise. */
  lemma BookkeepingErrorsUnreachable(start: World, steps: seq<Step>, now: int, creatorBps: u16, protocolBps: u16,
      amount: u64)
    requires Empty(start)
    ensures var w := Run(start, steps);
      && Sound(w)
      && QuoteDeposit(w.bank, now, w.supply, creatorBps, protocolBps, amount) != Err(OutOfSync)
      && QuoteWithdraw(w.bank, now, w.supply, amount) != Err(NoIntermediate)
  {
    hide Next, Run;
    RunStaysSound(start, steps);
    var w := Run(start, steps);
    InSync(w.bank, now, w.supply, creatorBps, protocolBps, amount);
  }

  lemma InSync(b: Bank, now: int, supply: u64, creatorBps: u16, protocolBps: u16, amount: u64)
    requires supply == 0 || b.userShares > 0
    ensures QuoteDeposit(b, now, supply, creatorBps, protocolBps, amount) != Err(OutOfSync)
    ensures QuoteWithdraw(b, now, supply, amount) != Err(NoIntermediate)
  {
    hide AccrueShareValues;
    AccrualFailsArithmetically(b, now);
  }

  /**
   From an empty vault: after any history, over any further history that keeps the vault non-empty, what a
   fixed number of wrapper shares redeems for never falls, and a withdrawal quoted then pays no less.
   */
  lemma NoHistoryLosesValue(start: World, past: seq<Step>, future: seq<Step>, now: int, amount: u64)
    requires Empty(start) && NeverEmpty(Run(start, past), future)
    ensures var (w, end) := (Run(start, past), Run(Run(start, past), future));
      && Sound(w) && Sound(end) && w.supply > 0 && end.supply > 0 && RatesKept(w, end)
      && Redemption(w, amount) <= Redemption(end, amount)
      && var paid := QuoteWithdraw(end.bank, now, end.supply, amount);
      (paid.Ok? ==> Redemption(w, amount) <= paid.value)
  {
    hide Next, Run, QuoteWithdraw, Redemption;
    RunStaysSound(start, past);
    var w := Run(start, past);
    RunStaysSound(w, future);
    RunKeepsRates(w, future);
    var end := Run(w, future);
    RedemptionMono(w, end, amount);
    if QuoteWithdraw(end.bank, now, end.supply, amount).Ok? {
      PaysAtLeast(end, now, amount);
    }
  }

  lemma RedemptionMono(w: World, end: World, amount: nat)
    requires w.supply > 0 && end.supply > 0 && w.bank.userShares >= 0 && end.bank.userShares >= 0 && RatesKept(w, end)
    ensures Redemption(w, amount) <= Redemption(end, amount)
  {
    FlooredRatioMono(amount, amount, w.bank.userShares, w.supply, end.bank.userShares, end.supply);
    var x := Quotient(amount * w.bank.userShares, w.supply);
    var y := Quotient(amount * end.bank.userShares, end.supply);
    MulMono(w.bank.assetShareValue, end.bank.assetShareValue, x);
    MulMono(x, y, end.bank.assetShareValue);
    QuotientMono(x * w.bank.assetShareValue, y * end.bank.assetShareValue, ONE48 * ONE48);
  }

  /** A quote pays at its clock's share value, which is no less than the stored one. */
  lemma PaysAtLeast(w: World, now: int, amount: u64)
    requires Sound(w) && QuoteWithdraw(w.bank, now, w.supply, amount).Ok?
    ensures w.supply > 0 && Redemption(w, amount) <= QuoteWithdraw(w.bank, now, w.supply, amount).value
  {
    hide QuoteWithdraw, AccrueShareValues, Mul48;
    WithdrawExact(w.bank, now, w.supply, amount);
    WithdrawAccrues(w.bank, now, w.supply, amount);
    ShareValuesNeverFall(w.bank, now);
    WorthMono(Quotient(amount * w.bank.userShares, w.supply), w.bank.assetShareValue,
              AccrueShareValues(w.bank, now).value.asset);
  }

  lemma WorthMono(shares: nat, less: nat, more: nat)
    requires less <= more
    ensures Quotient(shares * less, ONE48 * ONE48) <= Quotient(shares * more, ONE48 * ONE48)
  {
    MulMono(less, more, shares);
    QuotientMono(shares * less, shares * more, ONE48 * ONE48);
  }

  lemma WithdrawAccrues(b: Bank, now: int, supply: u64, amount: u64)
    requires QuoteWithdraw(b, now, supply, amount).Ok?
    ensures AccrueShareValues(b, now).Ok?
  {
    hide AccrueShareValues, PayFor;
  }
}
