/** The on-chain route: balances of TitanPDA accounts through legs executed by foreign venues. */
module Router {
  import opened Arith
  import opened Outcome
  import opened Fixed
  import opened Bitmap

  const MAX_MINTS: nat := 12
  const MAX_SWAPS: nat := 12
  const NANOS: nat := 1_000_000_000

  type Key = nat

  /**
   A token account: whether it exists, whether its owner program, size and authority make it a TitanPDA
   token account, and its amount if its data is long enough to hold one.
   */
  datatype Account = Account(live: bool, titanOwned: bool, amount: Option<u64>)

  type Ledger = map<Key, Account>

  datatype Swap = Swap(from: u8, to: u8, weightNanos: u32, nAccounts: u8)

  /** A venue's effect on all balances: any function of the leg, the balances and the amount it may spend. */
  type VenueCall = (nat, Ledger, u64) -> Option<Ledger>

  /** What a route is called with, besides the balances. */
  datatype Call =
    Call(accounts: seq<Key>, mints: u8, swaps: seq<Swap>, input: Key, output: Key, nativeInput: bool)
  {
    /** The guards at the top of the route. */
    predicate WellFormed() {
      && 1 < mints <= MAX_MINTS && 0 < |swaps| <= MAX_SWAPS
      && 2 * mints <= |accounts|
      && swaps[0].from == 0
      && forall k :: 0 <= k < |swaps| ==> swaps[k].from < mints && swaps[k].to < mints
    }

    /** The error for a call that is not well formed. */
    function Rejection(): Error {
      if 1 < mints <= MAX_MINTS && 0 < |swaps| <= MAX_SWAPS && |accounts| < 2 * mints then MissingRemainingAccount
      else InvalidSwapInput
    }

    function OutputIndex(): nat
      requires WellFormed()
    {
      swaps[|swaps| - 1].to
    }
  }

  function Amount(l: Ledger, key: Key): Result<u64> {
    if key in l && l[key].amount.Some? then Ok(l[key].amount.value) else Err(InvalidAccountData)
  }

  function Balance(l: Ledger, key: Key): u64 {
    if key in l && l[key].amount.Some? then l[key].amount.value else 0
  }

  predicate Exists(l: Ledger, key: Key) {
    key in l && l[key].live
  }

  predicate TitanOwned(l: Ledger, key: Key) {
    key in l && l[key].titanOwned
  }

  // ---------------------------------------------------------------- creating missing accounts

  function Created(l: Ledger, accounts: seq<Key>, n: nat): Ledger
    requires n <= |accounts|
  {
    if n == 0 then l
    else
      var before := Created(l, accounts, n - 1);
      if Exists(before, accounts[n - 1]) then before
      else before[accounts[n - 1] := Account(true, true, Some(0))]
  }

  /** Whether the loop created the account of mint `i`. */
  predicate WasCreated(l: Ledger, accounts: seq<Key>, i: nat)
    requires i < |accounts|
  {
    !Exists(Created(l, accounts, i), accounts[i])
  }

  method CreateMissing(l: Ledger, accounts: seq<Key>, mints: nat) returns (r: Ledger, created: seq<bool>)
    requires mints <= |accounts|
    ensures r == Created(l, accounts, mints)
    ensures |created| == mints && forall i :: 0 <= i < mints ==> created[i] == WasCreated(l, accounts, i)
  {
    r, created := l, [];
    for i := 0 to mints
      invariant r == Created(l, accounts, i) && |created| == i
      invariant forall j :: 0 <= j < i ==> created[j] == WasCreated(l, accounts, j)
    {
      var missing := !Exists(r, accounts[i]);
      if missing {
        r := r[accounts[i] := Account(true, true, Some(0))];
      }
      created := created + [missing];
    }
  }

  /** Afterwards every route account exists; what existed is untouched and what is new is empty. */
  lemma {:induction false} CreationOnlyAdds(l: Ledger, accounts: seq<Key>, n: nat)
    requires n <= |accounts|
    ensures forall i :: 0 <= i < n ==> Exists(Created(l, accounts, n), accounts[i])
    ensures forall key :: Exists(l, key) ==> key in Created(l, accounts, n) && Created(l, accounts, n)[key] == l[key]
    ensures forall key :: key in Created(l, accounts, n) ==>
      || (key in l && Created(l, accounts, n)[key] == l[key])
      || (!Exists(l, key) && key in accounts && Created(l, accounts, n)[key] == Account(true, true, Some(0)))
  {
    if n > 0 {
      CreationOnlyAdds(l, accounts, n - 1);
    }
  }

  // ---------------------------------------------------------------- recording starting balances

  /** Every route mint's account is tracked, and every other TitanPDA account among the rest. */
  predicate Tracked(l: Ledger, accounts: seq<Key>, mints: nat, i: nat)
    requires i < |accounts|
  {
    i < mints || TitanOwned(l, accounts[i])
  }

  /** The recorded balances in the order of the accounts. */
  function Recorded(l: Ledger, accounts: seq<Key>, mints: nat, n: nat): seq<u64>
    requires n <= |accounts|
  {
    if n == 0 then []
    else
      Recorded(l, accounts, mints, n - 1)
      + if Tracked(l, accounts, mints, n - 1) then [Balance(l, accounts[n - 1])] else []
  }

  /** Where the balance of account `i` sits: the number of tracked accounts before it. */
  function Rank(l: Ledger, accounts: seq<Key>, mints: nat, i: nat): nat
    requires i <= |accounts|
  {
    if i == 0 then 0
    else Rank(l, accounts, mints, i - 1) + if Tracked(l, accounts, mints, i - 1) then 1 else 0
  }

  lemma {:induction false} RecordedByRank(l: Ledger, accounts: seq<Key>, mints: nat, n: nat, i: nat)
    requires i <= n <= |accounts|
    ensures |Recorded(l, accounts, mints, n)| == Rank(l, accounts, mints, n)
    ensures Rank(l, accounts, mints, i) <= Rank(l, accounts, mints, n)
    ensures i < n && Tracked(l, accounts, mints, i) ==>
      && Rank(l, accounts, mints, i) < Rank(l, accounts, mints, n)
      && Recorded(l, accounts, mints, n)[Rank(l, accounts, mints, i)] == Balance(l, accounts[i])
    decreases n
  {
    if n > 0 {
      RecordedByRank(l, accounts, mints, n - 1, if i < n then i else n - 1);
    }
  }

  /** The balances of all accounts that must be there. */
  predicate Readable(l: Ledger, accounts: seq<Key>, mints: nat, i: nat)
    requires i < |accounts|
  {
    && (i < mints ==> TitanOwned(l, accounts[i]))
    && (Tracked(l, accounts, mints, i) ==> Amount(l, accounts[i]).Ok?)
  }

  method RecordBalances(l: Ledger, accounts: seq<Key>, mints: nat)
    returns (r: Result<()>, bitmap: TitanPdaBitmap, reserved: seq<u64>, balances: seq<u64>)
    requires mints <= |accounts|
    ensures bitmap.Valid() && fresh(bitmap) && fresh(bitmap.words)
    ensures r.Ok? <==> forall i :: 0 <= i < |accounts| ==> Readable(l, accounts, mints, i)
    ensures r.Err? ==> r.error == InvalidAccountData
    ensures r.Ok? ==>
      && balances == Recorded(l, accounts, mints, |accounts|)
      && |reserved| == mints && (forall i :: 0 <= i < mints ==> reserved[i] == Balance(l, accounts[i]))
      && (forall i: nat :: bitmap.IsSet(i) <==> i < |accounts| && i < CAPACITY && Tracked(l, accounts, mints, i))
  {
    hide Bit, WithBit;
    bitmap := new TitanPdaBitmap();
    reserved, balances := [], [];
    for i := 0 to |accounts|
      invariant bitmap.Valid() && fresh(bitmap) && fresh(bitmap.words)
      invariant forall j :: 0 <= j < i ==> Readable(l, accounts, mints, j)
      invariant balances == Recorded(l, accounts, mints, i)
      invariant |reserved| == Min(i, mints) && forall j :: 0 <= j < |reserved| ==> reserved[j] == Balance(l, accounts[j])
      invariant forall j: nat :: bitmap.IsSet(j) <==> j < i && j < CAPACITY && Tracked(l, accounts, mints, j)
    {
      if i < mints && !TitanOwned(l, accounts[i]) {
        assert !Readable(l, accounts, mints, i);
        return Err(InvalidAccountData), bitmap, reserved, balances;
      }
      if i < mints || TitanOwned(l, accounts[i]) {
        var amount := Amount(l, accounts[i]);
        if amount.Err? {
          assert !Readable(l, accounts, mints, i);
          return Err(amount.error), bitmap, reserved, balances;
        }
        if i < mints {
          reserved := reserved + [amount.value];
        }
        bitmap.Set(i);
        balances := balances + [amount.value];
      }
    }
    return Ok(()), bitmap, reserved, balances;
  }

  // ---------------------------------------------------------------- transfers

  /** A token transfer; the receiver may be credited less than was sent. */
  function Transfer(l: Ledger, from: Key, to: Key, amount: u64, credited: u64): Result<Ledger> {
    if amount == 0 then Ok(l)
    else if Amount(l, from).Err? || Amount(l, to).Err? || Balance(l, from) < amount || credited > amount then
      Err(TransferFailed)
    else
      var sent := l[from := l[from].(amount := Some(Balance(l, from) - amount))];
      if Balance(sent, to) + credited >= U64_LIMIT then Err(TransferFailed)
      else Ok(sent[to := sent[to].(amount := Some(Balance(sent, to) + credited))])
  }

  /** A user's token account, created empty when it is missing; leftover data without lamports is in the way. */
  function WithAccount(l: Ledger, key: Key): Result<Ledger> {
    if Exists(l, key) then Ok(l)
    else if Amount(l, key).Ok? then Err(TransferFailed)
    else Ok(l[key := Account(true, false, Some(0))])
  }

  // ---------------------------------------------------------------- funding

  /**
   What the user pays with: the given amount, or the growth over a stored ledger amount; `deposited` of it
   arrives. Native input is wrapped from `lamports` first.
   */
  datatype Payment = Payment(amount: u64, stored: Option<u64>, deposited: u64, lamports: u64)

  function EffectiveAmount(l: Ledger, input: Key, p: Payment): Result<u64> {
    if p.stored.None? then Ok(p.amount)
    else
      var current :- Amount(l, input);
      if current <= p.stored.value then Err(InvalidAccountData) else Ok(current - p.stored.value)
  }

  /** Tops the wrapped input account up to an amount, creating it when it is missing. */
  function Wrapped(l: Ledger, input: Key, amount: u64, lamports: u64): Result<Ledger> {
    var ready :- WithAccount(l, input);
    var current :- Amount(ready, input);
    if amount <= current then Ok(ready)
    else if lamports < amount - current then Err(TransferFailed)
    else Ok(ready[input := ready[input].(amount := Some(amount))])
  }

  /** The user's payment into the first route account; an input account created for it is closed again. */
  function Funded(c: Call, l: Ledger, p: Payment): Result<Ledger>
    requires c.accounts != []
  {
    var effective :- EffectiveAmount(l, c.input, p);
    if p.stored.None? && c.nativeInput then
      var wrapped :- Wrapped(l, c.input, effective, p.lamports);
      var sent :- Transfer(wrapped, c.input, c.accounts[0], effective, p.deposited);
      Ok(if Exists(l, c.input) then sent else sent[c.input := Account(false, false, None)])
    else
      Transfer(l, c.input, c.accounts[0], effective, p.deposited)
  }

  // ---------------------------------------------------------------- legs

  /** What a leg may spend: its weight's part of everything above the reserve. */
  function LegInput(l: Ledger, key: Key, reserved: u64, weightNanos: u32): u64 {
    var available := SatSub(Balance(l, key), reserved);
    WeightedBelow(available, Min(weightNanos, NANOS));
    available * Min(weightNanos, NANOS) / NANOS
  }

  lemma WeightedBelow(available: nat, weight: nat)
    requires weight <= NANOS
    ensures 0 <= available * weight / NANOS <= available
  {
    MulMono(weight, NANOS, available);
    MulMono(0, available, weight);
    DivAtMost(available * weight, NANOS, available);
    DivAtLeast(available * weight, NANOS, 0);
  }

  /** Leg `k` and those after it, with venue accounts from `index` on. */
  function Legs(c: Call, venue: VenueCall, reserved: seq<u64>, k: nat, index: nat, l: Ledger): Result<Ledger>
    requires c.WellFormed() && |reserved| == c.mints && k <= |c.swaps|
    decreases |c.swaps| - k
  {
    if k == |c.swaps| then Ok(l)
    else
      var swap := c.swaps[k];
      var after :- Leg(c, venue, reserved, k, index, l);
      Legs(c, venue, reserved, k + 1, index + swap.nAccounts, after)
  }

  function Leg(c: Call, venue: VenueCall, reserved: seq<u64>, k: nat, index: nat, l: Ledger): Result<Ledger>
    requires c.WellFormed() && |reserved| == c.mints && k < |c.swaps|
  {
    var swap := c.swaps[k];
    var _ :- Require(swap.nAccounts > 0, InvalidSwapInput);
    var _ :- Require(index + swap.nAccounts <= |c.accounts|, MissingRemainingAccount);
    var _ :- Amount(l, c.accounts[swap.from]);
    var input := LegInput(l, c.accounts[swap.from], reserved[swap.from], swap.weightNanos);
    if input == 0 then Ok(l)
    else
      match venue(k, l, input)
      case None => Err(TransferFailed)
      case Some(after) => Ok(after)
  }

  /** `x` is the weight's part, in billionths, of what the leg's input account holds above its reserve, rounded down. */
  ghost predicate WeightedPart(c: Call, reserved: seq<u64>, k: nat, l: Ledger, x: u64)
    requires c.WellFormed() && |reserved| == c.mints && k < |c.swaps|
  {
    var swap := c.swaps[k];
    var available := SatSub(Balance(l, c.accounts[swap.from]), reserved[swap.from]);
    x * NANOS <= Min(swap.weightNanos, NANOS) * available < (x + 1) * NANOS
  }

  /** A leg hands its venue exactly that part, does nothing when there is none, and fails for no other reason. */
  lemma LegSpendsItsWeight(c: Call, venue: VenueCall, reserved: seq<u64>, k: nat, index: nat, l: Ledger, x: u64)
    requires c.WellFormed() && |reserved| == c.mints && k < |c.swaps| && WeightedPart(c, reserved, k, l, x)
    ensures Leg(c, venue, reserved, k, index, l).Ok? <==>
      && 0 < c.swaps[k].nAccounts <= |c.accounts| - index && Amount(l, c.accounts[c.swaps[k].from]).Ok?
      && (x == 0 || venue(k, l, x).Some?)
    ensures Leg(c, venue, reserved, k, index, l).Ok? ==>
      var after := Leg(c, venue, reserved, k, index, l).value;
      if x == 0 then after == l else venue(k, l, x) == Some(after)
  {
    var swap := c.swaps[k];
    var available := SatSub(Balance(l, c.accounts[swap.from]), reserved[swap.from]);
    DivAtLeast(available * Min(swap.weightNanos, NANOS), NANOS, x);
    DivAtMost(available * Min(swap.weightNanos, NANOS), NANOS, x);
  }

  lemma LegInputIsWeighted(c: Call, reserved: seq<u64>, k: nat, l: Ledger)
    requires c.WellFormed() && |reserved| == c.mints && k < |c.swaps|
    ensures var swap := c.swaps[k];
      WeightedPart(c, reserved, k, l, LegInput(l, c.accounts[swap.from], reserved[swap.from], swap.weightNanos))
  {
    var swap := c.swaps[k];
    DivBounds(SatSub(Balance(l, c.accounts[swap.from]), reserved[swap.from]) * Min(swap.weightNanos, NANOS), NANOS);
  }

  /** Two venues do the same with every part that a leg's weight can call for. */
  ghost predicate AgreeOnParts(c: Call, venue: VenueCall, other: VenueCall, reserved: seq<u64>)
    requires c.WellFormed() && |reserved| == c.mints
  {
    forall k: nat, l: Ledger, x: u64 :: k < |c.swaps| && WeightedPart(c, reserved, k, l, x) ==>
      venue(k, l, x) == other(k, l, x)
  }

  /** So no other amount matters to a route: it is the same with any venues that agree on those parts. */
  lemma {:induction false} LegsSpendTheirWeights(c: Call, venue: VenueCall, other: VenueCall, reserved: seq<u64>,
      k: nat, index: nat, l: Ledger)
    requires c.WellFormed() && |reserved| == c.mints && k <= |c.swaps| && AgreeOnParts(c, venue, other, reserved)
    ensures Legs(c, venue, reserved, k, index, l) == Legs(c, other, reserved, k, index, l)
    decreases |c.swaps| - k
  {
    hide LegInput, WeightedPart;
    if k < |c.swaps| {
      LegInputIsWeighted(c, reserved, k, l);
      var after := Leg(c, venue, reserved, k, index, l);
      assert after == Leg(c, other, reserved, k, index, l);
      if after.Ok? {
        LegsSpendTheirWeights(c, venue, other, reserved, k + 1, index + c.swaps[k].nAccounts, after.value);
      }
    }
  }

  /** A full weight spends all that lies above the reserve, and a weight of zero never calls the venue. */
  lemma WholeAndNoWeight(c: Call, venue: VenueCall, reserved: seq<u64>, k: nat, index: nat, l: Ledger)
    requires c.WellFormed() && |reserved| == c.mints && k < |c.swaps| && Leg(c, venue, reserved, k, index, l).Ok?
    ensures var swap, after := c.swaps[k], Leg(c, venue, reserved, k, index, l).value;
      var available := SatSub(Balance(l, c.accounts[swap.from]), reserved[swap.from]);
      && (swap.weightNanos == 0 || available == 0 ==> after == l)
      && (swap.weightNanos >= NANOS && available > 0 ==> venue(k, l, available) == Some(after))
  {
    hide Leg;
    var swap := c.swaps[k];
    var available := SatSub(Balance(l, c.accounts[swap.from]), reserved[swap.from]);
    if swap.weightNanos >= NANOS || available == 0 {
      LegSpendsItsWeight(c, venue, reserved, k, index, l, available);
    } else if swap.weightNanos == 0 {
      LegSpendsItsWeight(c, venue, reserved, k, index, l, 0);
    }
  }

  /** The accounts that leg `k` and those after it take from the remaining ones. */
  function TakenFrom(swaps: seq<Swap>, k: nat): nat
    requires k <= |swaps|
    decreases |swaps| - k
  {
    if k == |swaps| then 0 else swaps[k].nAccounts + TakenFrom(swaps, k + 1)
  }

  /** Legs take their accounts one after the other: with too few for all of them no run succeeds. */
  lemma {:induction false} LegsFitAccounts(c: Call, venue: VenueCall, reserved: seq<u64>, k: nat, index: nat, l: Ledger)
    requires c.WellFormed() && |reserved| == c.mints && k < |c.swaps|
    ensures Legs(c, venue, reserved, k, index, l).Ok? ==> index + TakenFrom(c.swaps, k) <= |c.accounts|
    decreases |c.swaps| - k
  {
    hide LegInput;
    if Legs(c, venue, reserved, k, index, l).Ok? && k + 1 < |c.swaps| {
      LegsFitAccounts(c, venue, reserved, k + 1, index + c.swaps[k].nAccounts, Leg(c, venue, reserved, k, index, l).value);
    }
  }

  method RunLegs(c: Call, venue: VenueCall, reserved: seq<u64>, l: Ledger) returns (r: Result<Ledger>)
    requires c.WellFormed() && |reserved| == c.mints
    ensures r == Legs(c, venue, reserved, 0, 2 * c.mints, l)
  {
    hide LegInput;
    var index: nat := 2 * c.mints;
    var now := l;
    for k := 0 to |c.swaps|
      invariant Legs(c, venue, reserved, k, index, now) == Legs(c, venue, reserved, 0, 2 * c.mints, l)
    {
      var swap := c.swaps[k];
      if swap.nAccounts == 0 {
        return Err(InvalidSwapInput);
      }
      if index + swap.nAccounts > |c.accounts| {
        return Err(MissingRemainingAccount);
      }
      var balance := Amount(now, c.accounts[swap.from]);
      if balance.Err? {
        return Err(balance.error);
      }
      var input := LegInput(now, c.accounts[swap.from], reserved[swap.from], swap.weightNanos);
      if input > 0 {
        var after := venue(k, now, input);
        if after.None? {
          return Err(TransferFailed);
        }
        now := after.value;
      }
      index := index + swap.nAccounts;
    }
    return Ok(now);
  }

  // ---------------------------------------------------------------- settlement and closing

  /** The user gets everything above the reserve of the last leg's output mint. */
  function Settle(c: Call, reserved: seq<u64>, l: Ledger, credited: u64 -> u64): Result<Ledger>
    requires c.WellFormed() && |reserved| == c.mints
  {
    var key := c.accounts[c.OutputIndex()];
    var raw :- Amount(l, key);
    var traded := SatSub(raw, reserved[c.OutputIndex()]);
    var ready :- WithAccount(l, c.output);
    Transfer(ready, key, c.output, traded, credited(traded))
  }

  /** Accounts the route created are closed again when nothing is left in them. */
  function Closed(l: Ledger, accounts: seq<Key>, created: seq<bool>, n: nat): Ledger
    requires n <= |created| <= |accounts|
  {
    if n == 0 then l
    else
      var before := Closed(l, accounts, created, n - 1);
      var key := accounts[n - 1];
      if created[n - 1] && Balance(before, key) == 0 then before[key := Account(false, false, None)] else before
  }

  lemma {:induction false} ClosingKeepsBalances(l: Ledger, accounts: seq<Key>, created: seq<bool>, n: nat, key: Key)
    requires n <= |created| <= |accounts|
    ensures Balance(Closed(l, accounts, created, n), key) == Balance(l, key)
  {
    if n > 0 {
      ClosingKeepsBalances(l, accounts, created, n - 1, key);
      ClosingKeepsBalances(l, accounts, created, n - 1, accounts[n - 1]);
    }
  }

  /** Account `key` was created by the route and is empty. */
  predicate LeftEmpty(l: Ledger, accounts: seq<Key>, created: seq<bool>, n: nat, key: Key)
    requires n <= |created| <= |accounts|
  {
    Balance(l, key) == 0 && exists i :: 0 <= i < n && created[i] && accounts[i] == key
  }

  /** Exactly the created accounts left empty stop existing; all others stay as they are. */
  lemma {:induction false} ClosingIsExact(l: Ledger, accounts: seq<Key>, created: seq<bool>, n: nat, key: Key)
    requires n <= |created| <= |accounts|
    ensures var r := Closed(l, accounts, created, n);
      if LeftEmpty(l, accounts, created, n, key) then key in r && r[key] == Account(false, false, None)
      else (key in r <==> key in l) && (key in l ==> r[key] == l[key])
  {
    if n > 0 {
      ClosingIsExact(l, accounts, created, n - 1, key);
      ClosingKeepsBalances(l, accounts, created, n - 1, accounts[n - 1]);
      if LeftEmpty(l, accounts, created, n, key) && !LeftEmpty(l, accounts, created, n - 1, key) {
        assert created[n - 1] && accounts[n - 1] == key;
      }
    }
  }

  method CloseCreated(l: Ledger, accounts: seq<Key>, created: seq<bool>) returns (r: Ledger)
    requires |created| <= |accounts|
    ensures r == Closed(l, accounts, created, |created|)
    ensures forall key :: LeftEmpty(l, accounts, created, |created|, key) ==>
      key in r && r[key] == Account(false, false, None)
    ensures forall key :: !LeftEmpty(l, accounts, created, |created|, key) ==>
      (key in r <==> key in l) && (key in l ==> r[key] == l[key])
  {
    r := l;
    for i := 0 to |created|
      invariant r == Closed(l, accounts, created, i)
    {
      if created[i] && Balance(r, accounts[i]) == 0 {
        r := r[accounts[i] := Account(false, false, None)];
      }
    }
    hide LeftEmpty, Closed;
    forall key: Key
      ensures LeftEmpty(l, accounts, created, |created|, key) ==> key in r && r[key] == Account(false, false, None)
      ensures !LeftEmpty(l, accounts, created, |created|, key) ==>
        (key in r <==> key in l) && (key in l ==> r[key] == l[key])
    {
      ClosingIsExact(l, accounts, created, |created|, key);
    }
  }

  // ---------------------------------------------------------------- the final check

  /** Every tracked account below index 256 holds at least what it held at the start. */
  ghost predicate ReservesKept(start: Ledger, end: Ledger, accounts: seq<Key>, mints: nat) {
    forall i :: 0 <= i < |accounts| && i < CAPACITY && Tracked(start, accounts, mints, i) ==>
      Balance(end, accounts[i]) >= Balance(start, accounts[i])
  }

  /**
   Walks the set bits and the recorded balances side by side. The balance index is the rank of the
   account, even though accounts from 256 on are recorded without a bit: they come last.
   */
  method FinalCheck(start: Ledger, end: Ledger, accounts: seq<Key>, mints: nat, bitmap: TitanPdaBitmap, balances: seq<u64>)
    returns (r: Result<()>)
    requires bitmap.Valid() && mints <= |accounts| && balances == Recorded(start, accounts, mints, |accounts|)
    requires forall i: nat :: bitmap.IsSet(i) <==> i < |accounts| && i < CAPACITY && Tracked(start, accounts, mints, i)
    ensures r.Ok? <==> ReservesKept(start, end, accounts, mints)
    ensures r.Err? ==> r.error == ReservedBalanceViolation
  {
    hide Bit;
    var next := 0;
    for i := 0 to |accounts|
      invariant i <= CAPACITY ==> next == Rank(start, accounts, mints, i)
      invariant forall j :: 0 <= j < i && j < CAPACITY && Tracked(start, accounts, mints, j) ==>
        Balance(end, accounts[j]) >= Balance(start, accounts[j])
    {
      if bitmap.IsSet(i) {
        RecordedByRank(start, accounts, mints, |accounts|, i);
        if Balance(end, accounts[i]) < balances[next] {
          return Err(ReservedBalanceViolation);
        }
        next := next + 1;
      }
    }
    return Ok(());
  }

  // ---------------------------------------------------------------- the route

  /** A venue that takes at most the leg's input, and takes it from the leg's input account only. */
  ghost predicate Compliant(c: Call, venue: VenueCall, tracked: set<Key>)
    requires c.WellFormed()
  {
    forall k: nat, l: Ledger, x: u64, key: Key :: k < |c.swaps| && key in tracked && venue(k, l, x).Some? ==>
      Balance(venue(k, l, x).value, key) + (if key == c.accounts[c.swaps[k].from] then x else 0) >= Balance(l, key)
  }

  ghost function TrackedKeys(start: Ledger, accounts: seq<Key>, mints: nat): set<Key> {
    set i | 0 <= i < |accounts| && Tracked(start, accounts, mints, i) :: accounts[i]
  }

  ghost predicate AboveStart(start: Ledger, l: Ledger, keys: set<Key>) {
    forall key :: key in keys ==> Balance(l, key) >= Balance(start, key)
  }

  /** A leg spends only what lies above the reserve, so a compliant venue cannot reach into it. */
  lemma LegKeepsReserves(c: Call, venue: VenueCall, reserved: seq<u64>, k: nat, index: nat, l: Ledger,
      start: Ledger, keys: set<Key>)
    requires c.WellFormed() && |reserved| == c.mints && k < |c.swaps|
    requires forall i :: 0 <= i < c.mints ==> reserved[i] == Balance(start, c.accounts[i])
    requires Compliant(c, venue, keys) && AboveStart(start, l, keys)
    requires Leg(c, venue, reserved, k, index, l).Ok?
    ensures AboveStart(start, Leg(c, venue, reserved, k, index, l).value, keys)
  {
    var swap := c.swaps[k];
    var from := c.accounts[swap.from];
    var available := SatSub(Balance(l, from), reserved[swap.from]);
    WeightedBelow(available, Min(swap.weightNanos, NANOS));
    var input := LegInput(l, from, reserved[swap.from], swap.weightNanos);
    assert input <= available;
    if input > 0 {
      var after := venue(k, l, input).value;
      forall key | key in keys
        ensures Balance(after, key) >= Balance(start, key)
      {
        assert Balance(after, key) + (if key == from then input else 0) >= Balance(l, key);
      }
    }
  }

  lemma {:induction false} LegsKeepReserves(c: Call, venue: VenueCall, reserved: seq<u64>, k: nat,
      index: nat, l: Ledger, start: Ledger, keys: set<Key>)
    requires c.WellFormed() && |reserved| == c.mints && k <= |c.swaps|
    requires forall i :: 0 <= i < c.mints ==> reserved[i] == Balance(start, c.accounts[i])
    requires Compliant(c, venue, keys) && AboveStart(start, l, keys)
    requires Legs(c, venue, reserved, k, index, l).Ok?
    ensures AboveStart(start, Legs(c, venue, reserved, k, index, l).value, keys)
    decreases |c.swaps| - k
  {
    hide Leg, Compliant, AboveStart;
    if k < |c.swaps| {
      LegKeepsReserves(c, venue, reserved, k, index, l, start, keys);
      LegsKeepReserves(c, venue, reserved, k + 1, index + c.swaps[k].nAccounts,
                       Leg(c, venue, reserved, k, index, l).value, start, keys);
    }
  }

  /** Settlement takes exactly what lies above the reserve of the output account. */
  lemma SettleKeepsReserves(c: Call, reserved: seq<u64>, l: Ledger, credited: u64 -> u64, start: Ledger, keys: set<Key>)
    requires c.WellFormed() && |reserved| == c.mints
    requires reserved[c.OutputIndex()] == Balance(start, c.accounts[c.OutputIndex()])
    requires AboveStart(start, l, keys) && Settle(c, reserved, l, credited).Ok?
    ensures AboveStart(start, Settle(c, reserved, l, credited).value, keys)
    ensures c.accounts[c.OutputIndex()] in keys && c.output != c.accounts[c.OutputIndex()] ==>
      Balance(Settle(c, reserved, l, credited).value, c.accounts[c.OutputIndex()]) == reserved[c.OutputIndex()]
  {
  }

  /** The user receives what was traded, as far as the transfer credits it, and so does nobody else. */
  lemma SettlePaysUser(c: Call, reserved: seq<u64>, l: Ledger, credited: u64 -> u64, key: Key)
    requires c.WellFormed() && |reserved| == c.mints && Settle(c, reserved, l, credited).Ok?
    requires c.output != c.accounts[c.OutputIndex()]
    ensures var (out, end) := (c.accounts[c.OutputIndex()], Settle(c, reserved, l, credited).value);
      var traded := SatSub(Balance(l, out), reserved[c.OutputIndex()]);
      && Balance(end, out) == Min(Balance(l, out), reserved[c.OutputIndex()])
      && Balance(end, c.output) == Balance(l, c.output) + (if traded == 0 then 0 else credited(traded))
      && (key != out && key != c.output ==> Balance(end, key) == Balance(l, key))
  {
  }

  /** The venues are compliant and the user does not pay from a tracked account. */
  ghost predicate Honest(c: Call, venue: VenueCall, start: Ledger)
    requires c.WellFormed()
  {
    var keys := TrackedKeys(start, c.accounts, c.mints);
    Compliant(c, venue, keys) && c.input !in keys
  }

  /** Funding, legs and settlement. */
  function Traded(c: Call, start: Ledger, reserved: seq<u64>, venue: VenueCall, p: Payment,
      credited: u64 -> u64): Result<Ledger>
    requires c.WellFormed() && |reserved| == c.mints
  {
    var funded :- Funded(c, start, p);
    var swapped :- Legs(c, venue, reserved, 0, 2 * c.mints, funded);
    Settle(c, reserved, swapped, credited)
  }

  /** The user's payment takes nothing from tracked accounts. */
  lemma FundingKeepsReserves(c: Call, start: Ledger, p: Payment, keys: set<Key>)
    requires c.accounts != [] && c.input !in keys && Funded(c, start, p).Ok?
    ensures AboveStart(start, Funded(c, start, p).value, keys)
  {
  }

  /** A payment that arrives in full adds its whole amount to the first route account. */
  lemma FundingArrives(c: Call, start: Ledger, p: Payment)
    requires c.accounts != [] && c.input != c.accounts[0] && Funded(c, start, p).Ok?
    requires EffectiveAmount(start, c.input, p) == Ok(p.deposited)
    ensures Balance(Funded(c, start, p).value, c.accounts[0]) == Balance(start, c.accounts[0]) + p.deposited
  {
  }

  /** Paying a given amount takes it from the user, topped up from lamports where native input falls short. */
  lemma FundingSpends(c: Call, start: Ledger, p: Payment)
    requires c.accounts != [] && c.input != c.accounts[0] && p.stored.None? && Funded(c, start, p).Ok?
    ensures p.amount <= Balance(start, c.input) + if c.nativeInput then p.lamports else 0
    ensures Balance(Funded(c, start, p).value, c.input) == SatSub(Balance(start, c.input), p.amount)
    ensures Balance(Funded(c, start, p).value, c.accounts[0])
         == Balance(start, c.accounts[0]) + if p.amount == 0 then 0 else p.deposited
  {
  }

  /** Paying by a stored balance spends the growth over it: that balance is what the user keeps. */
  lemma FundingLeavesStored(c: Call, start: Ledger, p: Payment)
    requires c.accounts != [] && c.input != c.accounts[0] && p.stored.Some? && Funded(c, start, p).Ok?
    ensures Balance(Funded(c, start, p).value, c.input) == p.stored.value < Balance(start, c.input)
    ensures Balance(Funded(c, start, p).value, c.accounts[0]) == Balance(start, c.accounts[0]) + p.deposited
  {
  }

  /** An honest trade ends above every reserve, and at the reserve of the output mint. */
  lemma TradeKeepsReserves(c: Call, start: Ledger, reserved: seq<u64>, venue: VenueCall, p: Payment, credited: u64 -> u64)
    requires c.WellFormed() && |reserved| == c.mints
    requires forall i :: 0 <= i < c.mints ==> reserved[i] == Balance(start, c.accounts[i])
    requires Honest(c, venue, start)
    requires Traded(c, start, reserved, venue, p, credited).Ok?
    ensures var end := Traded(c, start, reserved, venue, p, credited).value;
      var out := c.accounts[c.OutputIndex()];
      && AboveStart(start, end, TrackedKeys(start, c.accounts, c.mints))
      && (c.output != out ==> Balance(end, out) == Balance(start, out))
  {
    hide Legs, Settle, Funded, Compliant, AboveStart;
    var keys := TrackedKeys(start, c.accounts, c.mints);
    FundingKeepsReserves(c, start, p, keys);
    var funded := Funded(c, start, p).value;
    LegsKeepReserves(c, venue, reserved, 0, 2 * c.mints, funded, start, keys);
    var swapped := Legs(c, venue, reserved, 0, 2 * c.mints, funded).value;
    SettleKeepsReserves(c, reserved, swapped, credited, start, keys);
    assert c.accounts[c.OutputIndex()] in keys;
  }

  lemma TradeFailsOtherwise(c: Call, start: Ledger, reserved: seq<u64>, venue: VenueCall, p: Payment, credited: u64 -> u64)
    requires c.WellFormed() && |reserved| == c.mints
    ensures Traded(c, start, reserved, venue, p, credited) != Err(ReservedBalanceViolation)
  {
    hide Legs;
    var funded := Funded(c, start, p);
    if funded.Ok? {
      LegsFailOtherwise(c, venue, reserved, 0, 2 * c.mints, funded.value);
    }
  }

  method Trade(c: Call, start: Ledger, reserved: seq<u64>, venue: VenueCall, p: Payment, credited: u64 -> u64)
    returns (r: Result<Ledger>)
    requires c.WellFormed() && |reserved| == c.mints
    ensures r == Traded(c, start, reserved, venue, p, credited)
  {
    hide Legs, Settle, Funded;
    var funded := Funded(c, start, p);
    if funded.Err? {
      return funded;
    }
    var swapped := RunLegs(c, venue, reserved, funded.value);
    if swapped.Err? {
      return swapped;
    }
    return Settle(c, reserved, swapped.value, credited);
  }

  /** What the route must leave behind in each of its own accounts. */
  function Reserves(start: Ledger, accounts: seq<Key>, mints: nat): (r: seq<u64>)
    requires mints <= |accounts|
    ensures |r| == mints
  {
    seq(mints, i requires 0 <= i < mints => Balance(start, accounts[i]))
  }

  function CreatedFlags(l: Ledger, accounts: seq<Key>, mints: nat): (r: seq<bool>)
    requires mints <= |accounts|
    ensures |r| == mints
  {
    seq(mints, i requires 0 <= i < mints => WasCreated(l, accounts, i))
  }

  ghost predicate AllReadable(start: Ledger, accounts: seq<Key>, mints: nat) {
    forall i :: 0 <= i < |accounts| ==> Readable(start, accounts, mints, i)
  }

  /**
   How a well-formed route ends: it succeeds exactly when all its accounts are readable, the trade does and
   leaves every reserve in place, and then returns the trade's balances with the accounts it created closed.
   */
  ghost predicate EndsAs(c: Call, l: Ledger, venue: VenueCall, p: Payment, credited: u64 -> u64, r: Result<Ledger>)
    requires c.WellFormed()
  {
    var start := Created(l, c.accounts, c.mints);
    var traded := Traded(c, start, Reserves(start, c.accounts, c.mints), venue, p, credited);
    if !AllReadable(start, c.accounts, c.mints) then r == Err(InvalidAccountData)
    else if traded.Err? then r == traded
    else if !ReservesKept(start, traded.value, c.accounts, c.mints) then r == Err(ReservedBalanceViolation)
    else r == Ok(Closed(traded.value, c.accounts, CreatedFlags(l, c.accounts, c.mints), c.mints))
  }

  /** Closing created accounts decides nothing about the reserves. */
  lemma ClosingKeepsReserves(start: Ledger, l: Ledger, accounts: seq<Key>, created: seq<bool>, mints: nat)
    requires |created| == mints <= |accounts|
    ensures ReservesKept(start, Closed(l, accounts, created, mints), accounts, mints)
       <==> ReservesKept(start, l, accounts, mints)
  {
    hide Closed;
    forall i | 0 <= i < |accounts|
      ensures Balance(Closed(l, accounts, created, mints), accounts[i]) == Balance(l, accounts[i])
    {
      ClosingKeepsBalances(l, accounts, created, mints, accounts[i]);
    }
  }

  /** So an honest route ends above its reserves after closing as well. */
  lemma HonestEnd(c: Call, start: Ledger, reserved: seq<u64>, venue: VenueCall, p: Payment, credited: u64 -> u64,
      created: seq<bool>)
    requires c.WellFormed() && |reserved| == |created| == c.mints && Honest(c, venue, start)
    requires forall i :: 0 <= i < c.mints ==> reserved[i] == Balance(start, c.accounts[i])
    requires Traded(c, start, reserved, venue, p, credited).Ok?
    ensures var end := Closed(Traded(c, start, reserved, venue, p, credited).value, c.accounts, created, c.mints);
      var out := c.accounts[c.OutputIndex()];
      && ReservesKept(start, end, c.accounts, c.mints)
      && AboveStart(start, end, TrackedKeys(start, c.accounts, c.mints))
      && (c.output != out ==> Balance(end, out) == Balance(start, out))
  {
    hide Traded, Closed, Honest, TrackedKeys, ReservesKept;
    var traded := Traded(c, start, reserved, venue, p, credited).value;
    var end := Closed(traded, c.accounts, created, c.mints);
    TradeKeepsReserves(c, start, reserved, venue, p, credited);
    forall key: Key
      ensures Balance(end, key) == Balance(traded, key)
    {
      ClosingKeepsBalances(traded, c.accounts, created, c.mints, key);
    }
    AllReservesKept(start, end, c.accounts, c.mints);
  }

  /**
   A whole route, for any venues: exactly when it succeeds and what it returns. Success leaves every tracked
   account below index 256 with at least its starting balance. An honest route cannot fail the reserve
   check, ends with every tracked account above its start, and leaves exactly the reserve of the output mint.
   */
  method Execute(c: Call, l: Ledger, venue: VenueCall, p: Payment, credited: u64 -> u64) returns (r: Result<Ledger>)
    ensures !c.WellFormed() ==> r == Err(c.Rejection())
    ensures c.WellFormed() ==> EndsAs(c, l, venue, p, credited, r)
    ensures r.Ok? ==> c.WellFormed() && ReservesKept(Created(l, c.accounts, c.mints), r.value, c.accounts, c.mints)
    ensures c.WellFormed() && Honest(c, venue, Created(l, c.accounts, c.mints)) ==>
      var start, out := Created(l, c.accounts, c.mints), c.accounts[c.OutputIndex()];
      && r != Err(ReservedBalanceViolation)
      && (r.Ok? ==> AboveStart(start, r.value, TrackedKeys(start, c.accounts, c.mints)))
      && (r.Ok? && c.output != out ==> Balance(r.value, out) == Balance(start, out))
  {
    hide Bit, Traded, Created, Closed, Honest, Recorded, Rank, ReservesKept, Readable, WasCreated, AboveStart,
      TrackedKeys, Tracked, LeftEmpty, Amount;
    if !c.WellFormed() {
      return Err(c.Rejection());
    }
    var start, created := CreateMissing(l, c.accounts, c.mints);
    var recorded, bitmap, reserved, balances := RecordBalances(start, c.accounts, c.mints);
    if recorded.Err? {
      return Err(recorded.error);
    }
    assert reserved == Reserves(start, c.accounts, c.mints) && created == CreatedFlags(l, c.accounts, c.mints);
    var traded := Trade(c, start, reserved, venue, p, credited);
    if traded.Err? {
      TradeFailsOtherwise(c, start, reserved, venue, p, credited);
      return traded;
    }
    var end := CloseCreated(traded.value, c.accounts, created);
    var checked := FinalCheck(start, end, c.accounts, c.mints, bitmap, balances);
    ClosingKeepsReserves(start, traded.value, c.accounts, created, c.mints);
    if Honest(c, venue, start) {
      HonestEnd(c, start, reserved, venue, p, credited, created);
    }
    if checked.Err? {
      return Err(checked.error);
    }
    return Ok(end);
  }

  /** A route ends the same with any venues that agree on the parts its weights call for. */
  lemma RouteSpendsItsWeights(c: Call, l: Ledger, venue: VenueCall, other: VenueCall, p: Payment,
      credited: u64 -> u64, r: Result<Ledger>)
    requires c.WellFormed()
    requires AgreeOnParts(c, venue, other, Reserves(Created(l, c.accounts, c.mints), c.accounts, c.mints))
    ensures EndsAs(c, l, venue, p, credited, r) <==> EndsAs(c, l, other, p, credited, r)
  {
    var start := Created(l, c.accounts, c.mints);
    var reserved := Reserves(start, c.accounts, c.mints);
    hide AgreeOnParts, Legs, Settle, Created, Closed, Reserves;
    if Funded(c, start, p).Ok? {
      LegsSpendTheirWeights(c, venue, other, reserved, 0, 2 * c.mints, Funded(c, start, p).value);
    }
  }

  lemma AllReservesKept(start: Ledger, end: Ledger, accounts: seq<Key>, mints: nat)
    requires AboveStart(start, end, TrackedKeys(start, accounts, mints))
    ensures ReservesKept(start, end, accounts, mints)
  {
    forall i | 0 <= i < |accounts| && i < CAPACITY && Tracked(start, accounts, mints, i)
      ensures Balance(end, accounts[i]) >= Balance(start, accounts[i])
    {
      assert accounts[i] in TrackedKeys(start, accounts, mints);
    }
  }

  /** Legs fail only for malformed legs, unreadable accounts or a failing venue. */
  lemma {:induction false} LegsFailOtherwise(c: Call, venue: VenueCall, reserved: seq<u64>, k: nat, index: nat, l: Ledger)
    requires c.WellFormed() && |reserved| == c.mints && k <= |c.swaps|
    ensures Legs(c, venue, reserved, k, index, l) != Err(ReservedBalanceViolation)
    decreases |c.swaps| - k
  {
    hide LegInput;
    if k < |c.swaps| && Leg(c, venue, reserved, k, index, l).Ok? {
      LegsFailOtherwise(c, venue, reserved, k + 1, index + c.swaps[k].nAccounts,
                        Leg(c, venue, reserved, k, index, l).value);
    }
  }
}
