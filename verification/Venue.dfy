/** A wrapper vault as a trading venue: quotes, their range, and their price tables. */
module Venue {
  import opened Arith
  import opened Outcome
  import opened Fixed
  import Checked
  import opened WrapperShares
  import opened KlendReserve
  import opened KlendQuote
  import KlendCurve
  import KlendRuns
  import opened Bounds
  import opened PriceTable
  import opened MeanValue

  datatype Direction = Deposit | Withdraw

  /** Everything a klend-backed quote reads. */
  datatype Books = Books(reserve: KlendState, clock: Clock, vault: Vault, protocolFeeBps: u16) {
    function Output(dir: Direction, amount: u64): Result<u64> {
      match dir
      case Deposit => QuoteDeposit(reserve, clock, vault, protocolFeeBps, amount)
      case Withdraw => QuoteWithdraw(reserve, clock, vault, amount)
    }
  }

  /** Source errors become an illiquid quote, and so do amounts from half the integer range on. */
  function QuoteWith(books: Books, dir: Direction, parts: seq<Part>, amount: u64): Result<QuoteResult> {
    var price := PriceAt(parts, amount);
    if amount >= U64_MAX / 2 then Ok(QuoteResult(0, 0, true, price))
    else
      match books.Output(dir, amount)
      case Ok(out) => Ok(QuoteResult(amount, out, false, price))
      case Err(_) => Ok(QuoteResult(0, 0, true, price))
  }

  function Sampled(books: Books, dir: Direction): Sampler {
    (x: u64) => match books.Output(dir, x) case Ok(v) => Some(v) case Err(_) => None
  }

  function Quoted(books: Books, dir: Direction, parts: seq<Part>): QuoteFunction {
    (x: u64) => QuoteWith(books, dir, parts, x)
  }

  class OverpassVenue {
    var books: Option<Books>
    var partsDeposit: seq<Part>
    var partsWithdraw: seq<Part>

    constructor ()
      ensures books == None && partsDeposit == [] && partsWithdraw == []
    {
      books, partsDeposit, partsWithdraw := None, [], [];
    }

    function Parts(dir: Direction): seq<Part>
      reads this
    {
      if dir.Deposit? then partsDeposit else partsWithdraw
    }

    function Quote(dir: Direction, amount: u64): Result<QuoteResult>
      requires books.Some?
      reads this
    {
      QuoteWith(books.value, dir, Parts(dir), amount)
    }

    /** Both tables are those of the books' own ranges. */
    ghost predicate Ready()
      reads this
    {
      books.Some? && PricedFrom(partsDeposit, books.value, Deposit) && PricedFrom(partsWithdraw, books.value, Withdraw)
    }

    /** Quotes against new books, finds both ranges, then prices them. */
    method UpdateState(b: Books)
      modifies this
      ensures books == Some(b) && Ready()
    {
      hide QuoteWith, Table, BoundsOf;
      books := Some(b);
      var deposit := VenueBounds(b, Deposit, partsDeposit);
      var withdraw := VenueBounds(b, Withdraw, partsWithdraw);
      partsDeposit := PriceParts(ToOption(deposit), Sampled(b, Deposit));
      partsWithdraw := PriceParts(ToOption(withdraw), Sampled(b, Withdraw));
    }

    /**
     After an update every quote reports a price that is not negative and never rises with the amount, and
     is usable exactly where the books quote something.
     */
    lemma QuotePrices(dir: Direction, x: u64, y: u64)
      requires Ready() && x <= y
      ensures Quote(dir, x).Ok? && Quote(dir, y).Ok?
      ensures 0.0 <= Quote(dir, y).value.price <= Quote(dir, x).value.price
      ensures !Quote(dir, x).value.notEnoughLiquidity && Quote(dir, x).value.expectedOutput != 0
         <==> Live(books.value, dir, x)
    {
      hide PricedFrom, Live;
      QuotedPrices(books.value, dir, Parts(dir), x, y);
      hide QuoteWith;
    }

    /**
     After an update a direction's prices are all positive, or all zero: positive exactly when some two
     neighbouring edges between its bounds quote and the output rises between them, whatever the fees.
     */
    lemma QuotePositive(dir: Direction, x: u64) returns (bounds: Option<(u64, u64)>)
      requires Ready()
      ensures BoundsOf(books.value, dir, bounds)
      ensures Quote(dir, x).Ok?
      ensures Quote(dir, x).value.price > 0.0 <==>
        && bounds.Some? && bounds.value.0 < bounds.value.1
        && exists i: nat :: GainsAt(EdgesTo(bounds.value.1, bounds.value.0), Sampled(books.value, dir), i)
    {
      hide BoundsOf, Sampled, GainsAt, EdgesTo;
      bounds :| Parts(dir) == Table(bounds, Sampled(books.value, dir)) && BoundsOf(books.value, dir, bounds);
      if bounds.Some? && bounds.value.0 < bounds.value.1 {
        PositiveIffSomeGain(Sampled(books.value, dir), bounds.value.0, bounds.value.1, x);
        hide Table, PriceAt;
      } else {
        NoPrice(x);
      }
    }

    /**
     Inside the bounds of an update, gapless quotes are liquid and never fall, their prices are positive
     exactly when the range gains at all, and the documented mean value property holds of them exactly
     when the outputs run straight between the edges and are concave.
     */
    lemma QuoteRange(dir: Direction) returns (bounds: Option<(u64, u64)>)
      requires Ready() && Gapless(books.value, dir)
      ensures BoundsOf(books.value, dir, bounds)
      ensures bounds.Some? ==> var (lb, ub) := bounds.value;
        && lb <= ub && QuotesAll(Sampled(books.value, dir), lb, ub)
        && (forall x: u64 :: lb <= x <= ub ==>
              && Quote(dir, x).Ok? && !Quote(dir, x).value.notEnoughLiquidity
              && Some(Quote(dir, x).value.expectedOutput) == Sampled(books.value, dir)(x)
              && Quote(dir, x).value.price == Price(Sampled(books.value, dir), lb, ub, x)
              && (Quote(dir, x).value.price > 0.0 <==>
                    Quote(dir, lb).value.expectedOutput < Quote(dir, ub).value.expectedOutput))
        && NonDecreasing(Sampled(books.value, dir), lb, ub)
        && (lb < ub ==>
              MeanValueHolds(Sampled(books.value, dir), lb, ub)
                == StraightAndConcave(EdgesTo(ub, lb), Sampled(books.value, dir)))
    {
      hide Table, BoundsOf, MeanValueHolds, StraightAndConcave, Gapless;
      var b := books.value;
      bounds :| Parts(dir) == Table(bounds, Sampled(b, dir)) && BoundsOf(b, dir, bounds);
      if bounds.Some? {
        var (lb, ub) := bounds.value;
        SampledWithin(b, dir, lb, ub);
        forall x: u64 | lb <= x <= ub
          ensures !QuoteWith(b, dir, Parts(dir), x).value.notEnoughLiquidity
          ensures Some(QuoteWith(b, dir, Parts(dir), x).value.expectedOutput) == Sampled(b, dir)(x)
          ensures Price(Sampled(b, dir), lb, ub, x) > 0.0 <==> Sampled(b, dir)(lb).value < Sampled(b, dir)(ub).value
        {
          LiveInside(b, dir, lb, ub, x);
          LiveQuotes(b, dir, Parts(dir), x);
          PositiveIffGains(Sampled(b, dir), lb, ub, x);
        }
        if lb < ub {
          MeanValueIff(Sampled(b, dir), lb, ub);
        }
      }
    }
  }

  /** The parts are the price table over the bounds found for the books. */
  ghost predicate PricedFrom(parts: seq<Part>, books: Books, dir: Direction) {
    hide Table, BoundsOf;
    exists bounds :: parts == Table(bounds, Sampled(books, dir)) && BoundsOf(books, dir, bounds)
  }

  function ToOption<T>(r: Result<T>): Option<T> {
    match r case Ok(v) => Some(v) case Err(_) => None
  }

  /** Amounts the venue quotes with a positive output. */
  predicate Live(books: Books, dir: Direction, x: u64) {
    x < U64_MAX / 2 && books.Output(dir, x).Ok? && books.Output(dir, x).value > 0
  }

  /** Exactly the amounts from `first` to `last` are quoted. */
  ghost predicate LiveRange(books: Books, dir: Direction, first: u64, last: u64) {
    first <= last && forall x: u64 :: Live(books, dir, x) <==> first <= x <= last
  }

  /** Quotes whose net amounts never dip: withdrawals, and deposits with one fee not charged. */
  predicate Gapless(books: Books, dir: Direction) {
    dir.Withdraw? || books.protocolFeeBps == 0 || books.vault.creatorFeeBps == 0
  }

  /** Both bounds sit next to an amount that does not quote, on the grid of the search. */
  ghost predicate Edged(books: Books, dir: Direction, lb: u64, ub: u64) {
    hide LowerEdge, UpperEdge;
    && (exists below: u64 :: LowerEdge(Quoted(books, dir, []), lb, below))
    && (exists above: u64 :: UpperEdge(Quoted(books, dir, []), ub, above))
  }

  /**
   What is known of the bounds: none exactly without a live power of two, else live ends next to amounts
   that are not, and without gaps the live range shrunk to the grid.
   */
  ghost predicate BoundsOf(books: Books, dir: Direction, bounds: Option<(u64, u64)>) {
    hide Live, GridUp, GridDown, Pow;
    match bounds
    case None => forall k :: 0 <= k < 64 ==> Pow(2, k) < U64_LIMIT && !Live(books, dir, Pow(2, k))
    case Some((lb, ub)) =>
      && lb <= ub && Live(books, dir, lb) && Live(books, dir, ub) && Edged(books, dir, lb, ub)
      && (Gapless(books, dir) ==> exists first: u64, last: u64 ::
            LiveRange(books, dir, first, last) && lb == GridUp(first) && ub == GridDown(last))
  }

  lemma UsableIsLive(books: Books, dir: Direction, parts: seq<Part>, x: u64)
    ensures Usable(Quoted(books, dir, parts), x) <==> Live(books, dir, x)
  {
    hide PriceAt, QuoteDeposit, QuoteWithdraw;
  }

  lemma LiveQuotes(books: Books, dir: Direction, parts: seq<Part>, x: u64)
    ensures Live(books, dir, x) ==>
      var q := QuoteWith(books, dir, parts, x).value;
      !q.notEnoughLiquidity && Some(q.expectedOutput) == Sampled(books, dir)(x)
  {
    hide PriceAt, QuoteDeposit, QuoteWithdraw;
  }

  lemma QuotedPrices(books: Books, dir: Direction, parts: seq<Part>, x: u64, y: u64)
    requires PricedFrom(parts, books, dir) && x <= y
    ensures QuoteWith(books, dir, parts, x).Ok? && QuoteWith(books, dir, parts, y).Ok?
    ensures 0.0 <= QuoteWith(books, dir, parts, y).value.price <= QuoteWith(books, dir, parts, x).value.price
    ensures var q := QuoteWith(books, dir, parts, x).value;
      !q.notEnoughLiquidity && q.expectedOutput != 0 <==> Live(books, dir, x)
  {
    UsableIsLive(books, dir, parts, x);
    hide Table, BoundsOf, WellShaped, Live, Books.Output;
    var bounds :| parts == Table(bounds, Sampled(books, dir)) && BoundsOf(books, dir, bounds);
    TableWellShaped(bounds, Sampled(books, dir));
    PriceNonIncreasing(parts, x, y);
    PriceNotNegative(parts, y);
    hide PriceAt;
  }

  lemma NotLiveOutside(books: Books, dir: Direction, x: u64)
    requires x == 0 || x >= TOP
    ensures !Live(books, dir, x)
  {
    hide QuoteDeposit, QuoteWithdraw;
    ZeroNotQuoted(books.reserve, books.clock, books.vault, books.protocolFeeBps);
  }

  /** The least amount with a property, below one that has it. */
  lemma Least(p: u64 -> bool, x: u64) returns (first: u64)
    requires p(x)
    ensures first <= x && p(first) && forall y: u64 :: y < first ==> !p(y)
    decreases x
  {
    if y: u64 :| y < x && p(y) {
      first := Least(p, y);
    } else {
      first := x;
    }
  }

  /** The greatest amount with a property, above one that has it. */
  lemma Greatest(p: u64 -> bool, x: u64) returns (last: u64)
    requires p(x)
    ensures x <= last && p(last) && forall y: u64 :: last < y ==> !p(y)
    decreases U64_MAX - x
  {
    if y: u64 :| x < y && p(y) {
      last := Greatest(p, y);
    } else {
      last := x;
    }
  }

  /** Between two live amounts everything is live, and outputs never fall. */
  lemma LiveBetween(books: Books, dir: Direction, x: u64, y: u64, z: u64)
    requires Gapless(books, dir) && x <= y <= z && Live(books, dir, x) && Live(books, dir, z)
    ensures Live(books, dir, y)
    ensures 0 < books.Output(dir, x).value <= books.Output(dir, y).value <= books.Output(dir, z).value
  {
    hide QuoteWithdraw, QuoteDeposit;
    if dir.Withdraw? {
      WithdrawInterval(books.reserve, books.clock, books.vault, x, y, z);
    } else {
      DepositInterval(books.reserve, books.clock, books.vault, books.protocolFeeBps, x, y, z);
    }
  }

  /** The live amounts of a gapless direction form a range. */
  lemma RangeAround(books: Books, dir: Direction, x: u64) returns (first: u64, last: u64)
    requires Gapless(books, dir) && Live(books, dir, x)
    ensures LiveRange(books, dir, first, last) && first <= x <= last
  {
    hide Live, Gapless;
    var live := (y: u64) => Live(books, dir, y);
    first := Least(live, x);
    last := Greatest(live, x);
    assert forall y: u64 :: live(y) <==> Live(books, dir, y);
    forall y: u64 | first <= y <= last
      ensures Live(books, dir, y)
    {
      LiveBetween(books, dir, first, y, last);
    }
  }

  /** An edge of one table's quotes is an edge of any other's. */
  lemma EdgesCarry(books: Books, dir: Direction, parts: seq<Part>, lb: u64, ub: u64, below: u64, above: u64)
    requires LowerEdge(Quoted(books, dir, parts), lb, below) && UpperEdge(Quoted(books, dir, parts), ub, above)
    ensures LowerEdge(Quoted(books, dir, []), lb, below) && UpperEdge(Quoted(books, dir, []), ub, above)
  {
    hide Quoted, Live, Usable;
    UsableIsLive(books, dir, parts, below);
    UsableIsLive(books, dir, [], below);
    UsableIsLive(books, dir, parts, above);
    UsableIsLive(books, dir, [], above);
  }

  /** The venue's bounds for one direction, whatever prices it currently reports. */
  method VenueBounds(books: Books, dir: Direction, parts: seq<Part>) returns (r: Result<(u64, u64)>)
    ensures BoundsOf(books, dir, ToOption(r))
    ensures r.Err? ==> r.error == NoQuotableValue
  {
    hide Live, Usable, LowerEdge, UpperEdge, Pow, Quoted, Gapless;
    var f := Quoted(books, dir, parts);
    forall x: u64
      ensures Usable(f, x) <==> Live(books, dir, x)
    {
      UsableIsLive(books, dir, parts, x);
    }
    NotLiveOutside(books, dir, 0);
    NotLiveOutside(books, dir, TOP);
    ghost var below, above;
    var probes;
    r, below, above, probes := FindBoundaries(f);
    if r.Ok? {
      EdgesCarry(books, dir, parts, r.value.0, r.value.1, below, above);
      if Gapless(books, dir) {
        ghost var first, last := RangeAround(books, dir, r.value.0);
        assert UsableRange(f, first, last);
        LowerEdgeIsGridUp(f, first, last, r.value.0, below);
        UpperEdgeIsGridDown(f, first, last, r.value.1, above);
      }
    }
  }

  lemma GridNear(first: nat, last: nat)
    requires 0 < first && 0 < last
    ensures first <= GridUp(first) < first + GRID && GridDown(last) <= last < GridDown(last) + GRID
  {
    if first > GRID {
      CeilBounds(first, GRID);
    }
  }

  /**
   Gapless amounts inside the venue's bounds all quote, with an output that never falls; fewer than 64
   atoms beyond either bound nothing quotes at all.
   */
  lemma BoundsSound(books: Books, dir: Direction, lb: u64, ub: u64, x: u64, y: u64)
    requires Gapless(books, dir) && BoundsOf(books, dir, Some((lb, ub)))
    ensures lb <= x <= y <= ub ==>
      && Live(books, dir, x) && Live(books, dir, y)
      && 0 < books.Output(dir, x).value <= books.Output(dir, y).value
    ensures x + GRID <= lb || ub + GRID <= x ==> !Live(books, dir, x)
  {
    hide Live, GridUp, GridDown, Gapless, Edged;
    var first: u64, last: u64 :| LiveRange(books, dir, first, last) && lb == GridUp(first) && ub == GridDown(last);
    NotLiveOutside(books, dir, 0);
    GridNear(first, last);
    if lb <= x <= y <= ub {
      assert Live(books, dir, x) && Live(books, dir, ub);
      LiveBetween(books, dir, x, y, ub);
    }
  }

  /**
   Deposits with both fees inside the venue's bounds: one that does not quote nets one atom less than the
   lower bound or one more than the upper bound, or nothing at all.
   */
  lemma DepositInside(books: Books, lb: u64, ub: u64, x: u64)
    requires BoundsOf(books, Deposit, Some((lb, ub))) && lb <= x <= ub
    ensures var (p, c) := (books.protocolFeeBps, books.vault.creatorFeeBps);
      && (!Live(books, Deposit, x) ==>
            OneAtomOff(Checked.NetAmount(lb, p, c), Checked.NetAmount(x, p, c), Checked.NetAmount(ub, p, c)))
      && (!Live(books, Deposit, x) && p + c <= Checked.FULL_BPS ==> Checked.NetAmount(x, p, c).Ok?)
  {
    hide QuoteDeposit, OneAtomOff, Edged, GridUp, GridDown, Checked.NetAmount;
    DepositNearlyInterval(books.reserve, books.clock, books.vault, books.protocolFeeBps, lb, x, ub);
    DepositPays(books.reserve, books.clock, books.vault, books.protocolFeeBps, x);
  }

  lemma DepositPays(s: KlendState, clock: Clock, v: Vault, feeBps: u16, x: u64)
    ensures QuoteDeposit(s, clock, v, feeBps, x).Ok? ==> QuoteDeposit(s, clock, v, feeBps, x).value > 0
  {
    hide AccrueInterest, TotalSupply, Checked.NetAmount, LiquidityToCollateral, CollateralToLiquidityCeil, SharesFor;
  }

  /** The bounds of a gapless direction are those of its one live range. */
  lemma GridOfBounds(books: Books, dir: Direction, lb: u64, ub: u64, first: u64, last: u64)
    requires Gapless(books, dir) && BoundsOf(books, dir, Some((lb, ub))) && LiveRange(books, dir, first, last)
    ensures lb == GridUp(first) <= ub == GridDown(last)
  {
    hide Live, GridUp, GridDown, Gapless, Edged;
    var a: u64, b: u64 :| LiveRange(books, dir, a, b) && lb == GridUp(a) && ub == GridDown(b);
    assert Live(books, dir, a) && Live(books, dir, b) && Live(books, dir, first) && Live(books, dir, last);
  }

  lemma LiveInside(books: Books, dir: Direction, lb: u64, ub: u64, x: u64)
    requires Gapless(books, dir) && BoundsOf(books, dir, Some((lb, ub))) && lb <= x <= ub
    ensures Live(books, dir, x)
  {
    hide Live, BoundsOf;
    BoundsSound(books, dir, lb, ub, x, x);
  }

  /** So the sampler of the price table answers everywhere between the bounds, and never falls. */
  lemma SampledWithin(books: Books, dir: Direction, lb: u64, ub: u64)
    requires Gapless(books, dir) && BoundsOf(books, dir, Some((lb, ub)))
    ensures lb <= ub && QuotesAll(Sampled(books, dir), lb, ub) && NonDecreasing(Sampled(books, dir), lb, ub)
  {
    hide Books.Output, Gapless, BoundsOf;
    assert lb <= ub by { BoundsOrdered(books, dir, lb, ub); }
    forall x: u64, y: u64 | lb <= x <= y <= ub
      ensures Sampled(books, dir)(x).Some? && Sampled(books, dir)(y).Some?
      ensures Sampled(books, dir)(x).value <= Sampled(books, dir)(y).value
    {
      BoundsSound(books, dir, lb, ub, x, y);
    }
    forall x: u64 | lb <= x <= ub
      ensures Sampled(books, dir)(x).Some?
    {
      BoundsSound(books, dir, lb, ub, x, x);
    }
  }

  lemma BoundsOrdered(books: Books, dir: Direction, lb: u64, ub: u64)
    requires BoundsOf(books, dir, Some((lb, ub)))
    ensures lb <= ub
  {
    hide Live, Edged, GridUp, GridDown, Gapless;
  }

  /** Both amounts quote, and the price at the first covers what the output gains up to the second. */
  ghost predicate GainCovered(quote: Sampler, lb: u64, ub: u64, a: u64, b: u64) {
    && quote(a).Some? && quote(b).Some?
    && (quote(b).value - quote(a).value) as real <= Price(quote, lb, ub, a) * (b - a) as real
  }

  /**
   For gapless quotes every edge of the price table quotes, so between any two of them the output grows
   by at most the reported price times the distance.
   */
  lemma PriceCoversGain(books: Books, dir: Direction, lb: u64, ub: u64, i: nat, j: nat)
    requires Gapless(books, dir) && BoundsOf(books, dir, Some((lb, ub))) && lb < ub
    requires i <= j < |EdgesTo(ub, lb)|
    ensures GainCovered(Sampled(books, dir), lb, ub, EdgesTo(ub, lb)[i], EdgesTo(ub, lb)[j])
  {
    hide Sampled, EdgesTo, PriceAt, Chords, SuffixMaxima, BoundsOf, Gapless;
    SampledWithin(books, dir, lb, ub);
    EdgesQuote(Sampled(books, dir), lb, ub);
    GainWithinPrice(EdgesTo(ub, lb), Sampled(books, dir), i, j);
  }

  // ---------------------------------------------------------------- concrete books

  /** A vault over a reserve whose withdrawals need `shares` collateral for each of `atoms` tokens. */
  function Thin(curve: KlendCurve.Curve, atoms: u64, shares: u64, vault: Vault): Books {
    Books(KlendRuns.SmallWorld(curve, shares, atoms).reserve, KlendRuns.CLOCK, vault, 0)
  }

  lemma ThinPays(curve: KlendCurve.Curve, atoms: u64, shares: u64, v: Vault, x: u64)
    requires atoms > 0 && shares > 0 && v.supply > 0 && v.held > 0
    requires x * v.held < U64_LIMIT
    ensures var paid := Quotient(Quotient(x * v.held, v.supply) * (atoms * ONE), shares * ONE);
      && (Live(Thin(curve, atoms, shares, v), Withdraw, x) <==> 0 < x <= v.supply && x < U64_MAX / 2 && 0 < paid <= atoms)
      && (Live(Thin(curve, atoms, shares, v), Withdraw, x) ==>
            Thin(curve, atoms, shares, v).Output(Withdraw, x) == Ok(paid))
  {
    var s := Thin(curve, atoms, shares, v).reserve;
    KlendRuns.SmallBooks(curve, shares, atoms);
    hide AccrueInterest, TotalSupply, QuoteWithdraw;
    assert s.depositCap.Remaining(KlendRuns.CLOCK.Seconds()) == U64_MAX;
    WithdrawExact(s, KlendRuns.CLOCK, v, x);
    if 0 < x <= v.supply {
      TokensForBounds(x, v);
      DivBounds(x * v.held, v.supply);
      MulMono(1, v.supply, x * v.held + 1);
      DivAtMost(x * v.held, v.supply, x * v.held);
    }
  }

  /** 127 wrapper shares, of which 65 are worth one token: 65 to 127 quote, and the search finds nothing. */
  method MissedVault(curve: KlendCurve.Curve) returns (r: Result<(u64, u64)>)
    ensures LiveRange(Thin(curve, 2, 130, Vault(127, 127, 0)), Withdraw, 65, 127)
    ensures r == Err(NoQuotableValue)
  {
    var books := Thin(curve, 2, 130, Vault(127, 127, 0));
    forall x: u64
      ensures Live(books, Withdraw, x) <==> 65 <= x <= 127
    {
      if x <= 127 {
        ThinPays(curve, 2, 130, Vault(127, 127, 0), x);
      } else {
        NotAboveSupply(books, x);
      }
    }
    hide Live, Thin;
    r := VenueBounds(books, Withdraw, []);
    if r.Ok? {
      GridOfBounds(books, Withdraw, r.value.0, r.value.1, 65, 127);
    }
  }

  /**
   A vault of 10 shares holding 5 collateral at one to one redeems half an atom per share, rounded down.
   Its bounds are 2 and 8, and between them the documented mean value property fails.
   */
  method HalvedVault(curve: KlendCurve.Curve) returns (r: Result<(u64, u64)>)
    ensures r == Ok((2, 8))
    ensures QuotesAll(Sampled(Thin(curve, 5, 5, Vault(10, 5, 0)), Withdraw), 2, 8)
    ensures !MeanValueHolds(Sampled(Thin(curve, 5, 5, Vault(10, 5, 0)), Withdraw), 2, 8)
  {
    var books := Thin(curve, 5, 5, Vault(10, 5, 0));
    HalvedOutputs(curve);
    hide Thin, Live, MeanValueHolds, Sampled;
    r := VenueBounds(books, Withdraw, []);
    SmallPowersOfTwo();
    hide Pow;
    assert Live(books, Withdraw, Pow(2, 1));
    GridOfBounds(books, Withdraw, r.value.0, r.value.1, 2, 10);
    SampledWithin(books, Withdraw, 2, 8);
    NotStraight(Sampled(books, Withdraw));
  }

  lemma HalvedOutputs(curve: KlendCurve.Curve)
    ensures var books := Thin(curve, 5, 5, Vault(10, 5, 0));
      && LiveRange(books, Withdraw, 2, 10)
      && Sampled(books, Withdraw)(2) == Some(1) && Sampled(books, Withdraw)(8) == Some(4)
  {
    var books := Thin(curve, 5, 5, Vault(10, 5, 0));
    forall x: u64
      ensures Live(books, Withdraw, x) <==> 2 <= x <= 10
      ensures Live(books, Withdraw, x) ==> books.Output(Withdraw, x) == Ok(x / 2)
    {
      if x <= 10 {
        ThinPays(curve, 5, 5, Vault(10, 5, 0), x);
      } else {
        NotAboveSupply(books, x);
      }
    }
    assert Live(books, Withdraw, 2) && Live(books, Withdraw, 8);
    hide Live, Thin;
  }

  lemma NotStraight(quote: Sampler)
    requires QuotesAll(quote, 2, 8) && quote(2) == Some(1) && quote(8) == Some(4)
    ensures !MeanValueHolds(quote, 2, 8)
  {
    hide MeanValueHolds;
    MeanValueIff(quote, 2, 8);
    var edges := EdgesTo(8, 2);
    assert edges == [2, 8];
    hide Straight, RisesThroughout, Concave, EdgesTo;
    if StraightAndConcave(edges, quote) {
      assert Straight(edges, quote, 0);
      StraightIsWhole(edges, quote, 0);
    }
  }

  lemma NotAboveSupply(books: Books, x: u64)
    requires x > books.vault.supply
    ensures !Live(books, Withdraw, x)
  {
    hide AccrueInterest, TotalSupply, CollateralToLiquidity, TokensFor, PlanWithdrawAt;
  }
}
