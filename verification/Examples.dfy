/** Quotes and accruals worked out to the atom. */
module Examples {
  import opened Arith
  import opened Outcome
  import opened Fixed
  import Checked
  import opened WrapperShares
  import KlendCurve
  import KlendCompound
  import KlendReserve
  import KvaultQuote
  import Wad
  import Save
  import Marginfi
  import Lulo
  import Router

  /** 100% a year in ten periods, five of them passed. */
  lemma KlendGrowth()
    ensures KlendCompound.Compound(ONE, 5, 10) == Ok(1_856_203_622_417_023_626)
  {
    assert KlendCompound.PerUnit(ONE, 10) == 115_292_150_460_684_697;
    var b: Fraction := 115_292_150_460_684_697;
    assert KlendCompound.NextTerm(b * 5, b, 4, 2) == Ok(115_292_150_460_684_696);
    assert KlendCompound.NextTerm(115_292_150_460_684_696, b, 3, 3) == Ok(11_529_215_046_068_469);
  }

  /** A second at 100% on 1000 borrowed atoms beside 1000 available ones, a tenth of it for the protocol. */
  lemma KlendAccrual()
    ensures KlendReserve.AccrueInterest(KlendBank(), KlendReserve.Clock(1, 2))
         == Ok(KlendReserve.Accrued(1_152_921_541_165_748_060_000, 3_655_890_108_399, 0, 0))
  {
    KlendBooks();
    KlendSplit();
    FlatRate();
    hide KlendReserve.TotalSupply, KlendReserve.Utilization, KlendReserve.SplitGrowth, KlendCurve.BorrowRate,
      KlendCompound.Compound, FlatCurve;
  }

  lemma KlendBooks()
    ensures var s := KlendBank();
      && KlendReserve.TotalSupply(s, KlendReserve.Current(s)) == Ok(2000 * ONE)
      && KlendReserve.Utilization(1000 * ONE, 2000 * ONE) == Ok(ONE / 2)
      && KlendCompound.Compound(ONE, 1, 31_536_000) == Ok(ONE + 36_558_901_084)
      && KlendCompound.Compound(0, 1, 31_536_000) == Ok(ONE)
  {
    assert KlendCompound.PerUnit(ONE, 31_536_000) == 36_558_901_084 && KlendCompound.PerUnit(0, 31_536_000) == 0;
    hide FlatCurve;
  }

  lemma KlendSplit()
    ensures KlendReserve.SplitGrowth(KlendBank(), ONE + 36_558_901_084, ONE)
         == Ok(KlendReserve.Accrued(1_152_921_541_165_748_060_000, 3_655_890_108_399, 0, 0))
  {
    assert Mul(1000 * ONE, ONE + 36_558_901_084) == Ok(1_152_921_541_165_748_060_000);
    assert Mul(1000 * ONE, ONE) == Ok(1000 * ONE);
    assert Mul(36_558_901_084_000, KlendReserve.PercentToFraction(10)) == Ok(3_655_890_108_399);
    hide FlatCurve;
  }

  function FlatCurve(): KlendCurve.Curve {
    seq(KlendCurve.POINTS_IN_CURVE, i => KlendCurve.CurvePoint(if i == 0 then 0 else 10_000, 10_000))
  }

  lemma FlatRate()
    ensures KlendCurve.BorrowRate(FlatCurve(), ONE / 2) == ONE
  {
    assert KlendCurve.UtilBps(ONE / 2) == 5_000;
    assert FlatCurve()[0] == KlendCurve.CurvePoint(0, 10_000) && FlatCurve()[1] == KlendCurve.CurvePoint(10_000, 10_000);
    assert KlendCurve.BorrowRate(FlatCurve(), ONE / 2) == KlendCurve.RateFrom(FlatCurve(), 1, ONE / 2);
    assert KlendCurve.OnSegment(FlatCurve()[0], FlatCurve()[1], ONE / 2) == ONE;
  }

  function KlendBank(): KlendReserve.KlendState {
    KlendReserve.KlendState(1, 1, 1, 1000, 1000 * ONE, 0, 0, 0, 1000, 0, false, false, 0, 10, 1, FlatCurve(), 10_000,
                            KlendReserve.WithdrawalCaps(0, 0, 0, 0), 0)
  }

  /** A cap of 100 with 80 spent leaves 20 within the interval and 100 after it. */
  lemma KlendCap()
    ensures var caps := KlendReserve.WithdrawalCaps(100, 80, 0, 1000);
      caps.Remaining(10) == 20 && caps.Remaining(1000) == 100
  {
  }

  /** A reserve of 100 atoms behind 50 collateral shares: 10 atoms buy 5 of them, and 10 wrapper shares pay 20 atoms. */
  lemma SaveQuotes()
    ensures var s := SaveReserve(100, 50);
      Save.QuoteDeposit(s, 7, Vault(100, 100, 0), 0, 10) == Ok(5)
      && Save.QuoteWithdraw(s, 7, Vault(50, 50, 0), 10) == Ok(20)
  {
    var s := SaveReserve(100, 50);
    assert Save.CurrentRate(s, 7) == Ok(Wad.WAD / 2);
    assert Save.AccrueInterest(s, 7) == Ok(Save.Accrued(0, 0));
    assert Save.LiquidityToCollateral(10, Wad.WAD / 2) == Ok(5);
    assert Save.CollateralToLiquidity(10, Wad.WAD / 2) == Ok(20);
    assert Checked.NetAmount(10, 0, 0) == Ok(10);
    assert SharesFor(5, Vault(100, 100, 0), 10) == Ok(5) && TokensFor(10, Vault(50, 50, 0)) == Ok(10);
  }

  function SaveReserve(available: u64, collateral: u64): Save.SaveState {
    Save.SaveState(7, available, 0, 0, collateral, 80, 90, 0, 10, 20, 30, 10, U64_MAX)
  }

  /** A slot at 10%, half way up to the optimal utilization, a tenth of it for the protocol. */
  lemma SaveAccrual()
    ensures Save.AccrueInterest(SaveReserve(100, 50).(borrowed := 100 * Wad.WAD, optimalUtilization := 100,
                                                      maxUtilization := 100, optimalRate := 20), 8)
         == Ok(Save.Accrued(100_000_000_158_548_959_900, 15_854_895_990))
  {
    var s := SaveReserve(100, 50).(borrowed := 100 * Wad.WAD, optimalUtilization := 100, maxUtilization := 100,
                                   optimalRate := 20);
    assert Save.Utilization(s) == Ok(Wad.WAD / 2);
    assert Save.RateBetween(0, 20 * Wad.PERCENT, Wad.WAD / 2, Wad.WAD) == Ok(10 * Wad.PERCENT);
    assert Save.BorrowRate(s) == Ok(10 * Wad.PERCENT);
    assert Wad.WadPow(Wad.WAD + 1_585_489_599, 1) == Ok(Wad.WAD + 1_585_489_599);
    assert Wad.WadMul(100 * Wad.WAD, Wad.WAD + 1_585_489_599) == Ok(100_000_000_158_548_959_900);
    hide Save.BorrowRate, Wad.WadPow;
  }

  /** Half of everything lent out for a year at 20%. */
  lemma MarginfiAccrual()
    ensures Marginfi.AccrueShareValues(MarginfiBank(), 31_536_001)
         == Ok(Marginfi.ShareValues(295_272_769_686_668, 309_070_562_662_681))
  {
    var b, half := MarginfiBank(), Marginfi.ONE48 / 2;
    assert Marginfi.Mul48(b.totalAssetShares, b.assetShareValue) == Ok(100 * Marginfi.ONE48);
    assert Marginfi.Mul48(b.totalLiabilityShares, b.liabilityShareValue) == Ok(50 * Marginfi.ONE48);
    assert Marginfi.Div48(50 * Marginfi.ONE48, 100 * Marginfi.ONE48) == Ok(half);
    MarginfiRate();
    assert Marginfi.RatesFrom(27_595_585_952_025, half, 0, 0)
        == Ok(Marginfi.Rates(13_797_792_976_012, 27_595_585_952_025));
    YearAtRate(13_797_792_976_012);
    YearAtRate(27_595_585_952_025);
    hide Marginfi.Mul48, Marginfi.Div48, Marginfi.RatesFrom, Marginfi.RateCurve.RateAt, Marginfi.Accrued;
  }

  lemma MarginfiRate()
    ensures MarginfiBank().curve.RateAt(Marginfi.ONE48 / 2) == Ok(27_595_585_952_025)
  {
    var curve := MarginfiBank().curve;
    assert curve.Start() == Marginfi.Knot(0, 0) && curve.End() == Marginfi.Knot(Marginfi.ONE48, 55_191_171_904_050);
    assert Marginfi.Lerp(curve.Start(), curve.End(), Marginfi.ONE48 / 2) == Ok(27_595_585_952_025);
  }

  /** Over a whole year a share value of one grows by the yearly rate. */
  lemma YearAtRate(apr: Marginfi.fixed48)
    requires apr < Marginfi.ONE48
    ensures Marginfi.Accrued(apr, 31_536_000, Marginfi.ONE48) == Ok(Marginfi.ONE48 + apr)
  {
    YearsGrowth(apr);
    hide Marginfi.Growth;
    DivOfMultiple(Marginfi.ONE48 + apr, Marginfi.ONE48);
  }

  lemma YearsGrowth(apr: Marginfi.fixed48)
    requires apr < Marginfi.ONE48
    ensures Marginfi.Growth(apr, 31_536_000) == Ok(Marginfi.ONE48 + apr)
  {
    var year := Marginfi.FromNum48(31_536_000);
    assert apr * year == apr * 31_536_000 * Marginfi.ONE48 && apr * 31_536_000 * Marginfi.ONE48 == apr * year;
    DivOfMultiple(apr * 31_536_000, Marginfi.ONE48);
    DivOfMultiple(apr, year);
  }

  function MarginfiBank(): Marginfi.Bank {
    Marginfi.Bank(true, false, false, Marginfi.ONE48, Marginfi.ONE48, 100 * Marginfi.ONE48, 50 * Marginfi.ONE48, 0, 0,
                  Marginfi.RateCurve(0, [], 84_215_045), 1, 0, 0)
  }

  /** Ten atoms into a vault of 50 at par mint ten shares. */
  lemma LuloEntry()
    ensures Lulo.QuoteDeposit(Lulo.LuloState(false, 1000, 100, 100, ONE, ONE, 0), Lulo.LuloVault(50, 50, 0, 0), 0, 10)
         == Ok(10)
  {
    var s, v := Lulo.LuloState(false, 1000, 100, 100, ONE, ONE, 0), Lulo.LuloVault(50, 50, 0, 0);
    assert Lulo.PositionFee(s, 50, 50) == Ok(0) && Lulo.PositionFee(s, 60, 50) == Ok(0) == Lulo.PositionFee(s, 60, 60);
    assert Lulo.PositionValue(s, 50) == Ok(50) && Lulo.PositionValue(s, 60) == Ok(60);
    assert Checked.NetAmount(10, 0, 0) == Ok(10);
    hide Lulo.PositionFee, Lulo.PositionValue, Checked.NetAmount;
    assert Lulo.PositionAfter(s, v, 10) == Ok(60);
    assert Lulo.PredictedValue(s, v, 50, 10) == Ok(60);
  }

  /** Of 1000 idle atoms behind 100 shares, 10 shares receive 98. */
  lemma LuloExit()
    ensures Lulo.QuoteWithdraw(Lulo.LuloState(false, 0, 100, 100, 0, 0, 0), Lulo.LuloVault(100, 0, 1000, 0), 10) == Ok(98)
  {
  }

  /** Of 500 due, 100 are idle and 400 come out of a reserve at par. */
  lemma KvaultPayment()
    ensures KvaultQuote.PayFrom(100, Ok((1000, 1000, 1000 * ONE)), 500) == Ok(500)
  {
  }

  /** Half the weight of 1200 over a reserve of 200 is 500. */
  lemma RouteLeg()
    ensures Router.LegInput(map[7 := Router.Account(true, true, Some(1200))], 7, 200, 500_000_000) == 500
  {
  }
}
