/** Shared checked arithmetic: basis-point fees and the value-per-share guard. */
module Checked {
  import opened Arith
  import opened Outcome
  import opened Fixed

  const FULL_BPS: nat := 10_000

  function MulBps(amount: u64, bps: u16): Result<u64> {
    FitU64(amount * bps / FULL_BPS)
  }

  /** Refuses a step after which one share stands for less than before. */
  function RequireNoValuePerShareLoss(
    oldValue: u128, oldSupply: u64, newValue: u128, newSupply: u64
  ): Result<()> {
    if oldSupply == 0 || newSupply == 0 then Ok(())
    else Require(newValue * oldSupply >= oldValue * newSupply, ValuePerShareLoss)
  }

  /** What reaches the source after the two floored deposit fees. */
  function NetAmount(amount: u64, protocolBps: u16, creatorBps: u16): Result<u64> {
    var protocolFee :- MulBps(amount, protocolBps);
    var creatorFee :- MulBps(amount, creatorBps);
    if protocolFee + creatorFee <= amount then Ok(amount - protocolFee - creatorFee)
    else Err(Error.NetAmount)
  }

  /** Minting rounded down leaves the guard nothing to object to. */
  lemma MintPassesGuard(value: u128, supply: u64, added: nat, newValue: u128, minted: nat, newSupply: u64)
    requires newValue == value + added && newSupply == supply + minted
    requires minted * value <= added * supply
    ensures RequireNoValuePerShareLoss(value, supply, newValue, newSupply).Ok?
  {
    assert newValue * supply == value * supply + added * supply;
    assert value * newSupply == value * supply + minted * value;
  }

  /** Paying out rounded down leaves the guard nothing to object to. */
  lemma BurnPassesGuard(value: u128, supply: u64, paid: nat, newValue: u128, burned: nat, newSupply: u64)
    requires paid <= value && newValue == value - paid
    requires burned <= supply && newSupply == supply - burned
    requires paid * supply <= burned * value
    ensures RequireNoValuePerShareLoss(value, supply, newValue, newSupply).Ok?
  {
    assert newValue * supply == value * supply - paid * supply;
    assert value * newSupply == value * supply - burned * value;
  }

  lemma NetWithinAmount(amount: u64, p: u16, c: u16)
    ensures NetAmount(amount, p, c).Ok? ==> NetAmount(amount, p, c).value <= amount
  {
    MulMono(0, amount, p);
    MulMono(0, amount, c);
    DivAtLeast(amount * p, FULL_BPS, 0);
    DivAtLeast(amount * c, FULL_BPS, 0);
  }

  /** With fee rates of at most 100% together the fees always fit inside the amount. */
  lemma NetAmountSucceeds(amount: u64, p: u16, c: u16)
    requires p + c <= FULL_BPS
    ensures NetAmount(amount, p, c)
         == Ok(amount - amount * p / FULL_BPS - amount * c / FULL_BPS)
  {
    DivBounds(amount * p, FULL_BPS);
    DivBounds(amount * c, FULL_BPS);
    assert amount * p + amount * c == amount * (p + c);
    MulMono(p + c, FULL_BPS, amount);
    MulMono(p, FULL_BPS, amount);
    MulMono(c, FULL_BPS, amount);
    DivAtMost(amount * p, FULL_BPS, amount);
    DivAtMost(amount * c, FULL_BPS, amount);
  }

  /** Fees of 100% or more together leave at most one atom, and alone they leave nothing. */
  lemma NetWhenFeesTakeAll(x: u64, p: u16, c: u16, n: u64)
    requires p + c >= FULL_BPS && NetAmount(x, p, c) == Ok(n)
    ensures n <= 1 && (p == 0 || c == 0 ==> n == 0)
  {
    DivBounds(x * p, FULL_BPS);
    DivBounds(x * c, FULL_BPS);
    assert x * p + x * c == x * (p + c);
    MulMono(FULL_BPS, p + c, x);
  }

  /** With fees above 100% together nothing is left of 10000 atoms or more. */
  lemma NothingLeft(x: u64, p: u16, c: u16, n: u64)
    requires p + c > FULL_BPS && x >= FULL_BPS && NetAmount(x, p, c) == Ok(n)
    ensures n == 0
  {
    DivBounds(x * p, FULL_BPS);
    DivBounds(x * c, FULL_BPS);
    assert x * p + x * c == x * (p + c);
    MulMono(FULL_BPS + 1, p + c, x);
  }

  /**
   A larger deposit never nets less by more than one atom, and with either rate zero never nets
   less at all. The single atom is real: see NetMonotoneIff.
   */
  lemma NetAmountNearlyMonotone(x: u64, y: u64, p: u16, c: u16, nx: u64, ny: u64)
    requires x <= y && NetAmount(x, p, c) == Ok(nx) && NetAmount(y, p, c) == Ok(ny)
    ensures nx <= ny + 1
    ensures p == 0 || c == 0 ==> nx <= ny
  {
    if p + c >= FULL_BPS {
      NetWhenFeesTakeAll(x, p, c, nx);
    } else {
      NetAmountSucceeds(x, p, c);
      NetAmountSucceeds(y, p, c);
      var d := y - x;
      assert y * p == x * p + d * p && y * c == x * c + d * c;
      DivBounds(x * p, FULL_BPS);
      DivBounds(x * c, FULL_BPS);
      DivBounds(y * p, FULL_BPS);
      DivBounds(y * c, FULL_BPS);
      assert d * p + d * c == d * (p + c);
      MulMono(p + c, FULL_BPS, d);
    }
  }

  /** No deposit nets more than a larger one does. */
  ghost predicate NetMonotone(p: u16, c: u16) {
    forall x: u64, y: u64 :: x <= y && NetAmount(x, p, c).Ok? && NetAmount(y, p, c).Ok? ==>
      NetAmount(x, p, c).value <= NetAmount(y, p, c).value
  }

  /** Two positive rates dip at the first multiple of 10000 atoms, where both fees step up at once. */
  lemma NetDip(p: u16, c: u16)
    requires 0 < p && 0 < c && p + c <= FULL_BPS
    ensures NetAmount(9_999, p, c) == Ok(10_001 - p - c) && NetAmount(10_000, p, c) == Ok(10_000 - p - c)
  {
    NetAmountSucceeds(9_999, p, c);
    NetAmountSucceeds(10_000, p, c);
  }

  /** Two positive fees of exactly 100% together take 10000 atoms whole, but leave one of 9999 and of 10001. */
  lemma NetAtFull(p: u16, c: u16)
    requires 0 < p && 0 < c && p + c == FULL_BPS
    ensures NetAmount(9_999, p, c) == NetAmount(10_001, p, c) == Ok(1) && NetAmount(10_000, p, c) == Ok(0)
  {
    NetDip(p, c);
    NetAmountSucceeds(10_001, p, c);
  }

  /** Two fees of 50 basis points: 199 atoms net 199 and 200 atoms net 198. */
  lemma OneAtomDip()
    ensures NetAmount(199, 50, 50) == Ok(199) && NetAmount(200, 50, 50) == Ok(198)
  {
  }

  /** Net amounts are monotone exactly when one of the two fees is not charged. */
  lemma NetMonotoneIff(p: u16, c: u16)
    requires p + c <= FULL_BPS
    ensures NetMonotone(p, c) <==> p == 0 || c == 0
  {
    if p == 0 || c == 0 {
      forall x: u64, y: u64 | x <= y && NetAmount(x, p, c).Ok? && NetAmount(y, p, c).Ok?
        ensures NetAmount(x, p, c).value <= NetAmount(y, p, c).value
      {
        NetAmountNearlyMonotone(x, y, p, c, NetAmount(x, p, c).value, NetAmount(y, p, c).value);
      }
    } else {
      NetDip(p, c);
    }
  }
}
