/** A wrapper vault's own shares against the intermediate tokens it holds. */
module WrapperShares {
  import opened Arith
  import opened Outcome
  import opened Fixed

  datatype Vault = Vault(supply: u64, held: u128, creatorFeeBps: u16)

  /** Wrapper shares for `added` intermediate tokens, rounded down. */
  function SharesFor(added: u64, v: Vault, first: u64): Result<u64> {
    if v.supply == 0 then Ok(first)
    else if v.held == 0 then Err(OutOfSync)
    else
      var product :- FitU128(added * v.supply);
      FitU64(Quotient(product, v.held))
  }

  /** Intermediate tokens behind `amount` wrapper shares, rounded down. */
  function TokensFor(amount: u64, v: Vault): Result<u64> {
    var product :- FitU128(amount * v.held);
    if v.supply == 0 then Err(DivideByZero) else FitU64(Quotient(product, v.supply))
  }

  lemma SharesForBounds(added: u64, v: Vault, first: u64)
    requires v.supply > 0 && v.held > 0
    ensures 0 <= added * v.supply / v.held
    ensures SharesFor(added, v, first) == FitU64(added * v.supply / v.held)
    ensures added * v.supply / v.held * v.held <= added * v.supply
  {
    MulBelowLimits(added, v.supply, U64_LIMIT, U64_LIMIT);
    MulMono(0, added, v.supply);
    DivBounds(added * v.supply, v.held);
    DivAtLeast(added * v.supply, v.held, 0);
  }

  lemma TokensForBounds(amount: u64, v: Vault)
    requires 0 < v.supply && amount <= v.supply
    ensures amount * v.held / v.supply * v.supply <= amount * v.held
    ensures 0 <= amount * v.held / v.supply <= v.held
    ensures TokensFor(amount, v)
         == if amount * v.held < U128_LIMIT then FitU64(amount * v.held / v.supply) else Err(Overflow)
  {
    MulMono(0, amount, v.held);
    MulMono(amount, v.supply, v.held);
    DivBounds(amount * v.held, v.supply);
    DivAtLeast(amount * v.held, v.supply, 0);
    DivAtMost(amount * v.held, v.supply, v.held);
  }

  /** Burning shares and tokens together empties both sides or neither. */
  lemma BurnTogether(v: Vault, a: nat, c: nat)
    requires 0 < a <= v.supply && 0 < v.held && c == a * v.held / v.supply
    ensures a == v.supply <==> c == v.held
    ensures (v.held - c) * v.supply >= v.held * (v.supply - a)
  {
    DivBounds(a * v.held, v.supply);
    assert (v.held - c) * v.supply == v.held * v.supply - c * v.supply;
    assert v.held * (v.supply - a) == v.held * v.supply - a * v.held;
    if a == v.supply {
      DivOfMultiple(v.held, v.supply);
    } else if c == v.held {
      MulCancel(v.supply, a, v.held);
    }
  }

  /** Shares minted with a floor give back at most the tokens that paid for them. */
  lemma SharesGiveBackAtMost(v: Vault, c: nat, m: nat)
    requires m * v.held <= c * v.supply && v.supply + m > 0
    ensures m * (v.held + c) / (v.supply + m) <= c
  {
    assert m * (v.held + c) == m * v.held + m * c;
    assert c * (v.supply + m) == c * v.supply + m * c;
    DivBounds(c * (v.supply + m), v.supply + m);
    DivOfMultiple(c, v.supply + m);
    DivMono(m * (v.held + c), c * (v.supply + m), v.supply + m);
  }
}
