/**
 Machine integers and 60-bit fixed-point fractions (U68F60), represented by their bits.
 Every operation that leaves its width is an error, as in a build that traps on overflow.
 */
module Fixed {
  import opened Arith
  import opened Outcome

  const U16_LIMIT: nat := 0x1_0000
  const U32_LIMIT: nat := 0x1_0000_0000
  const U64_LIMIT: nat := 0x1_0000_0000_0000_0000
  const U64_MAX: nat := U64_LIMIT - 1
  const U128_LIMIT: nat := 0x1_0000_0000_0000_0000_0000_0000_0000_0000
  const U192_LIMIT: nat := 0x1_0000_0000_0000_0000_0000_0000_0000_0000_0000_0000_0000_0000
  const U256_LIMIT: nat :=
    0x1_0000_0000_0000_0000_0000_0000_0000_0000_0000_0000_0000_0000_0000_0000_0000_0000

  type u8 = n: nat | n < 0x100
  type u16 = n: nat | n < U16_LIMIT
  type u32 = n: nat | n < U32_LIMIT
  type u64 = n: nat | n < U64_LIMIT
  type u128 = n: nat | n < U128_LIMIT

  /** One, in 60-bit fixed point. */
  const ONE: nat := 0x1000_0000_0000_0000

  type Fraction = u128

  function FitU64(n: nat): Result<u64> {
    if n < U64_LIMIT then Ok(n) else Err(DoesNotFit)
  }

  function FitU128(n: nat): Result<u128> {
    if n < U128_LIMIT then Ok(n) else Err(Overflow)
  }

  function FitU256(n: nat): Result<nat> {
    if n < U256_LIMIT then Ok(n) else Err(Overflow)
  }

  function FromNum(n: u64): Fraction {
    n * ONE
  }

  function Add(a: Fraction, b: Fraction): Result<Fraction> {
    FitU128(a + b)
  }

  function Sub(a: Fraction, b: Fraction): Result<Fraction> {
    if b <= a then Ok(a - b) else Err(Underflow)
  }

  /** Fixed times fixed. */
  function Mul(a: Fraction, b: Fraction): Result<Fraction> {
    FitU128(a * b / ONE)
  }

  /** Fixed times integer. */
  function Scale(a: Fraction, n: u128): Result<Fraction> {
    FitU128(a * n)
  }

  /** Fixed divided by integer. */
  function DivInt(a: Fraction, n: nat): Fraction
    requires n > 0
  {
    DivAtLeast(a, n, 0);
    MulMono(1, n, a + 1);
    DivAtMost(a, n, a);
    a / n
  }

  /** Fixed divided by fixed. */
  function Div(a: Fraction, b: Fraction): Result<Fraction> {
    if b == 0 then Err(DivideByZero) else FitU128(a * ONE / b)
  }

  function Floor(a: Fraction): u128 {
    a / ONE
  }

  /** Rounding up to a whole number traps when the rounded fraction leaves its width. */
  function Ceil(a: Fraction): Result<u128> {
    var up: Fraction :- FitU128(CeilDiv(a, ONE) * ONE);
    Ok(up / ONE)
  }

  /** Nearest whole number, ties up. */
  function Round(a: nat): nat {
    (a + ONE / 2) / ONE
  }
}
