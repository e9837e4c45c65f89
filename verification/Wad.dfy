/** Decimal fixed point with 18 places. */
module Wad {
  import opened Arith
  import opened Outcome
  import opened Fixed

  const WAD: nat := 1_000_000_000_000_000_000

  /** A hundredth of WAD. */
  const PERCENT: nat := 10_000_000_000_000_000

  function FromU64(n: u64): u128 {
    n * WAD
  }

  function FromPercent(pct: u8): u128 {
    pct * PERCENT
  }

  /** The whole part, cut to 64 bits without a check. */
  function ToFloorU64(w: u128): u64 {
    w / WAD % U64_LIMIT
  }

  function WadMul(a: u128, b: u128): Result<u128> {
    FitU128(Quotient(a * b, WAD))
  }

  function WadDiv(a: u128, b: u128): Result<u128> {
    if b == 0 then Err(DivideByZero) else FitU128(Quotient(a * WAD, b))
  }

  function SatAdd(a: u128, b: nat): u128 {
    Min(a + b, U128_LIMIT - 1)
  }

  /** Square and multiply from the second bit on: `r` already holds bit 0 of `e`, `b` its power. */
  function PowFrom(b: u128, r: u128, e: nat): Result<u128>
    decreases e
  {
    hide WadMul;
    if e / 2 == 0 then Ok(r)
    else
      var square :- WadMul(b, b);
      var next :- if e / 2 % 2 == 1 then WadMul(r, square) else Ok(r);
      PowFrom(square, next, e / 2)
  }

  function WadPow(base: u128, exponent: nat): Result<u128> {
    PowFrom(base, if exponent % 2 == 1 then base else WAD, exponent)
  }

  method ComputeWadPow(base: u128, exponent: u64) returns (r: Result<u128>)
    ensures r == WadPow(base, exponent)
  {
    hide WadMul;
    var b: u128, e: u64 := base, exponent;
    var ret: u128 := if e % 2 == 1 then b else WAD;
    while true
      invariant PowFrom(b, ret, e) == WadPow(base, exponent)
      decreases e
    {
      var half := e / 2;
      if half == 0 {
        return Ok(ret);
      }
      var square := WadMul(b, b);
      if square.Err? {
        return Err(square.error);
      }
      if half % 2 == 1 {
        var product := WadMul(ret, square.value);
        if product.Err? {
          return Err(product.error);
        }
        b, ret, e := square.value, product.value, half;
      } else {
        b, e := square.value, half;
      }
    }
  }

  // ---------------------------------------------------------------- one multiplication

  lemma WadMulMono(a: u128, b: u128, c: u128, d: u128)
    requires a <= c && b <= d && WadMul(c, d).Ok?
    ensures WadMul(a, b).Ok? && WadMul(a, b).value <= WadMul(c, d).value
  {
    MulMono(a, c, b);
    MulMono(b, d, c);
    QuotientMono(a * b, c * d, WAD);
  }

  /** Multiplying by at least one unit adds at least the excess. */
  lemma WadMulGrows(a: u128, b: u128)
    requires a >= WAD && b >= WAD && WadMul(a, b).Ok?
    ensures WadMul(a, b).value >= a + (b - WAD)
  {
    MulMono(WAD, a, b - WAD);
    assert a * b == a * WAD + a * (b - WAD);
    DivAtLeast(a * b, WAD, a + b - WAD);
  }

  lemma WadMulBelow(a: u128, b: u128)
    requires WadMul(a, b).Ok?
    ensures WadMul(a, b).value * WAD <= a * b
  {
    DivBounds(a * b, WAD);
  }

  lemma WadMulUnit(b: u128)
    ensures WadMul(WAD, b) == Ok(b)
  {
    DivOfMultiple(b, WAD);
  }

  // ---------------------------------------------------------------- at least simple growth

  lemma {:induction false} PowFromAtLeast(b: u128, r: u128, e: nat)
    requires b >= WAD && r >= WAD && PowFrom(b, r, e).Ok?
    ensures PowFrom(b, r, e).value >= r + (e - e % 2) * (b - WAD)
    decreases e
  {
    hide WadMul;
    var h := e / 2;
    if h > 0 {
      var square := WadMul(b, b).value;
      WadMulGrows(b, b);
      var next: u128 := if h % 2 == 1 then WadMul(r, square).value else r;
      if h % 2 == 1 {
        WadMulGrows(r, square);
      }
      PowFromAtLeast(square, next, h);
      GrowthAdds(PowFrom(b, r, e).value, r, next, square - WAD, b - WAD, h, e);
    } else {
      assert e - e % 2 == 0;
    }
  }

  lemma GrowthAdds(v: nat, r: nat, next: nat, d2: nat, d: nat, h: nat, e: nat)
    requires h == e / 2 && d2 >= 2 * d
    requires v >= next + (h - h % 2) * d2 && next >= r + h % 2 * d2
    ensures v >= r + (e - e % 2) * d
  {
    assert (h - h % 2) * d2 + h % 2 * d2 == h * d2;
    MulMono(2 * d, d2, h);
    assert h * (2 * d) == 2 * h * d;
    assert e - e % 2 == 2 * h;
  }

  /** Compounding in wads earns at least simple growth, for any exponent. */
  lemma WadPowAtLeastSimple(base: u128, n: nat)
    requires base >= WAD && WadPow(base, n).Ok?
    ensures WadPow(base, n).value >= WAD + n * (base - WAD)
  {
    PowFromAtLeast(base, if n % 2 == 1 then base else WAD, n);
    var d := base - WAD;
    assert (n - n % 2) * d + n % 2 * d == n * d;
  }

  // ---------------------------------------------------------------- at most the exact power

  lemma {:induction false} PowFromAtMost(b: u128, r: u128, e: nat)
    requires PowFrom(b, r, e).Ok?
    ensures PowFrom(b, r, e).value * Pow(WAD, e - e % 2) <= r * Pow(b, e - e % 2)
    decreases e
  {
    var h := e / 2;
    if h == 0 {
      assert e - e % 2 == 0;
    } else {
      hide WadMul, Pow;
      var square := WadMul(b, b).value;
      WadMulBelow(b, b);
      var next: u128 := if h % 2 == 1 then WadMul(r, square).value else r;
      if h % 2 == 1 {
        WadMulBelow(r, square);
      }
      PowFromAtMost(square, next, h);
      FoldBit(PowFrom(b, r, e).value, r, next, square, h);
      SquareOut(PowFrom(b, r, e).value, r, square, b, h);
      assert e - e % 2 == 2 * h;
    }
  }

  /** A truncated square in every factor, against the exact square. */
  lemma SquareOut(v: nat, r: nat, square: nat, b: nat, h: nat)
    requires v * Pow(WAD, h) <= r * Pow(square, h) && square * WAD <= b * b
    ensures v * Pow(WAD, 2 * h) <= r * Pow(b, 2 * h)
  {
    hide Pow;
    PowMono(square * WAD, b * b, h);
    PowOfProduct(square, WAD, h);
    PowOfSquare(b, h);
    PowOfSquare(WAD, h);
    PowOfProduct(WAD, WAD, h);
    FoldSquare(v, r, Pow(WAD, h), Pow(square, h), Pow(b, 2 * h), Pow(WAD, 2 * h));
  }

  /** Bit 0 of `h` folded into the product. */
  lemma FoldBit(v: nat, r: nat, next: nat, square: nat, h: nat)
    requires v * Pow(WAD, h - h % 2) <= next * Pow(square, h - h % 2)
    requires h % 2 == 1 ==> next * WAD <= r * square
    requires h % 2 == 0 ==> next == r
    ensures v * Pow(WAD, h) <= r * Pow(square, h)
  {
    if h % 2 == 1 {
      assert Pow(WAD, h) == WAD * Pow(WAD, h - 1) && Pow(square, h) == square * Pow(square, h - 1);
      hide Pow;
      FoldFactor(v, r, next, square, WAD, Pow(WAD, h - 1), Pow(square, h - 1));
    }
  }

  lemma FoldFactor(v: nat, r: nat, next: nat, square: nat, w: nat, p: nat, q: nat)
    requires v * p <= next * q && next * w <= r * square
    ensures v * (w * p) <= r * (square * q)
  {
    MulMono(v * p, next * q, w);
    MulMono(next * w, r * square, q);
    assert v * (w * p) == v * p * w;
    assert next * q * w == next * w * q;
    assert r * square * q == r * (square * q);
  }

  lemma FoldSquare(v: nat, r: nat, wh: nat, sh: nat, b2h: nat, w2h: nat)
    requires v * wh <= r * sh && sh * wh <= b2h && w2h == wh * wh
    ensures v * w2h <= r * b2h
  {
    MulMono(v * wh, r * sh, wh);
    MulMono(sh * wh, b2h, r);
    assert v * (wh * wh) == v * wh * wh;
    assert r * sh * wh == r * (sh * wh);
  }

  /** Compounding in wads never exceeds the exact power, stated without division. */
  lemma WadPowAtMostExact(base: u128, n: nat)
    requires WadPow(base, n).Ok?
    ensures WadPow(base, n).value * Pow(WAD, n) <= WAD * Pow(base, n)
  {
    var r: u128 := if n % 2 == 1 then base else WAD;
    PowFromAtMost(base, r, n);
    if n % 2 == 1 {
      assert Pow(WAD, n) == WAD * Pow(WAD, n - 1) && Pow(base, n) == base * Pow(base, n - 1);
      hide Pow;
      FoldFactor(WadPow(base, n).value, WAD, base, base, WAD, Pow(WAD, n - 1), Pow(base, n - 1));
    }
  }

  // ---------------------------------------------------------------- how close to the exact power

  /** WAD and its last digit: a product of at least one loses no more than this much of itself. */
  const WAD_UP: nat := WAD + 1

  lemma WadMulNear(a: u128, b: u128)
    requires a >= WAD && b >= WAD && WadMul(a, b).Ok?
    ensures WadMul(a, b).value >= WAD && a * b <= WadMul(a, b).value * WAD_UP
  {
    DivBounds(a * b, WAD);
    MulMono(WAD, a, b);
    DivAtLeast(a * b, WAD, WAD);
  }

  lemma {:induction false} PowFromNear(b: u128, r: u128, e: nat)
    requires b >= WAD && r >= WAD && PowFrom(b, r, e).Ok?
    ensures r * Pow(b, e - e % 2) <= PowFrom(b, r, e).value * Pow(WAD_UP, e - e % 2)
    decreases e
  {
    var h := e / 2;
    if h == 0 {
      assert e - e % 2 == 0;
    } else {
      hide WadMul, Pow;
      var square := WadMul(b, b).value;
      WadMulNear(b, b);
      var next: u128 := if h % 2 == 1 then WadMul(r, square).value else r;
      if h % 2 == 1 {
        WadMulNear(r, square);
      }
      PowFromNear(square, next, h);
      FoldBitNear(PowFrom(b, r, e).value, r, next, square, h);
      SquareOutNear(PowFrom(b, r, e).value, r, square, b, h);
      assert e - e % 2 == 2 * h;
    }
  }

  lemma FoldBitNear(v: nat, r: nat, next: nat, square: nat, h: nat)
    requires next * Pow(square, h - h % 2) <= v * Pow(WAD_UP, h - h % 2)
    requires h % 2 == 1 ==> r * square <= next * WAD_UP
    requires h % 2 == 0 ==> next == r
    ensures r * Pow(square, h) <= v * Pow(WAD_UP, h)
  {
    if h % 2 == 1 {
      assert Pow(WAD_UP, h) == WAD_UP * Pow(WAD_UP, h - 1) && Pow(square, h) == square * Pow(square, h - 1);
      hide Pow;
      FoldFactorNear(v, r, next, square, WAD_UP, Pow(WAD_UP, h - 1), Pow(square, h - 1));
    }
  }

  lemma FoldFactorNear(v: nat, r: nat, next: nat, square: nat, w: nat, p: nat, q: nat)
    requires next * q <= v * p && r * square <= next * w
    ensures r * (square * q) <= v * (w * p)
  {
    MulMono(r * square, next * w, q);
    MulMono(next * q, v * p, w);
    assert r * (square * q) == r * square * q;
    assert next * w * q == next * q * w;
    assert v * p * w == v * (w * p);
  }

  lemma SquareOutNear(v: nat, r: nat, square: nat, b: nat, h: nat)
    requires r * Pow(square, h) <= v * Pow(WAD_UP, h) && b * b <= square * WAD_UP
    ensures r * Pow(b, 2 * h) <= v * Pow(WAD_UP, 2 * h)
  {
    hide Pow;
    PowMono(b * b, square * WAD_UP, h);
    PowOfProduct(square, WAD_UP, h);
    PowOfSquare(b, h);
    PowOfSquare(WAD_UP, h);
    PowOfProduct(WAD_UP, WAD_UP, h);
    FoldSquareNear(v, r, Pow(WAD_UP, h), Pow(square, h), Pow(b, 2 * h), Pow(WAD_UP, 2 * h));
  }

  lemma FoldSquareNear(v: nat, r: nat, wh: nat, sh: nat, b2h: nat, w2h: nat)
    requires r * sh <= v * wh && b2h <= sh * wh && w2h == wh * wh
    ensures r * b2h <= v * w2h
  {
    MulMono(b2h, sh * wh, r);
    MulMono(r * sh, v * wh, wh);
    assert r * (sh * wh) == r * sh * wh;
    assert v * wh * wh == v * (wh * wh);
  }

  /**
   Compounding in wads keeps the exact power but for a last digit in every factor: with WadPowAtMostExact
   the result is bracketed for any exponent.
   */
  lemma WadPowNearExact(base: u128, n: nat)
    requires base >= WAD && WadPow(base, n).Ok?
    ensures WAD * Pow(base, n) <= WadPow(base, n).value * Pow(WAD_UP, n)
  {
    var r: u128 := if n % 2 == 1 then base else WAD;
    PowFromNear(base, r, n);
    if n % 2 == 1 {
      assert Pow(WAD_UP, n) == WAD_UP * Pow(WAD_UP, n - 1) && Pow(base, n) == base * Pow(base, n - 1);
      hide Pow;
      MulMono(WAD * base, base * WAD_UP, 1);
      FoldFactorNear(WadPow(base, n).value, WAD, base, base, WAD_UP, Pow(WAD_UP, n - 1), Pow(base, n - 1));
    }
  }

  // ---------------------------------------------------------------- monotone in base and exponent

  lemma {:induction false} PowFromMono(b: u128, r: u128, c: u128, s: u128, e: nat)
    requires b <= c && r <= s && PowFrom(c, s, e).Ok?
    ensures PowFrom(b, r, e).Ok? && PowFrom(b, r, e).value <= PowFrom(c, s, e).value
    decreases e
  {
    hide WadMul;
    var h := e / 2;
    if h > 0 {
      WadMulMono(b, b, c, c);
      var x, y := WadMul(b, b).value, WadMul(c, c).value;
      if h % 2 == 1 {
        WadMulMono(r, x, s, y);
        PowFromMono(x, WadMul(r, x).value, y, WadMul(s, y).value, h);
      } else {
        PowFromMono(x, r, y, s, h);
      }
    }
  }

  lemma WadPowMonotoneInBase(b: u128, c: u128, n: nat)
    requires b <= c && WadPow(c, n).Ok?
    ensures WadPow(b, n).Ok? && WadPow(b, n).value <= WadPow(c, n).value
  {
    PowFromMono(b, if n % 2 == 1 then b else WAD, c, if n % 2 == 1 then c else WAD, n);
  }

  /** One squaring: the next bit of the exponent decides whether the product takes it. */
  lemma PowFromStep(b: u128, r: u128, e: nat, square: u128, next: u128)
    requires e / 2 > 0 && WadMul(b, b) == Ok(square)
    requires if e / 2 % 2 == 1 then WadMul(r, square) == Ok(next) else next == r
    ensures PowFrom(b, r, e) == PowFrom(square, next, e / 2)
  {
    hide WadMul;
  }

  /** The last bit of an exponent is in the product already. */
  lemma PowFromLastBit(b: u128, r: u128, h: nat)
    requires h % 2 == 0 && h > 0
    ensures PowFrom(b, r, h + 1) == PowFrom(b, r, h)
  {
    hide WadMul;
    assert (h + 1) / 2 == h / 2;
  }

  /** Adding one to an exponent that ends in a run of ones carries through the whole run. */
  lemma {:induction false} PowFromCarry(b: u128, r: u128, e: nat)
    requires e % 2 == 1 && b >= WAD
    requires WadMul(b, b).Ok? && r <= WadMul(b, b).value
    requires PowFrom(b, WAD, e + 1).Ok?
    ensures PowFrom(b, r, e).Ok? && PowFrom(b, r, e).value <= PowFrom(b, WAD, e + 1).value
    decreases e
  {
    hide WadMul, PowFrom;
    var h := e / 2;
    assert (e + 1) / 2 == h + 1;
    var square := WadMul(b, b).value;
    WadMulUnit(square);
    PowFromStep(b, WAD, e + 1, square, if h % 2 == 0 then square else WAD);
    if h == 0 {
      PowFromEnds(square, square, 1);
      PowFromEnds(b, r, e);
    } else if h % 2 == 0 {
      PowFromStep(b, r, e, square, r);
      PowFromLastBit(square, square, h);
      PowFromMono(square, r, square, square, h);
    } else {
      WadMulGrows(b, b);
      PowFromSquares(square, WAD, h + 1);
      WadMulMono(r, square, square, square);
      var next: u128 := WadMul(r, square).value;
      PowFromStep(b, r, e, square, next);
      PowFromCarry(square, next, h);
    }
  }

  lemma PowFromEnds(b: u128, r: u128, e: nat)
    requires e / 2 == 0
    ensures PowFrom(b, r, e) == Ok(r)
  {
    hide WadMul;
  }

  lemma PowFromSquares(b: u128, r: u128, e: nat)
    requires e / 2 > 0 && PowFrom(b, r, e).Ok?
    ensures WadMul(b, b).Ok?
  {
    hide WadMul;
  }

  /** One more period never compounds to less, truncation or not. */
  lemma WadPowStep(base: u128, n: nat)
    requires base >= WAD && WadPow(base, n + 1).Ok?
    ensures WadPow(base, n).Ok? && WadPow(base, n).value <= WadPow(base, n + 1).value
  {
    hide WadMul;
    if n % 2 == 0 {
      assert (n + 1) / 2 == n / 2;
      assert PowFrom(base, base, n + 1) == PowFrom(base, base, n);
      PowFromMono(base, WAD, base, base, n);
    } else {
      WadMulGrows(base, base);
      PowFromCarry(base, base, n);
    }
  }

  /** Whenever the longer power fits, so does the shorter one, and it is not larger. */
  lemma {:induction false} WadPowMonotoneInExponent(base: u128, n: nat, m: nat)
    requires base >= WAD && n <= m && WadPow(base, m).Ok?
    ensures WadPow(base, n).Ok? && WadPow(base, n).value <= WadPow(base, m).value
    decreases m
  {
    hide WadPow;
    if n < m {
      WadPowStep(base, m - 1);
      WadPowMonotoneInExponent(base, n, m - 1);
    }
  }
}
