/** Which of the first 256 route accounts are tracked, one bit each. */
module Bitmap {
  import opened Arith
  import opened Fixed

  const WORD_BITS: nat := 64
  const WORDS: nat := 4
  const CAPACITY: nat := 256

  function PowerOf2(k: nat): nat {
    Pow(2, k)
  }

  lemma PowerPositive(k: nat)
    ensures PowerOf2(k) > 0
  {
    PowPositive(2, k);
  }

  /** Bit `k` of a word. */
  predicate Bit(w: nat, k: nat) {
    PowerPositive(k);
    w / PowerOf2(k) % 2 == 1
  }

  /** The bitwise or of a word with the single-bit mask of `k`. */
  function WithBit(w: nat, k: nat): nat {
    if Bit(w, k) then w else w + PowerOf2(k)
  }

  lemma {:induction false} PowerSplits(a: nat, b: nat)
    ensures PowerOf2(a + b) == PowerOf2(a) * PowerOf2(b)
  {
    if a > 0 {
      PowerSplits(a - 1, b);
    }
  }

  lemma AddMultiple(w: nat, q: nat, d: nat)
    requires d > 0
    ensures (w + q * d) / d == w / d + q
  {
    DivBounds(w, d);
    assert (w / d + q) * d == w / d * d + q * d;
    assert (w / d + q + 1) * d == w / d * d + q * d + d;
    DivAtLeast(w + q * d, d, w / d + q);
    DivAtMost(w + q * d, d, w / d + q);
  }

  /** Adding a power of two where its bit is clear leaves all quotients by higher powers alone. */
  lemma HigherQuotient(w: nat, k: nat, j: nat)
    requires k < j && !Bit(w, k)
    ensures PowerOf2(j) > 0 && (w + PowerOf2(k)) / PowerOf2(j) == w / PowerOf2(j)
  {
    var p, rest := PowerOf2(k), PowerOf2(j - k - 1);
    PowerPositive(k);
    PowerPositive(j);
    PowerPositive(j - k - 1);
    PowerSplits(k + 1, j - k - 1);
    assert PowerOf2(k + 1) == p * 2;
    assert PowerOf2(j) == p * 2 * rest;
    AddMultiple(w, 1, p);
    DivAtLeast(w, p, 0);
    assert (w + p) / p / 2 == w / p / 2;
    DivDiv(w, p, 2);
    DivDiv(w + p, p, 2);
    DivDiv(w, p * 2, rest);
    DivDiv(w + p, p * 2, rest);
  }

  lemma LowerParity(w: nat, k: nat, j: nat)
    requires j < k
    ensures Bit(w + PowerOf2(k), j) == Bit(w, j)
  {
    var p, half := PowerOf2(j), PowerOf2(k - j - 1);
    PowerPositive(j);
    PowerSplits(j + 1, k - j - 1);
    assert PowerOf2(j + 1) == 2 * p;
    assert PowerOf2(k) == 2 * half * p by { assert 2 * p * half == 2 * half * p; }
    AddMultiple(w, 2 * half, p);
  }

  /** Setting a bit sets that bit and no other. */
  lemma SettingBit(w: nat, k: nat, j: nat)
    ensures Bit(WithBit(w, k), j) <==> Bit(w, j) || j == k
  {
    if !Bit(w, k) {
      PowerPositive(k);
      if j < k {
        LowerParity(w, k, j);
      } else if j == k {
        AddMultiple(w, 1, PowerOf2(k));
        DivAtLeast(w, PowerOf2(k), 0);
      } else {
        HigherQuotient(w, k, j);
      }
    }
  }

  lemma WordPower()
    ensures PowerOf2(WORD_BITS) == U64_LIMIT
  {
    assert PowerOf2(8) == 256;
    PowerSplits(8, 8);
    PowerSplits(16, 16);
    PowerSplits(32, 32);
  }

  lemma WordStaysInWidth(w: u64, k: nat)
    requires k < WORD_BITS
    ensures WithBit(w, k) < U64_LIMIT
  {
    hide Bit, PowerOf2;
    WordPower();
    if !Bit(w, k) {
      HigherQuotient(w, k, WORD_BITS);
      PowerPositive(k);
    }
  }

  class TitanPdaBitmap {
    const words: array<u64>

    ghost predicate Valid()
      reads this
    {
      words.Length == WORDS
    }

    constructor ()
      ensures Valid() && fresh(words)
      ensures forall i: nat :: !IsSet(i)
    {
      words := new u64[WORDS](_ => 0);
      new;
      forall i: nat
        ensures !IsSet(i)
      {
        if i < CAPACITY {
          PowerPositive(i % WORD_BITS);
          DivAtMost(0, PowerOf2(i % WORD_BITS), 0);
        }
      }
    }

    predicate IsSet(index: nat)
      requires Valid()
      reads this, words
    {
      index < CAPACITY && Bit(words[index / WORD_BITS], index % WORD_BITS)
    }

    /** Indices from 256 on are silently not recorded. */
    method Set(index: nat)
      requires Valid()
      modifies words
      ensures Valid()
      ensures forall i: nat :: IsSet(i) <==> old(IsSet(i)) || (i == index && index < CAPACITY)
    {
      hide Bit, WithBit;
      if index < CAPACITY {
        var w := index / WORD_BITS;
        WordStaysInWidth(words[w], index % WORD_BITS);
        ghost var was := words[w];
        words[w] := WithBit(words[w], index % WORD_BITS);
        forall i: nat
          ensures IsSet(i) <==> old(IsSet(i)) || i == index
        {
          SettingBit(was, index % WORD_BITS, i % WORD_BITS);
        }
      }
    }
  }
}
