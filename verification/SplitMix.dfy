/** splitmix32 of data/kernels/noise_generator.h: 64-bit words as numbers below 2^64. */
module SplitMix {
  import opened Lists

  const WORD: int := 0x1_0000_0000_0000_0000
  const HALF: int := 0x1_0000_0000

  // -------------------------------------------------------------------------
  // Exclusive or and shifts
  // -------------------------------------------------------------------------

  // Bit by bit, from the lowest.
  function Xor(a: nat, b: nat): nat
    decreases a + b
  {
    if a == 0 && b == 0 then 0 else 2 * Xor(a / 2, b / 2) + (if a % 2 != b % 2 then 1 else 0)
  }

  // x >> k
  function Shift(x: nat, k: nat): nat
  {
    if k == 0 then x else Shift(x / 2, k - 1)
  }

  // Each bit of the result says whether the bits of the operands differ.
  lemma {:induction false} XorBits(a: nat, b: nat, k: nat)
    ensures Shift(Xor(a, b), k) % 2 == (Shift(a, k) % 2 + Shift(b, k) % 2) % 2
    decreases k
  {
    assert Xor(a, b) / 2 == Xor(a / 2, b / 2) && Xor(a, b) % 2 == (a % 2 + b % 2) % 2;
    if k > 0 {
      XorBits(a / 2, b / 2, k - 1);
    }
  }

  lemma {:induction false} XorZero(a: nat)
    ensures Xor(a, 0) == a
  {
    if a > 0 {
      XorZero(a / 2);
    }
  }

  lemma {:induction false} XorCancels(a: nat, b: nat)
    ensures Xor(Xor(a, b), b) == a
    decreases a + b
  {
    if a + b > 0 {
      XorCancels(a / 2, b / 2);
      assert Xor(a, b) / 2 == Xor(a / 2, b / 2);
    }
  }

  lemma {:induction false} XorAssociates(a: nat, b: nat, c: nat)
    ensures Xor(Xor(a, b), c) == Xor(a, Xor(b, c))
    decreases a + b + c
  {
    if a + b + c > 0 {
      XorAssociates(a / 2, b / 2, c / 2);
      assert Xor(a, b) / 2 == Xor(a / 2, b / 2) && Xor(b, c) / 2 == Xor(b / 2, c / 2);
    }
  }

  lemma {:induction false} XorCommutes(a: nat, b: nat)
    ensures Xor(a, b) == Xor(b, a)
    decreases a + b
  {
    if a + b > 0 {
      XorCommutes(a / 2, b / 2);
    }
  }

  lemma {:induction false} ShiftXor(a: nat, b: nat, k: nat)
    ensures Shift(Xor(a, b), k) == Xor(Shift(a, k), Shift(b, k))
    decreases k
  {
    if k > 0 {
      assert Xor(a, b) / 2 == Xor(a / 2, b / 2);
      ShiftXor(a / 2, b / 2, k - 1);
    }
  }

  lemma {:induction false} ShiftAdds(x: nat, j: nat, k: nat)
    ensures Shift(Shift(x, j), k) == Shift(x, j + k)
    decreases j
  {
    if j > 0 {
      ShiftAdds(x / 2, j - 1, k);
    }
  }

  lemma Ordered(a: int, b: int, d: nat)
    requires a <= b
    ensures a * d <= b * d
  {
  }

  lemma QuotientUnique(x: nat, d: nat, q: nat)
    requires d > 0 && q * d <= x < (q + 1) * d
    ensures x / d == q
  {
    var q', r := x / d, x % d;
    assert x == q' * d + r;
    if q' < q {
      Ordered(q' + 1, q, d);
    } else if q' > q {
      Ordered(q + 1, q', d);
    }
  }

  lemma HalveFirst(x: nat, p: nat)
    requires p > 0
    ensures x / 2 / p == x / (2 * p)
  {
    var q := x / 2 / p;
    assert q * p <= x / 2 < (q + 1) * p;
    assert q * (2 * p) == 2 * (q * p) && (q + 1) * (2 * p) == 2 * ((q + 1) * p);
    QuotientUnique(x, 2 * p, q);
  }

  lemma {:induction false} ShiftDivides(x: nat, k: nat)
    ensures Power2(k) > 0 && Shift(x, k) == x / Power2(k)
    decreases k
  {
    if k > 0 {
      ShiftDivides(x / 2, k - 1);
      HalveFirst(x, Power2(k - 1));
    }
  }

  lemma {:induction false} XorStaysBelow(a: nat, b: nat, k: nat)
    requires a < Power2(k) && b < Power2(k)
    ensures Xor(a, b) < Power2(k)
  {
    if k > 0 {
      XorStaysBelow(a / 2, b / 2, k - 1);
    }
  }

  // -------------------------------------------------------------------------
  // The mixer
  // -------------------------------------------------------------------------

  type Word = x: nat | x < WORD

  const FIRST: int := 0x62a9d9ed799705f5
  const SECOND: int := 0xcb24d0a5c88c35b3

  // Their inverses modulo 2^64: both multipliers are odd.
  const FIRST_INVERSE: int := 0x8e7fc80bbd7bbe5d
  const SECOND_INVERSE: int := 0x13a10fc6e8a1817b

  // Unsigned multiplication, wrapping around.
  function Times(x: Word, m: int): Word
  {
    x * m % WORD
  }

  // x ^ (x >> k)
  function Fold(x: Word, k: nat): nat
  {
    Xor(x, Shift(x, k))
  }

  lemma ModRemainder(x: int, q: int, r: Word)
    requires x == q * WORD + r
    ensures x % WORD == r
  {
  }

  lemma TimesUndoes(x: Word, m: int, inverse: int, excess: int)
    requires m * inverse == excess * WORD + 1
    ensures Times(Times(x, m), inverse) == x
  {
    var q := x * m / WORD;
    assert Times(x, m) == x * m - q * WORD;
    assert (x * m - q * WORD) * inverse == x * (m * inverse) - (q * inverse) * WORD;
    assert x * (excess * WORD + 1) == (x * excess) * WORD + x;
    ModRemainder(Times(x, m) * inverse, x * excess - q * inverse, x);
  }

  lemma ShiftShrinks(x: Word, k: nat)
    ensures Shift(x, k) <= x
    decreases k
  {
    if k > 0 {
      ShiftShrinks(x / 2, k - 1);
    }
  }

  lemma WordIsPower()
    ensures Power2(64) == WORD && Power2(32) == HALF
  {
    assert Power2(8) == 256 && Power2(16) == 65536 && Power2(24) == 0x100_0000;
    assert Power2(32) == HALF && Power2(40) == 256 * HALF && Power2(48) == 65536 * HALF && Power2(56) == 0x100_0000 * HALF;
  }

  lemma XorOfWords(a: Word, b: Word)
    ensures Xor(a, b) < WORD
  {
    WordIsPower();
    XorStaysBelow(a, b, 64);
  }

  lemma ShiftedOut(x: Word, k: nat)
    requires k >= 64
    ensures Shift(x, k) == 0
  {
    WordIsPower();
    ShiftAdds(x, 64, k - 64);
    ShiftDivides(x, 64);
    ZeroShift(k - 64);
  }

  lemma {:induction false} ZeroShift(k: nat)
    ensures Shift(0, k) == 0
  {
    if k > 0 {
      ZeroShift(k - 1);
    }
  }

  // Folding at a distance of at least half the word undoes itself.
  lemma FoldFarUndoes(x: Word, k: nat)
    requires k >= 32
    ensures Fold(x, k) < WORD && Fold(Fold(x, k), k) == x
  {
    var h := Shift(x, k);
    ShiftShrinks(x, k);
    XorOfWords(x, h);
    ShiftXor(x, h, k);
    ShiftAdds(x, k, k);
    ShiftedOut(x, k + k);
    XorZero(h);
    XorCancels(x, h);
  }

  // The x of which m is x ^ (x >> 28).
  function Unfold28(m: Word): nat
  {
    Xor(m, Xor(Shift(m, 28), Shift(m, 56)))
  }

  lemma Fold28Undoes(x: Word)
    ensures Fold(x, 28) < WORD && Unfold28(x) < WORD
    ensures Unfold28(Fold(x, 28)) == x && Fold(Unfold28(x), 28) == x
  {
    var h, g := Shift(x, 28), Shift(x, 56);
    ShiftShrinks(x, 28);
    ShiftShrinks(x, 56);
    XorOfWords(x, h);
    XorOfWords(h, g);
    XorOfWords(x, Xor(h, g));
    ShiftAdds(x, 28, 28);
    ShiftAdds(x, 56, 28);
    ShiftAdds(x, 28, 56);
    ShiftedOut(x, 84);
    XorZero(g);
    ShiftXor(x, h, 28);
    ShiftXor(x, h, 56);
    XorCancels(h, g);
    XorCancels(x, h);
    ShiftXor(h, g, 28);
    ShiftXor(x, Xor(h, g), 28);
    XorCancels(x, Xor(h, g));
  }

  // splitmix32 up to its final shift.
  function Mix(seed: Word): Word
  {
    FoldFarUndoes(seed, 33);
    var result := Times(Fold(seed, 33), FIRST);
    Fold28Undoes(result);
    Times(Fold(result, 28), SECOND)
  }

  function Unmix(mixed: Word): Word
  {
    var folded := Times(mixed, SECOND_INVERSE);
    Fold28Undoes(folded);
    var result := Times(Unfold28(folded), FIRST_INVERSE);
    FoldFarUndoes(result, 33);
    Fold(result, 33)
  }

  // Both multipliers have the inverses given above.
  lemma MultipliersInvert(x: Word)
    ensures Times(Times(x, FIRST), FIRST_INVERSE) == x && Times(Times(x, FIRST_INVERSE), FIRST) == x
    ensures Times(Times(x, SECOND), SECOND_INVERSE) == x && Times(Times(x, SECOND_INVERSE), SECOND) == x
  {
    TimesUndoes(x, FIRST, FIRST_INVERSE, FIRST * FIRST_INVERSE / WORD);
    TimesUndoes(x, FIRST_INVERSE, FIRST, FIRST * FIRST_INVERSE / WORD);
    TimesUndoes(x, SECOND, SECOND_INVERSE, SECOND * SECOND_INVERSE / WORD);
    TimesUndoes(x, SECOND_INVERSE, SECOND, SECOND * SECOND_INVERSE / WORD);
  }

  // The mixing is a bijection on 64-bit words.
  lemma MixIsBijective(x: Word)
    ensures Unmix(Mix(x)) == x && Mix(Unmix(x)) == x
  {
    hide Fold, Unfold28, Times;
    FoldFarUndoes(x, 33);
    MultipliersInvert(Fold(x, 33));
    Fold28Undoes(Times(Fold(x, 33), FIRST));
    MultipliersInvert(Fold(Times(Fold(x, 33), FIRST), 28));
    MultipliersInvert(x);
    Fold28Undoes(Times(x, SECOND_INVERSE));
    MultipliersInvert(Unfold28(Times(x, SECOND_INVERSE)));
    FoldFarUndoes(Times(Unfold28(Times(x, SECOND_INVERSE)), FIRST_INVERSE), 33);
  }

  // (unsigned int)(result >> 32)
  function SplitMix32(seed: Word): nat
  {
    Shift(Mix(seed), 32)
  }

  // The seed of a result, numbered by the lower half that the final shift throws away.
  function SeedFor(result: nat, lower: nat): Word
    requires result < HALF && lower < HALF
  {
    Unmix(result * HALF + lower)
  }

  lemma ResultIsUpperHalf(seed: Word)
    ensures SplitMix32(seed) == Mix(seed) / HALF < HALF
  {
    hide Mix;
    WordIsPower();
    ShiftDivides(Mix(seed), 32);
  }

  lemma SeedForIsSeed(result: nat, lower: nat)
    requires result < HALF && lower < HALF
    ensures SplitMix32(SeedFor(result, lower)) == result && Mix(SeedFor(result, lower)) % HALF == lower
  {
    hide Mix, Unmix;
    MixIsBijective(result * HALF + lower);
    ResultIsUpperHalf(SeedFor(result, lower));
  }

  // The first so many seeds of a result.
  ghost function Seeds(result: nat, count: nat): set<nat>
    requires result < HALF && count <= HALF
  {
    set i | 0 <= i < count :: SeedFor(result, i)
  }

  lemma {:induction false} SeedsCount(result: nat, count: nat)
    requires result < HALF && count <= HALF
    ensures |Seeds(result, count)| == count
  {
    hide Mix, Unmix, SeedFor;
    if count > 0 {
      SeedsCount(result, count - 1);
      var last := SeedFor(result, count - 1);
      SeedForIsSeed(result, count - 1);
      forall i | 0 <= i < count - 1
        ensures SeedFor(result, i) != last
      {
        SeedForIsSeed(result, i);
      }
      assert Seeds(result, count) == Seeds(result, count - 1) + {last};
    }
  }

  // Every 32-bit result has exactly 2^32 seeds.
  lemma EveryResultEquallyOften(result: nat)
    requires result < HALF
    ensures |Seeds(result, HALF)| == HALF
    ensures forall seed: Word :: seed in Seeds(result, HALF) <==> SplitMix32(seed) == result
  {
    hide Mix, Unmix, SplitMix32, SeedFor;
    SeedsCount(result, HALF);
    forall seed: Word
      ensures seed in Seeds(result, HALF) <==> SplitMix32(seed) == result
    {
      ResultIsUpperHalf(seed);
      var lower := Mix(seed) % HALF;
      if SplitMix32(seed) == result {
        SeedOfOwnHalves(seed);
        assert 0 <= lower < HALF && seed == SeedFor(result, lower);
      }
      if seed in Seeds(result, HALF) {
        var i :| 0 <= i < HALF && seed == SeedFor(result, i);
        SeedForIsSeed(result, i);
      }
    }
  }

  lemma SeedOfOwnHalves(seed: Word)
    ensures SplitMix32(seed) < HALF && seed == SeedFor(SplitMix32(seed), Mix(seed) % HALF)
  {
    hide Mix, Unmix;
    ResultIsUpperHalf(seed);
    MixIsBijective(seed);
  }
}
