/** xoshiro128+ on four 32-bit words, as in data/kernels/noise_generator.h. Each machine operation has a name,
    so that facts about bits are proved once, on single words, and the state transitions are argued about in
    terms of those facts. */
module NoiseGenerator {

  // -------------------------------------------------------------------------
  // Machine operations on one or two words
  // -------------------------------------------------------------------------

  function Xor(a: bv32, b: bv32): bv32 { a ^ b }

  function Plus(a: bv32, b: bv32): bv32 { a + b }

  function Shift9(a: bv32): bv32 { a << 9 }

  function Rol32(x: bv32, k: bv6): bv32
    requires k <= 32
  {
    (x << k) | (x >> (32 - k))
  }

  // The x of which m is x ^ (x << 9): shifting is linear, and four shifts leave nothing.
  function Unshift9(m: bv32): bv32
  {
    var a := Xor(m, Shift9(m));
    Xor(a, Shift9(Shift9(a)))
  }

  lemma RotateBack(x: bv32)
    ensures Rol32(Rol32(x, 11), 21) == x && Rol32(Rol32(x, 21), 11) == x
  {
  }

  lemma PlusIs(a: bv32, b: bv32)
    ensures Plus(a, b) == a + b
  {
  }

  // Bit i goes 9 places up, or out; the lowest nine become 0.
  lemma ShiftsBits(x: bv32, i: bv32)
    requires i < 32
    ensures (Shift9(x) >> i) & 1 == if i < 9 then 0 else (x >> (i - 9)) & 1
  {
  }

  // Bit i goes 11 places up, around the end; no bit is lost.
  lemma RotatesBits(x: bv32, i: bv32)
    requires i < 32
    ensures (Rol32(x, 11) >> ((i + 11) % 32)) & 1 == (x >> i) & 1
  {
  }

  lemma ShiftLinear(a: bv32, b: bv32)
    ensures Shift9(Xor(a, b)) == Xor(Shift9(a), Shift9(b))
  {
  }

  lemma ShiftsOut(x: bv32)
    ensures Shift9(Shift9(Shift9(Shift9(x)))) == 0 && Xor(x, 0) == x
  {
  }

  lemma XorAssociates(a: bv32, b: bv32, c: bv32)
    ensures Xor(Xor(a, b), c) == Xor(a, Xor(b, c))
  {
  }

  lemma XorCommutes(a: bv32, b: bv32)
    ensures Xor(a, b) == Xor(b, a)
  {
  }

  lemma XorSwaps(a: bv32, b: bv32, c: bv32, d: bv32)
    ensures Xor(Xor(a, b), Xor(c, d)) == Xor(Xor(a, c), Xor(b, d))
  {
    hide Xor;
    XorAssociates(a, b, Xor(c, d));
    XorAssociates(b, c, d);
    XorCommutes(b, c);
    XorAssociates(c, b, d);
    XorAssociates(a, c, Xor(b, d));
  }

  // Folding twice folds at double distance; folding four times is the identity.
  lemma FoldTwice(x: bv32)
    ensures var m := Xor(x, Shift9(x)); Xor(m, Shift9(m)) == Xor(x, Shift9(Shift9(x)))
  {
    hide Xor, Shift9;
    ShiftLinear(x, Shift9(x));
    XorMiddle(x, Shift9(x), Shift9(Shift9(x)));
  }

  lemma FoldFourTimes(x: bv32)
    ensures var d := Xor(x, Shift9(Shift9(x))); Xor(d, Shift9(Shift9(d))) == x
  {
    hide Xor, Shift9;
    var y := Shift9(Shift9(x));
    ShiftLinear(x, y);
    ShiftLinear(Shift9(x), Shift9(y));
    XorMiddle(x, y, Shift9(Shift9(y)));
    ShiftsOut(x);
  }

  lemma ShiftBack(x: bv32)
    ensures Unshift9(Xor(x, Shift9(x))) == x && Xor(Unshift9(x), Shift9(Unshift9(x))) == x
  {
    hide Xor, Shift9;
    FoldTwice(x);
    FoldFourTimes(x);
    var a := Xor(x, Shift9(x));
    ShiftLinear(a, Shift9(Shift9(a)));
    XorSwaps(a, Shift9(Shift9(a)), Shift9(a), Shift9(Shift9(Shift9(a))));
    ShiftLinear(a, Shift9(a));
    ShiftLinear(Shift9(a), Shift9(Shift9(a)));
  }

  lemma XorCancels(a: bv32, b: bv32)
    ensures Xor(Xor(a, b), b) == a
  {
  }

  lemma XorMiddle(a: bv32, d: bv32, t: bv32)
    ensures Xor(Xor(a, d), Xor(d, t)) == Xor(a, t)
  {
  }

  lemma XorRejoins(a: bv32, t: bv32, b: bv32, c: bv32)
    requires Xor(a, t) == Xor(b, c)
    ensures Xor(a, Xor(c, t)) == b
  {
  }

  lemma ZeroBits()
    ensures Xor(0, 0) == 0 && Shift9(0) == 0 && Rol32(0, 11) == 0 && Rol32(0, 21) == 0
  {
  }

  // -------------------------------------------------------------------------
  // xoshiro128+
  // -------------------------------------------------------------------------

  datatype Words = Words(s0: bv32, s1: bv32, s2: bv32, s3: bv32)

  // The state after one call.
  function Step(w: Words): Words
  {
    var s2 := Xor(w.s2, w.s0);
    var s3 := Xor(w.s3, w.s1);
    Words(Xor(w.s0, s3), Xor(w.s1, s2), Xor(s2, Shift9(w.s1)), Rol32(s3, 11))
  }

  // Undoing a step: the two middle words together give back s1 ^ (s1 << 9).
  function StepBack(w: Words): Words
  {
    var s3 := Rol32(w.s3, 21);
    var s0 := Xor(w.s0, s3);
    var s1 := Unshift9(Xor(w.s1, w.s2));
    var s2 := Xor(w.s2, Shift9(s1));
    Words(s0, s1, Xor(s2, s0), Xor(s3, s1))
  }

  // A step can be undone ...
  lemma StepBackUndoes(w: Words)
    ensures StepBack(Step(w)) == w
  {
    hide Xor, Shift9, Rol32, Unshift9;
    RotateBack(Xor(w.s3, w.s1));
    XorCancels(w.s0, Xor(w.s3, w.s1));
    XorMiddle(w.s1, Xor(w.s2, w.s0), Shift9(w.s1));
    ShiftBack(w.s1);
    XorCancels(Xor(w.s2, w.s0), Shift9(w.s1));
    XorCancels(w.s2, w.s0);
    XorCancels(w.s3, w.s1);
  }

  // ... and every state is reached by one, so the step is a bijection on the states.
  lemma StepUndoes(w: Words)
    ensures Step(StepBack(w)) == w
  {
    hide Xor, Shift9, Rol32, Unshift9;
    var back := StepBack(w);
    var s3 := Rol32(w.s3, 21);
    var s2 := Xor(w.s2, Shift9(back.s1));
    RotateBack(w.s3);
    ShiftBack(Xor(w.s1, w.s2));
    XorCancels(s2, back.s0);
    XorCancels(s3, back.s1);
    XorCancels(w.s0, s3);
    XorCancels(w.s2, Shift9(back.s1));
    XorRejoins(back.s1, Shift9(back.s1), w.s1, w.s2);
  }

  const ALL_ZERO := Words(0, 0, 0, 0)

  // Zero is reached from zero only.
  lemma ZeroOnlyFromZero(w: Words)
    ensures Step(w) == ALL_ZERO <==> w == ALL_ZERO
  {
    hide Xor, Shift9, Rol32;
    ZeroBits();
    StepBackUndoes(w);
  }

  ghost function Run(w: Words, calls: nat): Words
  {
    if calls == 0 then w else Step(Run(w, calls - 1))
  }

  ghost function RunBack(w: Words, calls: nat): Words
    decreases calls
  {
    if calls == 0 then w else RunBack(StepBack(w), calls - 1)
  }

  // No run from a seed with a bit set ever gets stuck in the all-zero state.
  lemma {:induction false} NeverAllZero(w: Words, calls: nat)
    requires w != ALL_ZERO
    ensures Run(w, calls) != ALL_ZERO
  {
    hide Step;
    if calls > 0 {
      NeverAllZero(w, calls - 1);
      ZeroOnlyFromZero(Run(w, calls - 1));
    }
  }

  // A run loses nothing: its seed can be read back from the state it ends in, so two seeds never meet.
  lemma {:induction false} RunsGoBack(w: Words, calls: nat)
    ensures RunBack(Run(w, calls), calls) == w
  {
    hide Step, StepBack;
    if calls > 0 {
      StepBackUndoes(Run(w, calls - 1));
      RunsGoBack(w, calls - 1);
    }
  }

  lemma RunsNeverMeet(v: Words, w: Words, calls: nat)
    requires v != w
    ensures Run(v, calls) != Run(w, calls)
  {
    RunsGoBack(v, calls);
    RunsGoBack(w, calls);
  }

  const SCALE: real := 16777216.0

  // (float)(x >> 8) * 0x1.0p-24f: 24 bits fit a float exactly.
  function Fraction(x: bv32): real
  {
    ((x >> 8) as bv24 as int) as real / SCALE
  }

  lemma FractionInRange(x: bv32)
    ensures 0.0 <= Fraction(x) <= 1.0 - 1.0 / SCALE
  {
    var n := (x >> 8) as bv24 as int;
    assert 0 <= n < 0x100_0000;
    QuotientInRange(n);
  }

  lemma QuotientInRange(n: int)
    requires 0 <= n < 0x100_0000
    ensures 0.0 <= n as real / SCALE <= 1.0 - 1.0 / SCALE
  {
  }

  function Output(w: Words): real
  {
    Fraction(Plus(w.s0, w.s3))
  }

  lemma OutputInRange(w: Words)
    ensures 0.0 <= Output(w) <= 1.0 - 1.0 / 16777216.0
  {
    hide Fraction;
    FractionInRange(Plus(w.s0, w.s3));
  }

  // The output is the upper 24 bits of the sum of the outer words, as a fraction.
  lemma OutputIsUpperBits(w: Words)
    ensures Output(w) == ((w.s0 + w.s3) >> 8) as int as real / 16777216.0
  {
    hide Fraction, Plus;
    PlusIs(w.s0, w.s3);
    FractionIs(w.s0 + w.s3);
  }

  lemma FractionIs(x: bv32)
    ensures Fraction(x) == (x >> 8) as int as real / 16777216.0
  {
    UpperBits(x);
  }

  lemma UpperBits(x: bv32)
    ensures (x >> 8) as bv24 as int == (x >> 8) as int
  {
  }

  ghost function WordsOf(state: array<bv32>): Words
    requires state.Length == 4
    reads state
  {
    Words(state[0], state[1], state[2], state[3])
  }

  method Xoshiro128Plus(state: array<bv32>) returns (r: real)
    requires state.Length == 4
    modifies state
    ensures WordsOf(state) == Step(old(WordsOf(state)))
    ensures r == Output(old(WordsOf(state)))
  {
    hide Xor, Shift9, Rol32, Plus, Fraction;
    var result := Plus(state[0], state[3]);
    var t := Shift9(state[1]);
    state[2] := Xor(state[2], state[0]);
    state[3] := Xor(state[3], state[1]);
    state[1] := Xor(state[1], state[2]);
    state[0] := Xor(state[0], state[3]);
    state[2] := Xor(state[2], t);
    state[3] := Rol32(state[3], 11);
    r := Fraction(result);
  }

  // mu + 2 * (noise - 0.5) * sigma, for one channel.
  function Spread(mu: real, noise: real, sigma: real): real
  {
    mu + 2.0 * (noise - 0.5) * sigma
  }

  lemma NonNegativeProduct(a: real, b: real)
    requires a >= 0.0 && b >= 0.0
    ensures a * b >= 0.0
  {
  }

  lemma SpreadStaysClose(mu: real, noise: real, sigma: real)
    requires sigma >= 0.0 && 0.0 <= noise <= 1.0
    ensures mu - sigma <= Spread(mu, noise, sigma) <= mu + sigma
  {
    var d := 2.0 * (noise - 0.5);
    NonNegativeProduct(1.0 - d, sigma);
    NonNegativeProduct(d + 1.0, sigma);
  }

  // From one end to the other in equal steps.
  lemma SpreadIsEven(mu: real, sigma: real, a: real, b: real, d: real)
    ensures Spread(mu, 0.0, sigma) == mu - sigma && Spread(mu, 1.0, sigma) == mu + sigma
    ensures Spread(mu, a + d, sigma) - Spread(mu, a, sigma) == Spread(mu, b + d, sigma) - Spread(mu, b, sigma)
    ensures sigma > 0.0 && d > 0.0 ==> Spread(mu, a + d, sigma) > Spread(mu, a, sigma)
  {
    SpreadStep(mu, sigma, a, d);
    SpreadStep(mu, sigma, b, d);
    if sigma > 0.0 && d > 0.0 {
      assert d * sigma > 0.0;
    }
  }

  lemma SpreadStep(mu: real, sigma: real, a: real, d: real)
    ensures Spread(mu, a + d, sigma) - Spread(mu, a, sigma) == 2.0 * (d * sigma)
  {
    assert 2.0 * (a + d - 0.5) * sigma == 2.0 * (a - 0.5) * sigma + 2.0 * (d * sigma);
  }

  datatype Float4 = Float4(x: real, y: real, z: real, w: real)

  // Three calls, one per colour; the fourth channel draws nothing.
  method UniformNoise(mu: Float4, sigma: Float4, state: array<bv32>) returns (noise: Float4)
    requires state.Length == 4
    modifies state
    ensures WordsOf(state) == Run(old(WordsOf(state)), 3)
    ensures noise.x == Spread(mu.x, Output(old(WordsOf(state))), sigma.x)
    ensures noise.y == Spread(mu.y, Output(Run(old(WordsOf(state)), 1)), sigma.y)
    ensures noise.z == Spread(mu.z, Output(Run(old(WordsOf(state)), 2)), sigma.z)
    ensures noise.w == mu.w - sigma.w
    ensures sigma.x >= 0.0 ==> mu.x - sigma.x <= noise.x <= mu.x + sigma.x
    ensures sigma.y >= 0.0 ==> mu.y - sigma.y <= noise.y <= mu.y + sigma.y
    ensures sigma.z >= 0.0 ==> mu.z - sigma.z <= noise.z <= mu.z + sigma.z
  {
    hide Step, Output;
    ghost var start := WordsOf(state);
    assert Run(start, 0) == start && Run(start, 1) == Step(start) && Run(start, 2) == Step(Run(start, 1));
    var x := Xoshiro128Plus(state);
    var y := Xoshiro128Plus(state);
    var z := Xoshiro128Plus(state);
    OutputInRange(start);
    OutputInRange(Run(start, 1));
    OutputInRange(Run(start, 2));
    noise := Float4(Spread(mu.x, x, sigma.x), Spread(mu.y, y, sigma.y), Spread(mu.z, z, sigma.z), Spread(mu.w, 0.0, sigma.w));
    if sigma.x >= 0.0 {
      SpreadStaysClose(mu.x, x, sigma.x);
    }
    if sigma.y >= 0.0 {
      SpreadStaysClose(mu.y, y, sigma.y);
    }
    if sigma.z >= 0.0 {
      SpreadStaysClose(mu.z, z, sigma.z);
    }
  }
}
