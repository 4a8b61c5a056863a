/** fingerprints of tools/clone_detect.py: a rolling polynomial hash of every k-gram, and a monotonic deque
    that keeps the minimum of every window of w hashes. */
module Winnowing {
  const MOD: int := 0x1FFFFFFFFFFFFFFF
  const BASE: int := 1000003
  // The inverse of BASE modulo MOD.
  const INVERSE: int := 0x110f9386a5254720

  // -------------------------------------------------------------------------
  // The plain specification
  // -------------------------------------------------------------------------

  function Power(b: int, e: nat): int
  {
    if e == 0 then 1 else b * Power(b, e - 1)
  }

  // The tokens of a k-gram as the digits of a number.
  function Polynomial(ids: seq<int>): int
  {
    if ids == [] then 0 else Polynomial(ids[..|ids| - 1]) * BASE + ids[|ids| - 1]
  }

  function GramHash(ids: seq<int>): int
  {
    Polynomial(ids) % MOD
  }

  // The hash of every k-gram.
  function GramHashes(ids: seq<int>, k: nat): seq<int>
    requires k <= |ids|
  {
    seq(|ids| - k + 1, i requires 0 <= i <= |ids| - k => GramHash(ids[i..i + k]))
  }

  ghost predicate IsLeast(s: seq<int>, m: int)
  {
    m in s && forall x :: x in s ==> m <= x
  }

  // The least element of every window of w consecutive hashes; with w <= 1, every hash.
  ghost predicate IsPicked(hashes: seq<int>, w: int, m: int)
  {
    if w <= 1 then m in hashes
    else exists i :: LeastOfWindow(hashes, w, i, m)
  }

  ghost predicate LeastOfWindow(hashes: seq<int>, w: int, i: int, m: int)
    requires w > 0
  {
    0 <= i <= |hashes| - w && IsLeast(hashes[i..i + w], m)
  }

  // The fingerprints of a list of token hashes.
  ghost predicate IsFingerprint(ids: seq<int>, k: nat, w: int, m: int)
  {
    k <= |ids| && IsPicked(GramHashes(ids, k), w, m)
  }

  // The length from which on a shared run is always detected.
  function DetectedFrom(k: nat, w: int): nat
  {
    k + (if w > 1 then w else 1) - 1
  }

  // -------------------------------------------------------------------------
  // The rolling hash
  // -------------------------------------------------------------------------

  // Dropping the leading digit.
  lemma {:induction false} PolynomialDropsFirst(ids: seq<int>)
    requires ids != []
    ensures Polynomial(ids) == ids[0] * Power(BASE, |ids| - 1) + Polynomial(ids[1..])
  {
    if |ids| > 1 {
      var n := |ids| - 1;
      PolynomialDropsFirst(ids[..n]);
      assert ids[..n][1..] == ids[1..][..n - 1];
      assert Polynomial(ids[1..]) == Polynomial(ids[1..][..n - 1]) * BASE + ids[n];
      calc {
        Polynomial(ids);
        (ids[0] * Power(BASE, n - 1) + Polynomial(ids[..n][1..])) * BASE + ids[n];
        ids[0] * Power(BASE, n - 1) * BASE + Polynomial(ids[1..]);
        { PowerStep(ids[0], n); }
        ids[0] * Power(BASE, n) + Polynomial(ids[1..]);
      }
    }
  }

  lemma PowerStep(d: int, n: nat)
    requires n > 0
    ensures d * Power(BASE, n - 1) * BASE == d * Power(BASE, n)
  {
  }

  // One rolling step, on the exact numbers.
  lemma PolynomialRolls(ids: seq<int>, i: nat, k: nat)
    requires 0 < k && i + k < |ids|
    ensures Polynomial(ids[i + 1..i + 1 + k]) ==
            (Polynomial(ids[i..i + k]) - ids[i] * Power(BASE, k - 1)) * BASE + ids[i + k]
  {
    var gram, next := ids[i..i + k], ids[i + 1..i + 1 + k];
    PolynomialDropsFirst(gram);
    assert next[..k - 1] == gram[1..];
  }

  ghost predicate Congruent(a: int, b: int)
  {
    exists q :: a == b + q * MOD
  }

  lemma CongruentMods(a: int, b: int)
    requires Congruent(a, b)
    ensures a % MOD == b % MOD
  {
    var q :| a == b + q * MOD;
    ModAddsMultiple(b, q);
  }

  lemma ModAddsMultiple(b: int, q: int)
    ensures (b + q * MOD) % MOD == b % MOD
  {
    var r := b % MOD;
    var d := b / MOD;
    assert b + q * MOD == (d + q) * MOD + r;
    DivisionUnique(b + q * MOD, d + q, r);
  }

  lemma DivisionUnique(x: int, d: int, r: int)
    requires x == d * MOD + r && 0 <= r < MOD
    ensures x % MOD == r
  {
    var d', r' := x / MOD, x % MOD;
    assert x == d' * MOD + r';
    assert (d - d') * MOD == r' - r;
  }

  // The step keeps the hash right although it works on remainders only.
  lemma RollKeepsHash(p: int, h: int, t: int, power: int, high: int, next: int)
    requires h == p % MOD && high == power % MOD
    ensures ((h - t * high) * BASE + next) % MOD == ((p - t * power) * BASE + next) % MOD
  {
    var a, b := p / MOD, power / MOD;
    assert p == a * MOD + h && power == b * MOD + high;
    RollDifference(a, b, h, t, high, next);
    CongruentMods((h - t * high) * BASE + next, (p - t * power) * BASE + next);
  }

  lemma RollDifference(a: int, b: int, h: int, t: int, high: int, next: int)
    ensures Congruent((h - t * high) * BASE + next, (a * MOD + h - t * (b * MOD + high)) * BASE + next)
  {
    var q := -(a - t * b) * BASE;
    assert t * (b * MOD + high) == t * b * MOD + t * high;
    assert (h - t * high) * BASE + next == (a * MOD + h - t * (b * MOD + high)) * BASE + next + q * MOD;
  }

  // A power of BASE modulo MOD; a negative exponent is one of the inverse.
  ghost function PowerModulo(e: int): int
  {
    if e >= 0 then Power(BASE, e) % MOD else Power(INVERSE, -e) % MOD
  }

  method PowerMod(e: int) returns (r: int)
    ensures r == PowerModulo(e)
  {
    var base, n := BASE, e;
    if e < 0 {
      base, n := INVERSE, -e;
    }
    r := 1;
    for i := 0 to n
      invariant r == Power(base, i) % MOD
    {
      ScaleKeepsMod(Power(base, i), base);
      r := r * base % MOD;
      assert Power(base, i) * base == Power(base, i + 1);
    }
  }

  lemma ScaleKeepsMod(p: int, b: int)
    ensures (p % MOD) * b % MOD == p * b % MOD
  {
    var q := p / MOD;
    assert (p % MOD) * b == p * b + (-(q * b)) * MOD;
    CongruentMods((p % MOD) * b, p * b);
  }

  // One token more in the first k-gram.
  lemma HornerStep(ids: seq<int>, i: nat)
    requires i < |ids|
    ensures GramHash(ids[..i + 1]) == (GramHash(ids[..i]) * BASE + ids[i]) % MOD
  {
    RollKeepsHash(Polynomial(ids[..i]), GramHash(ids[..i]), 0, 0, 0, ids[i]);
    assert ids[..i + 1][..i] == ids[..i];
  }

  // One token further: the oldest leaves, the next one enters.
  lemma RollStep(ids: seq<int>, i: nat, k: nat, high: int)
    requires 0 < k <= i < |ids| && high == Power(BASE, k - 1) % MOD
    ensures GramHash(ids[i - k + 1..i + 1]) == ((GramHash(ids[i - k..i]) - ids[i - k] * high) * BASE + ids[i]) % MOD
  {
    PolynomialRolls(ids, i - k, k);
    assert ids[i - k..i - k + k] == ids[i - k..i] && ids[i - k + 1..i - k + 1 + k] == ids[i - k + 1..i + 1];
    RollKeepsHash(Polynomial(ids[i - k..i]), GramHash(ids[i - k..i]), ids[i - k], Power(BASE, k - 1), high, ids[i]);
  }

  // A gram of no tokens loses and gains the same one.
  lemma EmptyRoll(t: int)
    ensures ((0 - t * PowerModulo(-1)) * BASE + t) % MOD == 0
  {
    assert Power(INVERSE, 1) == INVERSE * Power(INVERSE, 0) == INVERSE;
    assert INVERSE % MOD == INVERSE;
    var q := (INVERSE * BASE - 1) / MOD;
    assert INVERSE * BASE == 1 + q * MOD;
    EmptyRollQuotient(t, q);
    CongruentMods((0 - t * INVERSE) * BASE + t, 0);
  }

  lemma EmptyRollQuotient(t: int, q: int)
    requires INVERSE * BASE == 1 + q * MOD
    ensures Congruent((0 - t * INVERSE) * BASE + t, 0)
  {
    assert t * INVERSE * BASE == t * (1 + q * MOD) by { Regroup(t, INVERSE, BASE); }
    assert (0 - t * INVERSE) * BASE + t == 0 + (-(t * q)) * MOD;
  }

  lemma Regroup(a: int, b: int, c: int)
    ensures a * b * c == a * (b * c)
  {
  }

  lemma RollAny(ids: seq<int>, i: nat, k: nat)
    requires k <= i < |ids|
    ensures GramHash(ids[i - k + 1..i + 1]) ==
            ((GramHash(ids[i - k..i]) - ids[i - k] * PowerModulo(k - 1)) * BASE + ids[i]) % MOD
  {
    hide PowerModulo;
    if k == 0 {
      assert ids[i + 1..i + 1] == [] && ids[i..i] == [];
      EmptyRoll(ids[i]);
    } else {
      PositivePower(k - 1);
      RollStep(ids, i, k, PowerModulo(k - 1));
    }
  }

  lemma PositivePower(e: nat)
    ensures PowerModulo(e) == Power(BASE, e) % MOD
  {
  }

  datatype Outcome<T> = Picked(value: T) | IndexError

  // Indexing counts negative indices from the end.
  predicate HasIndex(ids: seq<int>, j: int) { -|ids| <= j < |ids| }

  function At(ids: seq<int>, j: int): int
    requires HasIndex(ids, j)
  {
    if j < 0 then ids[|ids| + j] else ids[j]
  }

  // The hashes of the k-grams that end before token n.
  ghost predicate Hashed(ids: seq<int>, k: nat, n: nat, hashes: seq<int>)
    requires k <= n <= |ids|
  {
    |hashes| == n - k + 1 && forall j :: 0 <= j <= n - k ==> hashes[j] == GramHash(ids[j..j + k])
  }

  lemma HashedFirst(ids: seq<int>, k: nat)
    requires k <= |ids|
    ensures Hashed(ids, k, k, [GramHash(ids[..k])])
  {
    assert ids[0..0 + k] == ids[..k];
  }

  lemma HashedMore(ids: seq<int>, k: nat, n: nat, hashes: seq<int>)
    requires k <= n < |ids| && Hashed(ids, k, n, hashes)
    ensures Hashed(ids, k, n + 1, hashes + [((hashes[n - k] - ids[n - k] * PowerModulo(k - 1)) * BASE + ids[n]) % MOD])
  {
    hide GramHash, PowerModulo;
    RollAny(ids, n, k);
    assert ids[n - k + 1..n - k + 1 + k] == ids[n - k + 1..n + 1];
    assert ids[n - k..n - k + k] == ids[n - k..n];
  }

  // The first k-gram.
  method FirstHash(ids: seq<int>, k: int) returns (h: int)
    requires k <= |ids|
    ensures k >= 0 ==> h == GramHash(ids[..k])
  {
    h := 0;
    assert GramHash(ids[..0]) == 0;
    hide GramHash;
    for i := 0 to if k < 0 then 0 else k
      invariant h == GramHash(ids[..i])
    {
      HornerStep(ids, i);
      h := (h * BASE + ids[i]) % MOD;
    }
  }

  // The loop over the token list: one step per token after the first k.
  method RollingHashes(ids: seq<int>, k: int) returns (r: Outcome<seq<int>>)
    requires k <= |ids|
    ensures r.IndexError? <==> k < 0
    ensures r.Picked? ==> r.value == GramHashes(ids, k)
  {
    hide Power, PowerModulo, GramHash, Hashed;
    var high := PowerMod(k - 1);
    var h := FirstHash(ids, k);
    var hashes := [h];
    if k >= 0 {
      HashedFirst(ids, k);
    }
    var i := k;
    while i < |ids|
      invariant k <= i && (k < 0 ==> i <= |ids| + k) && (k >= 0 ==> i <= |ids|)
      invariant hashes != [] && h == hashes[|hashes| - 1]
      invariant k >= 0 ==> Hashed(ids, k, i, hashes)
      decreases |ids| - i
    {
      if !HasIndex(ids, i - k) || !HasIndex(ids, i) {
        return IndexError;
      }
      if k >= 0 {
        HashedSize(ids, k, i, hashes);
        HashedMore(ids, k, i, hashes);
      }
      h := ((h - At(ids, i - k) * high) * BASE + At(ids, i)) % MOD;
      hashes := hashes + [h];
      i := i + 1;
    }
    HashedAll(ids, k, hashes);
    r := Picked(hashes);
  }

  lemma HashedSize(ids: seq<int>, k: nat, n: nat, hashes: seq<int>)
    requires k <= n <= |ids| && Hashed(ids, k, n, hashes)
    ensures |hashes| == n - k + 1
  {
  }

  lemma HashedAll(ids: seq<int>, k: nat, hashes: seq<int>)
    requires k <= |ids| && Hashed(ids, k, |ids|, hashes)
    ensures hashes == GramHashes(ids, k)
  {
    hide GramHash;
  }

  // -------------------------------------------------------------------------
  // The monotonic deque
  // -------------------------------------------------------------------------

  // Indices in order, their hashes increasing.
  ghost predicate Monotonic(hashes: seq<int>, dq: seq<nat>, n: nat)
    requires n <= |hashes|
  {
    && (forall t :: 0 <= t < |dq| ==> dq[t] < n)
    && (forall s, t :: 0 <= s < t < |dq| ==> dq[s] < dq[t] && hashes[dq[s]] < hashes[dq[t]])
  }

  // Some queued index at or after j has a hash no larger than the one at j.
  ghost predicate Covered(hashes: seq<int>, dq: seq<nat>, j: nat)
    requires j < |hashes| && forall t :: 0 <= t < |dq| ==> dq[t] < |hashes|
  {
    exists t :: 0 <= t < |dq| && j <= dq[t] && hashes[dq[t]] <= hashes[j]
  }

  // Take the indices whose hashes are no better than the new one off the back.
  method PopBack(hashes: seq<int>, dq0: seq<nat>, i: nat, ghost lo: int) returns (dq: seq<nat>)
    requires i < |hashes| && Monotonic(hashes, dq0, i)
    requires forall j :: lo <= j < i && 0 <= j ==> Covered(hashes, dq0, j)
    ensures |dq| <= |dq0| && dq == dq0[..|dq|]
    ensures Monotonic(hashes, dq + [i], i + 1)
    ensures forall j :: lo <= j <= i && 0 <= j ==> Covered(hashes, dq + [i], j)
  {
    hide Covered;
    dq := dq0;
    while dq != [] && hashes[dq[|dq| - 1]] >= hashes[i]
      invariant |dq| <= |dq0| && dq == dq0[..|dq|] && Monotonic(hashes, dq, i)
      invariant forall j :: lo <= j < i && 0 <= j ==> Covered(hashes, dq, j) || hashes[j] >= hashes[i]
      decreases |dq|
    {
      ghost var before := dq;
      dq := dq[..|dq| - 1];
      forall j | lo <= j < i && 0 <= j
        ensures Covered(hashes, dq, j) || hashes[j] >= hashes[i]
      {
        if Covered(hashes, before, j) {
          CoveredButLast(hashes, before, j);
        }
      }
    }
    MonotonicPush(hashes, dq, i);
    forall j | lo <= j <= i && 0 <= j
      ensures Covered(hashes, dq + [i], j)
    {
      CoveredPush(hashes, dq, i, j);
    }
  }

  lemma MonotonicPush(hashes: seq<int>, dq: seq<nat>, i: nat)
    requires i < |hashes| && Monotonic(hashes, dq, i) && (dq != [] ==> hashes[dq[|dq| - 1]] < hashes[i])
    ensures Monotonic(hashes, dq + [i], i + 1)
  {
    var q := dq + [i];
    assert forall t :: 0 <= t < |dq| ==> q[t] == dq[t] && hashes[dq[t]] <= hashes[dq[|dq| - 1]];
  }

  lemma CoveredButLast(hashes: seq<int>, dq: seq<nat>, j: nat)
    requires j < |hashes| && dq != [] && (forall t :: 0 <= t < |dq| ==> dq[t] < |hashes|) && Covered(hashes, dq, j)
    ensures Covered(hashes, dq[..|dq| - 1], j) || hashes[dq[|dq| - 1]] <= hashes[j]
  {
    var t :| 0 <= t < |dq| && j <= dq[t] && hashes[dq[t]] <= hashes[j];
    if t < |dq| - 1 {
      assert dq[..|dq| - 1][t] == dq[t];
    }
  }

  lemma CoveredPush(hashes: seq<int>, dq: seq<nat>, i: nat, j: nat)
    requires j <= i < |hashes| && (forall t :: 0 <= t < |dq| ==> dq[t] < |hashes|)
    requires j == i || Covered(hashes, dq, j) || hashes[j] >= hashes[i]
    ensures Covered(hashes, dq + [i], j)
  {
    var q := dq + [i];
    if j < i && Covered(hashes, dq, j) {
      var t :| 0 <= t < |dq| && j <= dq[t] && hashes[dq[t]] <= hashes[j];
      assert q[t] == dq[t];
    } else {
      assert q[|dq|] == i;
    }
  }

  // Take the indices that have left the window off the front. The newest index never leaves.
  method PopFront(hashes: seq<int>, dq0: seq<nat>, i: nat, w: int) returns (dq: seq<nat>)
    requires w >= 1 && i < |hashes| && Monotonic(hashes, dq0, i + 1) && dq0 != [] && dq0[|dq0| - 1] == i
    requires forall j :: i - w < j <= i && 0 <= j ==> Covered(hashes, dq0, j)
    ensures 0 < |dq| <= |dq0| && Monotonic(hashes, dq, i + 1) && dq[0] > i - w
    ensures dq == dq0[|dq0| - |dq|..]
    ensures forall j :: i - w < j <= i && 0 <= j ==> Covered(hashes, dq, j)
  {
    dq := dq0;
    while dq[0] <= i - w
      invariant 0 < |dq| <= |dq0| && Monotonic(hashes, dq, i + 1) && dq[|dq| - 1] == i
      invariant dq == dq0[|dq0| - |dq|..]
      invariant forall j :: i - w < j <= i && 0 <= j ==> Covered(hashes, dq, j)
      decreases |dq|
    {
      ghost var before := dq;
      dq := dq[1..];
      forall j | i - w < j <= i && 0 <= j
        ensures Covered(hashes, dq, j)
      {
        assert Covered(hashes, before, j);
        var t :| 0 <= t < |before| && j <= before[t] && hashes[before[t]] <= hashes[j];
        assert dq[t - 1] == before[t];
      }
    }
  }

  lemma FrontIsLeast(hashes: seq<int>, dq: seq<nat>, i: nat, w: nat)
    requires w >= 1 && w - 1 <= i < |hashes| && Monotonic(hashes, dq, i + 1) && dq != [] && dq[0] > i - w
    requires forall j :: i - w < j <= i && 0 <= j ==> Covered(hashes, dq, j)
    ensures LeastOfWindow(hashes, w, i - w + 1, hashes[dq[0]])
  {
    var lo := i - w + 1;
    var window := hashes[lo..lo + w];
    assert window[dq[0] - lo] == hashes[dq[0]];
    forall x | x in window
      ensures hashes[dq[0]] <= x
    {
      var j :| 0 <= j < |window| && window[j] == x;
      assert Covered(hashes, dq, lo + j);
    }
  }

  lemma LeastIsUnique(s: seq<int>, a: int, b: int)
    requires IsLeast(s, a) && IsLeast(s, b)
    ensures a == b
  {
  }

  function UpTo(n: nat): seq<nat>
  {
    seq(n, i => i)
  }

  // After n hashes: of the last w indices, those with a smaller hash than every later one are queued.
  ghost predicate Queued(hashes: seq<int>, w: nat, dq: seq<nat>, n: nat)
    requires n <= |hashes|
  {
    && Monotonic(hashes, dq, n)
    && (forall t :: 0 <= t < |dq| ==> dq[t] >= n - w)
    && (forall j: nat :: n - w <= j < n ==> Covered(hashes, dq, j))
  }

  ghost predicate PickedSoFar(hashes: seq<int>, w: nat, n: nat, picked: set<int>)
    requires w > 0
  {
    forall m :: m in picked <==> exists s :: s + w <= n && LeastOfWindow(hashes, w, s, m)
  }

  // Every index up to n is still queued or was popped, once.
  ghost predicate Accounted(popped: seq<nat>, dq: seq<nat>, n: nat)
  {
    multiset(popped) + multiset(dq) == multiset(UpTo(n))
  }

  lemma SplitCounts(s: seq<nat>, k: nat)
    requires k <= |s|
    ensures multiset(s) == multiset(s[..k]) + multiset(s[k..])
  {
    assert s == s[..k] + s[k..];
  }

  lemma Regrouped(popped: multiset<nat>, stay: multiset<nat>, back: multiset<nat>, added: multiset<nat>,
                  front: multiset<nat>, rest: multiset<nat>)
    requires stay + added == front + rest
    ensures (popped + back + front) + rest == (popped + (stay + back)) + added
  {
    assert (popped + back + front) + rest == (popped + back) + (front + rest);
  }

  lemma AccountedMore(popped: seq<nat>, before: seq<nat>, a: nat, b: nat, n: nat)
    requires Accounted(popped, before, n) && a <= |before| && b <= a + 1
    ensures var full := before[..a] + [n];
            Accounted(popped + before[a..] + full[..b], full[b..], n + 1)
  {
    var full := before[..a] + [n];
    SplitCounts(before, a);
    SplitCounts(full, b);
    assert UpTo(n + 1) == UpTo(n) + [n];
    Regrouped(multiset(popped), multiset(before[..a]), multiset(before[a..]), multiset([n]), multiset(full[..b]), multiset(full[b..]));
  }

  // One pass: each index is queued once, and leaves the deque once or is still queued at the end.
  method WindowMinima(hashes: seq<int>, w: nat) returns (picked: set<int>, ghost popped: seq<nat>, ghost left: seq<nat>)
    requires w >= 2
    ensures forall m :: m in picked <==> IsPicked(hashes, w, m)
    ensures Accounted(popped, left, |hashes|) && Queued(hashes, w, left, |hashes|)
  {
    hide Accounted, Queued, PickedSoFar, Monotonic, Covered, LeastOfWindow, UpTo;
    picked, popped := {}, [];
    var dq: seq<nat> := [];
    NothingQueued(hashes, w);
    for i := 0 to |hashes|
      invariant Queued(hashes, w, dq, i) && Accounted(popped, dq, i) && PickedSoFar(hashes, w, i, picked)
    {
      ghost var before := dq;
      QueuedFacts(hashes, w, dq, i);
      dq := PopBack(hashes, dq, i, i - w + 1);
      ghost var a := |dq|;
      dq := dq + [i];
      dq := PopFront(hashes, dq, i, w);
      ghost var b := a + 1 - |dq|;
      AccountedMore(popped, before, a, b, i);
      popped := popped + before[a..] + (before[..a] + [i])[..b];
      StillQueued(hashes, w, dq, i);
      if i >= w - 1 {
        FrontIsLeast(hashes, dq, i, w);
        AddPicked(hashes, w, i, picked, hashes[dq[0]]);
        picked := picked + {hashes[dq[0]]};
      } else {
        NothingPicked(hashes, w, i, picked);
      }
    }
    left := dq;
    AllPicked(hashes, w, picked);
  }

  lemma NothingQueued(hashes: seq<int>, w: nat)
    requires w >= 2
    ensures Queued(hashes, w, [], 0) && Accounted([], [], 0) && PickedSoFar(hashes, w, 0, {})
  {
    assert UpTo(0) == [];
  }

  lemma QueuedFacts(hashes: seq<int>, w: nat, dq: seq<nat>, i: nat)
    requires i < |hashes| && Queued(hashes, w, dq, i)
    ensures Monotonic(hashes, dq, i) && forall j :: i - w + 1 <= j < i && 0 <= j ==> Covered(hashes, dq, j)
  {
    hide Covered;
  }

  lemma StillQueued(hashes: seq<int>, w: nat, dq: seq<nat>, i: nat)
    requires i < |hashes| && Monotonic(hashes, dq, i + 1) && dq != [] && dq[0] > i - w
    requires forall j :: i - w < j <= i && 0 <= j ==> Covered(hashes, dq, j)
    ensures Queued(hashes, w, dq, i + 1) && dq[0] < |hashes|
  {
    hide Covered;
  }

  // The least of one more window is picked.
  lemma AddPicked(hashes: seq<int>, w: nat, i: nat, picked: set<int>, least: int)
    requires w >= 1 && w - 1 <= i < |hashes| && LeastOfWindow(hashes, w, i - w + 1, least)
    requires PickedSoFar(hashes, w, i, picked)
    ensures PickedSoFar(hashes, w, i + 1, picked + {least})
  {
    forall m
      ensures m in picked + {least} <==> exists s :: s + w <= i + 1 && LeastOfWindow(hashes, w, s, m)
    {
      if LeastOfWindow(hashes, w, i - w + 1, m) {
        LeastIsUnique(hashes[i - w + 1..i - w + 1 + w], m, least);
      }
    }
  }

  lemma NothingPicked(hashes: seq<int>, w: nat, i: nat, picked: set<int>)
    requires w >= 1 && i < w - 1 && PickedSoFar(hashes, w, i, picked)
    ensures PickedSoFar(hashes, w, i + 1, picked)
  {
    forall m, s | s + w <= i + 1
      ensures !LeastOfWindow(hashes, w, s, m)
    {
    }
  }

  lemma AllPicked(hashes: seq<int>, w: nat, picked: set<int>)
    requires w >= 2 && PickedSoFar(hashes, w, |hashes|, picked)
    ensures forall m :: m in picked <==> IsPicked(hashes, w, m)
  {
  }

  // -------------------------------------------------------------------------
  // Fingerprints, and what they guarantee
  // -------------------------------------------------------------------------

  // hash(t) & 0xFFFFFFFF, for whatever hash the interpreter uses.
  function TokenIds<T>(tokens: seq<T>, hash: T -> int): seq<int>
  {
    seq(|tokens|, i requires 0 <= i < |tokens| => hash(tokens[i]) % 0x1_0000_0000)
  }

  // One number for each token, made of that token alone.
  lemma TokenIdsEach<T>(p: seq<T>, t: seq<T>, token: T, hash: T -> int)
    ensures TokenIds(p + t, hash) == TokenIds(p, hash) + TokenIds(t, hash)
    ensures TokenIds([token], hash) == [hash(token) % 4294967296]
  {
  }

  // The set that is returned for a list of tokens.
  ghost predicate IsResult<T>(found: set<int>, tokens: seq<T>, hash: T -> int, k: nat, w: int)
  {
    forall m :: m in found <==> IsFingerprint(TokenIds(tokens, hash), k, w, m)
  }

  // A negative k runs past the end of the list.
  method Fingerprints<T>(tokens: seq<T>, hash: T -> int, k: int, w: int) returns (r: Outcome<set<int>>)
    ensures r.IndexError? <==> k < 0
    ensures r.Picked? ==> IsResult(r.value, tokens, hash, k, w)
  {
    if |tokens| < k {
      return Picked({});
    }
    hide GramHashes;
    var rolled := RollingHashes(TokenIds(tokens, hash), k);
    if rolled.IndexError? {
      return IndexError;
    }
    var hashes := rolled.value;
    if w <= 1 {
      return Picked(set m | m in hashes);
    }
    var picked, _, _ := WindowMinima(hashes, w);
    r := Picked(picked);
  }

  // The hash of a k-gram does not depend on where in the file it is.
  lemma HashesShift(p: seq<int>, t: seq<int>, s: seq<int>, k: nat, i: nat)
    requires i + k <= |t|
    ensures GramHashes(p + t + s, k)[|p| + i] == GramHashes(t, k)[i]
  {
    assert (p + t + s)[|p| + i..|p| + i + k] == t[i..i + k];
  }

  // Surrounding code only adds fingerprints.
  lemma FingerprintsSurvive(p: seq<int>, t: seq<int>, s: seq<int>, k: nat, w: int, m: int)
    requires IsFingerprint(t, k, w, m)
    ensures IsFingerprint(p + t + s, k, w, m)
  {
    var small, large := GramHashes(t, k), GramHashes(p + t + s, k);
    forall i | 0 <= i < |small|
      ensures large[|p| + i] == small[i]
    {
      HashesShift(p, t, s, k, i);
    }
    hide GramHashes;
    if w <= 1 {
      var i :| 0 <= i < |small| && small[i] == m;
      assert large[|p| + i] == m;
    } else {
      var i :| LeastOfWindow(small, w, i, m);
      assert small[i..i + w] == large[|p| + i..|p| + i + w];
      assert LeastOfWindow(large, w, |p| + i, m);
    }
  }

  lemma {:induction false} LeastExists(s: seq<int>) returns (m: int)
    requires s != []
    ensures IsLeast(s, m)
  {
    if |s| == 1 {
      m := s[0];
    } else {
      var init, last := s[..|s| - 1], s[|s| - 1];
      assert s == init + [last];
      m := LeastExists(init);
      if last < m {
        m := last;
      }
    }
  }

  // A list of k + w - 1 tokens, or of k when no window is used, has a fingerprint.
  lemma LongRunHasFingerprint(run: seq<int>, k: nat, w: int) returns (m: int)
    requires |run| >= DetectedFrom(k, w)
    ensures IsFingerprint(run, k, w, m)
  {
    var hashes := GramHashes(run, k);
    if w <= 1 {
      m := hashes[0];
    } else {
      m := LeastExists(hashes[0..0 + w]);
      assert LeastOfWindow(hashes, w, 0, m);
    }
  }

  // The documented guarantee: two lists that share a run of k + w - 1 tokens share a fingerprint.
  lemma SharedRunIsDetected(p: seq<int>, s: seq<int>, p': seq<int>, s': seq<int>, run: seq<int>, k: nat, w: int)
    requires |run| >= DetectedFrom(k, w)
    ensures exists m :: IsFingerprint(p + run + s, k, w, m) && IsFingerprint(p' + run + s', k, w, m)
  {
    var m := LongRunHasFingerprint(run, k, w);
    FingerprintsSurvive(p, run, s, k, w, m);
    FingerprintsSurvive(p', run, s', k, w, m);
  }

  // For lists of tokens: code around a list only adds to what is returned for it ...
  lemma ResultsGrow<T>(p: seq<T>, t: seq<T>, s: seq<T>, hash: T -> int, k: nat, w: int, found: set<int>, all: set<int>)
    requires IsResult(found, t, hash, k, w) && IsResult(all, p + t + s, hash, k, w)
    ensures found <= all
  {
    hide IsFingerprint, TokenIds;
    IdsOfThree(p, t, s, hash);
    forall m | m in found
      ensures m in all
    {
      FingerprintsSurvive(TokenIds(p, hash), TokenIds(t, hash), TokenIds(s, hash), k, w, m);
    }
  }

  lemma IdsOfThree<T>(p: seq<T>, t: seq<T>, s: seq<T>, hash: T -> int)
    ensures TokenIds(p + t + s, hash) == TokenIds(p, hash) + TokenIds(t, hash) + TokenIds(s, hash)
    ensures |TokenIds(t, hash)| == |t|
  {
  }

  // ... and lists that share a run of k + max(w, 1) - 1 tokens have results in common, so that a file with such a
  // run hits the other tree's corpus.
  lemma SharedTokensAreReported<T>(p: seq<T>, s: seq<T>, p': seq<T>, s': seq<T>, run: seq<T>, hash: T -> int, k: nat, w: int,
                                   file: set<int>, other: set<int>, corpus: set<int>)
    requires |run| >= DetectedFrom(k, w) && IsResult(file, p + run + s, hash, k, w)
    requires IsResult(other, p' + run + s', hash, k, w) && other <= corpus
    ensures |file * corpus| > 0
  {
    hide IsFingerprint, TokenIds;
    IdsOfThree(p, run, s, hash);
    IdsOfThree(p', run, s', hash);
    var ids := TokenIds(run, hash);
    SharedRunIsDetected(TokenIds(p, hash), TokenIds(s, hash), TokenIds(p', hash), TokenIds(s', hash), ids, k, w);
    var m :| IsFingerprint(TokenIds(p, hash) + ids + TokenIds(s, hash), k, w, m)
             && IsFingerprint(TokenIds(p', hash) + ids + TokenIds(s', hash), k, w, m);
    assert m in file && m in other && m in corpus;
    assert m in file * corpus;
  }

  // Two lists that differ in a single number never hash alike.
  lemma {:induction false} OneTokenChangesHash(before: seq<int>, x: int, y: int, after: seq<int>)
    requires 0 <= x < 4294967296 && 0 <= y < 4294967296 && x != y
    ensures GramHash(before + [x] + after) != GramHash(before + [y] + after)
    decreases |after|
  {
    var a, b := before + [x] + after, before + [y] + after;
    if after == [] {
      assert a[..|a| - 1] == before == b[..|b| - 1];
      SmallStep(Polynomial(before) * BASE, x, y);
    } else {
      var n := |after| - 1;
      OneTokenChangesHash(before, x, y, after[..n]);
      assert a[..|a| - 1] == before + [x] + after[..n] && b[..|b| - 1] == before + [y] + after[..n];
      if GramHash(a) == GramHash(b) {
        LastCancels(Polynomial(a[..|a| - 1]), Polynomial(b[..|b| - 1]), after[n]);
      }
    }
  }

  lemma SmallStep(q: int, x: int, y: int)
    requires 0 <= x < 4294967296 && 0 <= y < 4294967296 && x != y
    ensures (q + x) % MOD != (q + y) % MOD
  {
    var d, e := (q + x) / MOD, (q + y) / MOD;
    assert q + x == d * MOD + (q + x) % MOD && q + y == e * MOD + (q + y) % MOD;
    assert (q + x) % MOD == (q + y) % MOD ==> x - y == (d - e) * MOD;
  }

  // A common last token can be taken off, since BASE has an inverse.
  lemma LastCancels(p: int, q: int, z: int)
    requires (p * BASE + z) % MOD == (q * BASE + z) % MOD
    ensures p % MOD == q % MOD
  {
    var d, e := (p * BASE + z) / MOD, (q * BASE + z) / MOD;
    var r := (INVERSE * BASE - 1) / MOD;
    assert INVERSE * BASE == 1 + r * MOD;
    assert (p - q) * BASE == (d - e) * MOD;
    InverseCancels(p - q, d - e, r);
    assert Congruent(p, q) by { assert p == q + ((d - e) * INVERSE - r * (p - q)) * MOD; }
    CongruentMods(p, q);
  }

  lemma InverseCancels(x: int, d: int, r: int)
    requires INVERSE * BASE == 1 + r * MOD && x * BASE == d * MOD
    ensures x == (d * INVERSE - r * x) * MOD
  {
    assert x * BASE * INVERSE == d * MOD * INVERSE;
    Regroup(x, BASE, INVERSE);
    assert x * (BASE * INVERSE) == x + x * (r * MOD);
    Regroup(x, r, MOD);
    Regroup(d, MOD, INVERSE);
    Regroup(d, INVERSE, MOD);
  }

  ghost predicate ShareFingerprint(a: seq<int>, b: seq<int>, k: nat, w: int)
  {
    exists m :: IsFingerprint(a, k, w, m) && IsFingerprint(b, k, w, m)
  }

  // However they are continued, two lists with a common run of at least n tokens share a fingerprint.
  ghost predicate Guaranteed(n: int, k: nat, w: int)
  {
    forall p, s, p', s', run: seq<int> :: |run| >= n ==> ShareFingerprint(p + run + s, p' + run + s', k, w)
  }

  // A list that is too short has no fingerprint at all.
  lemma ShortHasNone(ids: seq<int>, k: nat, w: int, m: int)
    requires |ids| < DetectedFrom(k, w)
    ensures !IsFingerprint(ids, k, w, m)
  {
    hide GramHash;
  }

  // The guarantee holds for exactly the lengths from there on.
  lemma GuaranteedIff(n: int, k: nat, w: int)
    ensures Guaranteed(n, k, w) <==> (if n > 0 then n else 0) >= DetectedFrom(k, w)
  {
    hide IsFingerprint;
    if (if n > 0 then n else 0) >= DetectedFrom(k, w) {
      forall p, s, p', s', run: seq<int> | |run| >= n
        ensures ShareFingerprint(p + run + s, p' + run + s', k, w)
      {
        SharedRunIsDetected(p, s, p', s', run, k, w);
      }
    } else {
      var run := seq(DetectedFrom(k, w) - 1, _ => 0);
      assert [] + run + [] == run;
      forall m
        ensures !IsFingerprint(run, k, w, m)
      {
        ShortHasNone(run, k, w, m);
      }
      assert !ShareFingerprint([] + run + [], [] + run + [], k, w);
    }
  }

  // So the length that is reported, k + w - 1, is guaranteed exactly when a window is asked for, or k is 0.
  lemma ReportedLengthGuaranteedIff(k: nat, w: int)
    ensures Guaranteed(k + w - 1, k, w) <==> w >= 1 || k == 0
  {
    hide Guaranteed;
    GuaranteedIff(k + w - 1, k, w);
  }
}
