/** _bisect_set of tools/include_unused.py: halving a set of files against a build, with the files stripped
    on disk as the state between builds. */
module Bisection {
  import opened Lists

  // A file, by its number.
  type File = int

  // Does the tree build with exactly these files stripped?
  type Oracle = set<File> -> bool

  // -------------------------------------------------------------------------
  // The search as a function of the oracle
  // -------------------------------------------------------------------------

  function Larger(a: seq<File>, b: seq<File>): seq<File>
  {
    if |a| >= |b| then a else b
  }

  ghost function Bisect(oracle: Oracle, files: seq<File>): seq<File>
    decreases |files|
  {
    if files == [] || oracle(Elems(files)) then files
    else if |files| == 1 then []
    else
      var mid := |files| / 2;
      var left, right := Bisect(oracle, files[..mid]), Bisect(oracle, files[mid..]);
      if oracle(Elems(left + right)) then left + right else Larger(left, right)
  }

  // Is the branch taken in which the two halves, each fine alone, do not build together?
  ghost predicate Interacts(oracle: Oracle, files: seq<File>)
    decreases |files|
  {
    |files| > 1 && !oracle(Elems(files)) &&
    var mid := |files| / 2;
    || Interacts(oracle, files[..mid])
    || Interacts(oracle, files[mid..])
    || !oracle(Elems(Bisect(oracle, files[..mid]) + Bisect(oracle, files[mid..])))
  }

  // How many builds are run.
  ghost function Cost(oracle: Oracle, files: seq<File>): nat
    decreases |files|
  {
    if files == [] then 0
    else if oracle(Elems(files)) || |files| == 1 then 1
    else
      var mid := |files| / 2;
      var union := Elems(Bisect(oracle, files[..mid]) + Bisect(oracle, files[mid..]));
      Cost(oracle, files[..mid]) + Cost(oracle, files[mid..]) + (if oracle(union) then 2 else 3)
  }

  // What is left stripped on disk.
  ghost function LeftStripped(oracle: Oracle, files: seq<File>, before: set<File>): set<File>
  {
    if files == [] then before
    else if |files| == 1 then Elems(files)
    else Elems(Bisect(oracle, files))
  }

  class Workspace {
    const oracle: Oracle
    var stripped: set<File>
    ghost var builds: nat
    ghost var interacted: bool

    constructor (oracle: Oracle)
      ensures this.oracle == oracle && stripped == {} && builds == 0 && !interacted
    {
      this.oracle := oracle;
      stripped, builds, interacted := {}, 0, false;
    }

    // Restore every file, then strip just the subset.
    method ApplyOnly(subset: seq<File>)
      modifies this`stripped
      ensures stripped == Elems(subset)
    {
      stripped := {};
      for i := 0 to |subset|
        invariant stripped == Elems(subset[..i])
      {
        assert subset[..i + 1] == subset[..i] + [subset[i]];
        stripped := stripped + {subset[i]};
      }
      assert subset[..|subset|] == subset;
    }

    method Build() returns (ok: bool)
      modifies this`builds
      ensures ok == oracle(stripped) && builds == old(builds) + 1
    {
      builds := builds + 1;
      ok := oracle(stripped);
    }

    method BisectSet(files: seq<File>) returns (good: seq<File>)
      modifies this
      ensures good == Bisect(oracle, files)
      ensures stripped == LeftStripped(oracle, files, old(stripped))
      ensures builds == old(builds) + Cost(oracle, files)
      ensures interacted == (old(interacted) || Interacts(oracle, files))
      decreases |files|
    {
      if files == [] {
        return [];
      }
      ApplyOnly(files);
      var ok := Build();
      if ok {
        return files;
      }
      if |files| == 1 {
        return [];
      }
      var mid := |files| / 2;
      var left := BisectSet(files[..mid]);
      var right := BisectSet(files[mid..]);
      good := left + right;
      ApplyOnly(good);
      ok := Build();
      if !ok {
        good := Larger(left, right);
        ApplyOnly(good);
        var _ := Build();
        interacted := true;
      }
    }
  }

  // -------------------------------------------------------------------------
  // What it promises
  // -------------------------------------------------------------------------

  ghost predicate Subsequence(a: seq<File>, b: seq<File>)
  {
    a == [] || (b != [] && ((a[0] == b[0] && Subsequence(a[1..], b[1..])) || Subsequence(a, b[1..])))
  }

  lemma {:induction false} SubsequenceSelf(a: seq<File>)
    ensures Subsequence(a, a)
  {
    if a != [] {
      SubsequenceSelf(a[1..]);
    }
  }

  lemma {:induction false} SubsequencePad(a: seq<File>, p: seq<File>, b: seq<File>)
    requires Subsequence(a, b)
    ensures Subsequence(a, p + b)
  {
    if p != [] {
      assert (p + b)[1..] == p[1..] + b;
      SubsequencePad(a, p[1..], b);
    } else {
      assert p + b == b;
    }
  }

  lemma {:induction false} SubsequenceJoin(a: seq<File>, b: seq<File>, c: seq<File>, d: seq<File>)
    requires Subsequence(a, b) && Subsequence(c, d)
    ensures Subsequence(a + c, b + d)
  {
    if a == [] {
      assert a + c == c;
      SubsequencePad(c, b, d);
    } else {
      assert (b + d)[1..] == b[1..] + d && (a + c)[1..] == a[1..] + c;
      if a[0] == b[0] && Subsequence(a[1..], b[1..]) {
        SubsequenceJoin(a[1..], b[1..], c, d);
      } else {
        SubsequenceJoin(a, b[1..], c, d);
      }
    }
  }

  // Whatever the build does, the answer keeps the order of the files, and unless it is empty it builds.
  lemma {:induction false} BisectSound(oracle: Oracle, files: seq<File>)
    ensures Subsequence(Bisect(oracle, files), files)
    ensures Bisect(oracle, files) != [] ==> oracle(Elems(Bisect(oracle, files)))
    ensures oracle({}) ==> oracle(Elems(Bisect(oracle, files)))
    decreases |files|
  {
    SubsequenceSelf(files);
    if files != [] && !oracle(Elems(files)) {
      if |files| == 1 {
        assert Elems<File>([]) == {};
      } else {
        var mid := |files| / 2;
        var left, right := Bisect(oracle, files[..mid]), Bisect(oracle, files[mid..]);
        assert files == files[..mid] + files[mid..];
        BisectSound(oracle, files[..mid]);
        BisectSound(oracle, files[mid..]);
        SubsequenceJoin(left, files[..mid], right, files[mid..]);
        SubsequenceJoin(left, files[..mid], [], files[mid..]);
        SubsequencePad(right, files[..mid], files[mid..]);
        assert left + [] == left;
        assert Elems<File>([]) == {};
      }
    } else if files == [] {
      assert Elems(files) == {};
    }
  }

  // The disk holds exactly the answer, but for two corners: one bad file alone stays stripped, and with no
  // file at all the disk is as it was.
  lemma DiskMatchesAnswer(oracle: Oracle, files: seq<File>, before: set<File>)
    ensures LeftStripped(oracle, files, before) == Elems(Bisect(oracle, files)) <==>
            (|files| >= 2 || (|files| == 1 && oracle(Elems(files))) || (files == [] && before == {}))
  {
    if |files| == 1 && !oracle(Elems(files)) {
      assert files[0] in Elems(files) && files[0] !in Elems<File>([]);
    }
    if files == [] {
      assert Elems(files) == {};
    }
  }

  ghost predicate DownwardClosed(oracle: Oracle, files: set<File>)
  {
    forall s, t :: s <= t <= files && oracle(t) ==> oracle(s)
  }

  // Removals are independent when a set builds exactly if each of its files could be stripped alone.
  ghost predicate Independent(oracle: Oracle, files: set<File>)
  {
    forall s :: s <= files ==> (oracle(s) <==> EachHarmless(oracle, s))
  }

  ghost predicate EachHarmless(oracle: Oracle, s: set<File>)
  {
    forall f :: f in s ==> oracle({f})
  }

  // The files that can be stripped on their own.
  ghost function Harmless(oracle: Oracle, files: seq<File>): seq<File>
  {
    if files == [] then [] else Harmless(oracle, files[..|files| - 1]) + (if oracle({files[|files| - 1]}) then [files[|files| - 1]] else [])
  }

  ghost function BadCount(oracle: Oracle, files: seq<File>): nat
  {
    if files == [] then 0 else BadCount(oracle, files[..|files| - 1]) + (if oracle({files[|files| - 1]}) then 0 else 1)
  }

  lemma {:induction false} HarmlessJoin(oracle: Oracle, a: seq<File>, b: seq<File>)
    ensures Harmless(oracle, a + b) == Harmless(oracle, a) + Harmless(oracle, b)
    ensures BadCount(oracle, a + b) == BadCount(oracle, a) + BadCount(oracle, b)
  {
    if b == [] {
      assert a + b == a;
    } else {
      assert (a + b)[..|a + b| - 1] == a + b[..|b| - 1];
      HarmlessJoin(oracle, a, b[..|b| - 1]);
    }
  }

  lemma {:induction false} HarmlessFacts(oracle: Oracle, files: seq<File>)
    ensures forall f :: f in Harmless(oracle, files) <==> f in files && oracle({f})
    ensures EachHarmless(oracle, Elems(files)) <==> BadCount(oracle, files) == 0
    ensures EachHarmless(oracle, Elems(files)) ==> Harmless(oracle, files) == files
  {
    if files != [] {
      var init, last := files[..|files| - 1], files[|files| - 1];
      assert files == init + [last];
      assert Elems(files) == Elems(init) + {last};
      HarmlessFacts(oracle, init);
    }
  }

  lemma BuildingMeansHarmless(oracle: Oracle, files: seq<File>)
    requires DownwardClosed(oracle, Elems(files)) && oracle(Elems(files))
    ensures EachHarmless(oracle, Elems(files))
  {
    forall f | f in files
      ensures oracle({f})
    {
      assert {f} <= Elems(files);
    }
  }

  // When stripping less never breaks a build and no halves ever interact, the answer is exactly the files
  // that can be stripped on their own ...
  lemma {:induction false} BisectFindsHarmless(oracle: Oracle, files: seq<File>)
    requires DownwardClosed(oracle, Elems(files)) && !Interacts(oracle, files)
    ensures Bisect(oracle, files) == Harmless(oracle, files)
    decreases |files|
  {
    hide DownwardClosed, EachHarmless;
    HarmlessFacts(oracle, files);
    if files == [] {
    } else if oracle(Elems(files)) {
      BuildingMeansHarmless(oracle, files);
    } else if |files| == 1 {
      assert Elems(files) == {files[0]};
      assert files[..0] == [];
    } else {
      var l, r := files[..|files| / 2], files[|files| / 2..];
      assert files == l + r;
      HalfDownwardClosed(oracle, files, l);
      HalfDownwardClosed(oracle, files, r);
      BisectFindsHarmless(oracle, l);
      BisectFindsHarmless(oracle, r);
      HarmlessJoin(oracle, l, r);
    }
  }

  lemma HalfDownwardClosed(oracle: Oracle, files: seq<File>, half: seq<File>)
    requires DownwardClosed(oracle, Elems(files)) && forall f :: f in half ==> f in files
    ensures DownwardClosed(oracle, Elems(half))
  {
    assert forall f :: f in Elems(half) ==> f in Elems(files);
    assert Elems(half) <= Elems(files);
  }

  // ... and then no other subset that builds has a file the answer lacks: it is the largest.
  lemma BisectIsLargest(oracle: Oracle, files: seq<File>, other: set<File>)
    requires DownwardClosed(oracle, Elems(files)) && !Interacts(oracle, files)
    requires other <= Elems(files) && oracle(other)
    ensures other <= Elems(Bisect(oracle, files))
  {
    BisectFindsHarmless(oracle, files);
    HarmlessFacts(oracle, files);
    forall f | f in other
      ensures f in Elems(Bisect(oracle, files))
    {
      assert {f} <= other;
    }
  }

  lemma IndependentIsDownwardClosed(oracle: Oracle, files: set<File>)
    requires Independent(oracle, files)
    ensures DownwardClosed(oracle, files)
  {
  }

  lemma HalvesIndependent(oracle: Oracle, files: seq<File>, half: seq<File>)
    requires Independent(oracle, Elems(files)) && forall f :: f in half ==> f in files
    ensures Independent(oracle, Elems(half)) && (oracle(Elems(half)) <==> EachHarmless(oracle, Elems(half)))
  {
    assert forall f :: f in Elems(half) ==> f in Elems(files);
    assert Elems(half) <= Elems(files);
  }

  // Independent removals never interact.
  lemma {:induction false} IndependentNeverInteracts(oracle: Oracle, files: seq<File>)
    requires Independent(oracle, Elems(files))
    ensures !Interacts(oracle, files) && Bisect(oracle, files) == Harmless(oracle, files)
    decreases |files|
  {
    IndependentIsDownwardClosed(oracle, Elems(files));
    HarmlessFacts(oracle, files);
    HalvesIndependent(oracle, files, Harmless(oracle, files));
    assert EachHarmless(oracle, Elems(Harmless(oracle, files)));
    if |files| > 1 && !oracle(Elems(files)) {
      var l, r := files[..|files| / 2], files[|files| / 2..];
      assert files == l + r;
      HalvesIndependent(oracle, files, l);
      HalvesIndependent(oracle, files, r);
      hide Independent, EachHarmless, DownwardClosed;
      IndependentNeverInteracts(oracle, l);
      IndependentNeverInteracts(oracle, r);
      HarmlessJoin(oracle, l, r);
    }
    BisectFindsHarmless(oracle, files);
  }

  // So the documented answer, a set that holds every subset that builds, comes out exactly for independent removals.
  lemma LargestIffIndependent(oracle: Oracle, files: seq<File>)
    requires oracle({}) && DownwardClosed(oracle, Elems(files))
    ensures (forall other :: other <= Elems(files) && oracle(other) ==> other <= Elems(Bisect(oracle, files)))
            <==> Independent(oracle, Elems(files))
  {
    hide Bisect, Interacts;
    var good := Elems(Bisect(oracle, files));
    if Independent(oracle, Elems(files)) {
      IndependentNeverInteracts(oracle, files);
      forall other | other <= Elems(files) && oracle(other)
        ensures other <= good
      {
        BisectIsLargest(oracle, files, other);
      }
    } else {
      BisectSound(oracle, files);
      AnswerIsSubset(oracle, files);
      var s :| s <= Elems(files) && (oracle(s) != EachHarmless(oracle, s));
      if oracle(s) {
        assert forall f :: f in s ==> {f} <= s;
        assert false;
      }
      assert !(s <= good);
      assert (forall f :: f in s ==> f in good) ==> s <= good;
      var f :| f in s && f !in good;
      assert oracle({f}) && {f} <= Elems(files) && !({f} <= good);
    }
  }

  // -------------------------------------------------------------------------
  // Which files are kept when halves interact
  // -------------------------------------------------------------------------

  // When the halves' answers do not build together, the answer is one of them, the left one unless it is shorter.
  lemma InteractionKeepsLonger(oracle: Oracle, files: seq<File>)
    requires |files| > 1 && !oracle(Elems(files))
    requires var left, right := Bisect(oracle, files[..|files| / 2]), Bisect(oracle, files[|files| / 2..]);
             !oracle(Elems(left + right))
    ensures var left, right := Bisect(oracle, files[..|files| / 2]), Bisect(oracle, files[|files| / 2..]);
            Bisect(oracle, files) == if |left| >= |right| then left else right
  {
  }

  lemma LongerThanHalves(oracle: Oracle, files: seq<File>)
    requires |files| > 1
    ensures |Bisect(oracle, files)| >= |Bisect(oracle, files[..|files| / 2])|
    ensures |Bisect(oracle, files)| >= |Bisect(oracle, files[|files| / 2..])|
  {
    NoLonger(oracle, files[..|files| / 2]);
    NoLonger(oracle, files[|files| / 2..]);
  }

  lemma {:induction false} NoLonger(oracle: Oracle, files: seq<File>)
    ensures |Bisect(oracle, files)| <= |files|
    decreases |files|
  {
    if |files| > 1 {
      NoLonger(oracle, files[..|files| / 2]);
      NoLonger(oracle, files[|files| / 2..]);
    }
  }

  // The parts the search looks at: the files themselves, and those of either half.
  ghost predicate IsBlock(block: seq<File>, files: seq<File>)
    decreases |files|
  {
    block == files || (|files| > 1 && (IsBlock(block, files[..|files| / 2]) || IsBlock(block, files[|files| / 2..])))
  }

  // No part that builds is longer than the answer.
  lemma {:induction false} BuildingBlocksAreNoLonger(oracle: Oracle, files: seq<File>, block: seq<File>)
    requires IsBlock(block, files) && oracle(Elems(block))
    ensures |Bisect(oracle, files)| >= |block|
    decreases |files|
  {
    if block != files {
      LongerThanHalves(oracle, files);
      if IsBlock(block, files[..|files| / 2]) {
        BuildingBlocksAreNoLonger(oracle, files[..|files| / 2], block);
      } else {
        BuildingBlocksAreNoLonger(oracle, files[|files| / 2..], block);
      }
    }
  }

  // -------------------------------------------------------------------------
  // The largest by the number of files
  // -------------------------------------------------------------------------

  ghost predicate IsLargest(oracle: Oracle, files: seq<File>)
  {
    forall other :: other <= Elems(files) && oracle(other) ==> |other| <= |Bisect(oracle, files)|
  }

  // Whatever n files there are and whatever the build, as long as stripping less never breaks it.
  ghost predicate AlwaysLargest(n: nat)
  {
    forall oracle: Oracle, files: seq<File> :: |files| == n && Distinct(files) && oracle({}) && DownwardClosed(oracle, Elems(files)) ==>
      IsLargest(oracle, files)
  }

  lemma FewAreLargest(oracle: Oracle, files: seq<File>)
    requires |files| <= 2 && Distinct(files) && DownwardClosed(oracle, Elems(files))
    ensures IsLargest(oracle, files)
  {
    DistinctSize(files);
    forall other | other <= Elems(files) && oracle(other)
      ensures |other| <= |Bisect(oracle, files)|
    {
      SubsetSize(other, Elems(files));
      if !oracle(Elems(files)) {
        SmallerThanAll(oracle, files, other);
      }
    }
  }

  lemma SmallerThanAll(oracle: Oracle, files: seq<File>, other: set<File>)
    requires |files| <= 2 && Distinct(files) && DownwardClosed(oracle, Elems(files)) && !oracle(Elems(files))
    requires other <= Elems(files) && oracle(other)
    ensures |other| <= |Bisect(oracle, files)|
  {
    DistinctSize(files);
    assert other < Elems(files);
    ProperIsSmaller(other, Elems(files));
    if |files| == 2 && |other| == 1 {
      OneOfTwo(oracle, files, other);
    }
  }

  lemma ProperIsSmaller(a: set<File>, b: set<File>)
    requires a < b
    ensures |a| < |b|
  {
    assert b == a + (b - a) && b - a != {};
  }

  lemma OneOfTwo(oracle: Oracle, files: seq<File>, other: set<File>)
    requires |files| == 2 && !oracle(Elems(files)) && other <= Elems(files) && |other| == 1 && oracle(other)
    ensures |Bisect(oracle, files)| >= 1
  {
    var f := AnyOf(other);
    assert |other - {f}| == 0;
    assert other == {f};
    assert files[..1] == [files[0]] && files[1..] == [files[1]];
    assert Elems([files[0]]) == {files[0]} && Elems([files[1]]) == {files[1]};
    assert f == files[0] || f == files[1];
  }

  // Three files of which the middle one, m, goes with neither of the others; no other file can be stripped.
  function Middle(m: int): Oracle
  {
    s => (forall f :: f in s ==> m - 1 <= f <= m + 1) && !(m - 1 in s && m in s) && !(m in s && m + 1 in s)
  }

  function Run(lo: int, hi: int): seq<File>
    requires lo <= hi
  {
    seq(hi - lo, i => lo + i)
  }

  lemma RunFacts(lo: int, mid: int, hi: int)
    requires lo <= mid <= hi
    ensures forall f :: f in Elems(Run(lo, hi)) <==> lo <= f < hi
    ensures Run(lo, hi)[..mid - lo] == Run(lo, mid) && Run(lo, hi)[mid - lo..] == Run(mid, hi)
  {
    forall f | lo <= f < hi
      ensures f in Elems(Run(lo, hi))
    {
      assert Run(lo, hi)[f - lo] == f;
    }
  }

  // What the search keeps of the files before m, and of those from m on.
  function KeptBefore(m: int, lo: int, hi: int): seq<File>
  {
    if lo <= m - 1 < hi then [m - 1] else []
  }

  function KeptFrom(m: int, lo: int, hi: int): seq<File>
  {
    if lo <= m < hi then [m] else if lo <= m + 1 < hi then [m + 1] else []
  }

  lemma MiddleBuilds(m: int, files: seq<File>)
    ensures |files| <= 1 ==> (Middle(m)(Elems(files)) <==> files == [] || m - 1 <= files[0] <= m + 1)
    ensures forall f :: f in Elems(files) && !(m - 1 <= f <= m + 1) ==> !Middle(m)(Elems(files))
    ensures m in Elems(files) && (m - 1 in Elems(files) || m + 1 in Elems(files)) ==> !Middle(m)(Elems(files))
  {
    if |files| == 1 {
      assert Elems(files) == {files[0]};
    }
  }

  // One level of the search on a run of files that do not build together.
  lemma BisectRun(oracle: Oracle, lo: int, mid: int, hi: int)
    requires hi - lo > 1 && mid == lo + (hi - lo) / 2 && !oracle(Elems(Run(lo, hi)))
    ensures var left, right := Bisect(oracle, Run(lo, mid)), Bisect(oracle, Run(mid, hi));
            Bisect(oracle, Run(lo, hi)) == if oracle(Elems(left + right)) then left + right else Larger(left, right)
  {
    hide Larger;
    RunFacts(lo, mid, hi);
  }

  // A run of one file, or none.
  lemma BisectOne(m: int, lo: int, hi: int)
    requires 0 <= hi - lo <= 1
    ensures Bisect(Middle(m), Run(lo, hi)) == if lo < hi && m - 1 <= lo <= m + 1 then [lo] else []
  {
    hide Middle;
    MiddleBuilds(m, Run(lo, hi));
  }

  lemma JoinBefore(m: int, lo: int, mid: int, hi: int)
    requires lo <= mid <= hi <= m
    ensures var left, right := KeptBefore(m, lo, mid), KeptBefore(m, mid, hi);
            KeptBefore(m, lo, hi) == if Middle(m)(Elems(left + right)) then left + right else Larger(left, right)
  {
    hide Middle;
    MiddleBuilds(m, KeptBefore(m, lo, mid) + KeptBefore(m, mid, hi));
  }

  lemma BeforeTooMany(m: int, lo: int, hi: int)
    requires hi - lo > 1 && hi <= m
    ensures !Middle(m)(Elems(Run(lo, hi)))
  {
    hide Middle;
    RunFacts(lo, lo, hi);
    MiddleBuilds(m, Run(lo, hi));
    assert lo in Elems(Run(lo, hi));
  }

  lemma {:induction false} BeforeMiddle(m: int, lo: int, hi: int)
    requires lo <= hi <= m
    ensures Bisect(Middle(m), Run(lo, hi)) == KeptBefore(m, lo, hi)
    decreases hi - lo
  {
    hide Middle, Larger, Bisect, Run;
    if hi - lo > 1 {
      var mid := lo + (hi - lo) / 2;
      BeforeTooMany(m, lo, hi);
      BisectRun(Middle(m), lo, mid, hi);
      BeforeMiddle(m, lo, mid);
      BeforeMiddle(m, mid, hi);
      JoinBefore(m, lo, mid, hi);
    } else {
      BisectOne(m, lo, hi);
    }
  }

  // One level of the search on files from m on.
  lemma JoinFrom(m: int, lo: int, mid: int, hi: int)
    requires m <= lo <= mid <= hi
    ensures var left, right := KeptFrom(m, lo, mid), KeptFrom(m, mid, hi);
            KeptFrom(m, lo, hi) == if Middle(m)(Elems(left + right)) then left + right else Larger(left, right)
  {
    hide Middle;
    var left, right := KeptFrom(m, lo, mid), KeptFrom(m, mid, hi);
    MiddleBuilds(m, left + right);
    if left != [] && right != [] {
      assert left + right == [m, m + 1];
      assert [m, m + 1][0] == m && [m, m + 1][1] == m + 1;
      assert m in Elems(left + right) && m + 1 in Elems(left + right);
    }
  }

  // The whole of them does not build once there are two.
  lemma FromTooMany(m: int, lo: int, hi: int)
    requires m <= lo && hi - lo > 1
    ensures !Middle(m)(Elems(Run(lo, hi)))
  {
    hide Middle;
    RunFacts(lo, lo, hi);
    MiddleBuilds(m, Run(lo, hi));
    assert lo in Elems(Run(lo, hi)) && hi - 1 in Elems(Run(lo, hi)) && lo + 1 in Elems(Run(lo, hi));
  }

  lemma {:induction false} FromMiddle(m: int, lo: int, hi: int)
    requires m <= lo <= hi
    ensures Bisect(Middle(m), Run(lo, hi)) == KeptFrom(m, lo, hi)
    decreases hi - lo
  {
    hide Middle, Larger, Bisect, Run;
    if hi - lo > 1 {
      var mid := lo + (hi - lo) / 2;
      FromTooMany(m, lo, hi);
      BisectRun(Middle(m), lo, mid, hi);
      FromMiddle(m, lo, mid);
      FromMiddle(m, mid, hi);
      JoinFrom(m, lo, mid, hi);
    } else {
      BisectOne(m, lo, hi);
    }
  }

  // From three files on the search can keep one where two could go.
  lemma ManyNeedNot(n: nat)
    requires n >= 3
    ensures !AlwaysLargest(n)
  {
    hide Bisect, Middle;
    var m := n / 2;
    var oracle, files := Middle(m), Run(0, n);
    RunFacts(0, m, n);
    MiddleKeepsOne(m, n);
    MiddleFacts(m, Elems(files));
    assert {m - 1, m + 1} <= Elems(files) && |{m - 1, m + 1}| == 2;
    assert !IsLargest(oracle, files);
  }

  lemma MiddleKeepsOne(m: int, n: nat)
    requires n >= 3 && m == n / 2
    ensures |Bisect(Middle(m), Run(0, n))| == 1
  {
    hide Middle;
    RunFacts(0, m, n);
    BeforeMiddle(m, 0, m);
    FromMiddle(m, m, n);
    assert m in Elems(Run(0, n)) && m - 1 in Elems(Run(0, n));
    MiddleBuilds(m, Run(0, n));
    MiddleBuilds(m, [m - 1] + [m]);
  }

  lemma MiddleFacts(m: int, files: set<File>)
    ensures Middle(m)({}) && Middle(m)({m - 1, m + 1}) && DownwardClosed(Middle(m), files)
  {
  }

  // The answer is a largest subset that builds, however removals depend on each other, exactly for two files at most.
  lemma AlwaysLargestIff(n: nat)
    ensures AlwaysLargest(n) <==> n <= 2
  {
    if n <= 2 {
      forall oracle: Oracle, files: seq<File> | |files| == n && Distinct(files) && oracle({}) && DownwardClosed(oracle, Elems(files))
        ensures IsLargest(oracle, files)
      {
        FewAreLargest(oracle, files);
      }
    } else {
      ManyNeedNot(n);
    }
  }

  lemma {:induction false} SubsequenceElems(a: seq<File>, b: seq<File>)
    requires Subsequence(a, b)
    ensures forall f :: f in a ==> f in b
  {
    if a != [] {
      assert forall f :: f in a ==> f == a[0] || f in a[1..];
      if a[0] == b[0] && Subsequence(a[1..], b[1..]) {
        SubsequenceElems(a[1..], b[1..]);
      } else {
        SubsequenceElems(a, b[1..]);
      }
    }
  }

  lemma AnswerIsSubset(oracle: Oracle, files: seq<File>)
    ensures Elems(Bisect(oracle, files)) <= Elems(files)
  {
    BisectSound(oracle, files);
    hide Bisect;
    var good := Bisect(oracle, files);
    SubsequenceElems(good, files);
    forall f | f in Elems(good)
      ensures f in Elems(files)
    {
    }
  }

  // -------------------------------------------------------------------------
  // What it costs
  // -------------------------------------------------------------------------

  // How often n can be halved, rounding up, before it is 1.
  function CeilLog2(n: nat): nat
  {
    if n <= 1 then 0 else 1 + CeilLog2((n + 1) / 2)
  }

  // It is the base-two logarithm, rounded up.
  lemma {:induction false} CeilLog2IsLog(n: nat)
    requires n >= 1
    ensures n <= Power2(CeilLog2(n)) && (n > 1 ==> Power2(CeilLog2(n) - 1) < n)
  {
    if n > 1 {
      CeilLog2IsLog((n + 1) / 2);
    }
  }

  lemma {:induction false} CeilLog2Monotone(m: nat, n: nat)
    requires m <= n
    ensures CeilLog2(m) <= CeilLog2(n)
  {
    if m > 1 {
      CeilLog2Monotone((m + 1) / 2, (n + 1) / 2);
    }
  }

  // The documented cost of b bad files over so many levels of halving.
  function Budget(bad: nat, levels: nat): nat
  {
    1 + 3 * bad * levels
  }

  lemma BudgetSplits(left: nat, right: nat, levels: nat)
    requires left + right >= 1 && levels >= 1
    ensures Budget(left, levels - 1) + Budget(right, levels - 1) + 2 <= Budget(left + right, levels)
  {
    assert 3 * left * (levels - 1) + 3 * right * (levels - 1) == 3 * (left + right) * levels - 3 * (left + right);
  }

  lemma BudgetGrows(bad: nat, l: nat, l': nat)
    requires l <= l'
    ensures 1 <= Budget(bad, l) <= Budget(bad, l')
  {
    assert 3 * bad * l <= 3 * bad * l';
  }

  lemma OneBuild(oracle: Oracle, files: seq<File>)
    requires files != [] && (oracle(Elems(files)) || |files| == 1)
    ensures Cost(oracle, files) == 1
  {
  }

  lemma CostOfHalves(oracle: Oracle, files: seq<File>)
    requires |files| > 1 && !oracle(Elems(files)) && !Interacts(oracle, files)
    ensures Cost(oracle, files) == Cost(oracle, files[..|files| / 2]) + Cost(oracle, files[|files| / 2..]) + 2
  {
  }

  lemma {:induction false} CostInBudget(oracle: Oracle, files: seq<File>)
    requires Independent(oracle, Elems(files)) && files != []
    ensures Cost(oracle, files) <= Budget(BadCount(oracle, files), CeilLog2(|files|))
    decreases |files|
  {
    hide Budget, EachHarmless, Cost, Interacts, Bisect, Independent, Harmless, BadCount;
    var levels := CeilLog2(|files|);
    if oracle(Elems(files)) || |files| == 1 {
      OneBuild(oracle, files);
      BudgetGrows(BadCount(oracle, files), levels, levels);
    } else {
      var l, r := files[..|files| / 2], files[|files| / 2..];
      HarmlessFacts(oracle, files);
      HalvesIndependent(oracle, files, files);
      IndependentNeverInteracts(oracle, files);
      CostOfHalves(oracle, files);
      assert files == l + r;
      HalvesIndependent(oracle, files, l);
      HalvesIndependent(oracle, files, r);
      CostInBudget(oracle, l);
      CostInBudget(oracle, r);
      HarmlessJoin(oracle, l, r);
      CeilLog2Monotone(|l|, (|files| + 1) / 2);
      CeilLog2Monotone(|r|, (|files| + 1) / 2);
      BudgetGrows(BadCount(oracle, l), CeilLog2(|l|), levels - 1);
      BudgetGrows(BadCount(oracle, r), CeilLog2(|r|), levels - 1);
      BudgetSplits(BadCount(oracle, l), BadCount(oracle, r), levels);
    }
  }

  // With b bad files among n and independent removals: at most 1 + 3 b ceil(log2 n) builds.
  lemma IndependentCost(oracle: Oracle, files: seq<File>)
    requires Independent(oracle, Elems(files)) && files != []
    ensures Cost(oracle, files) <= 1 + 3 * BadCount(oracle, files) * CeilLog2(|files|)
  {
    hide Cost, BadCount, Independent;
    CostInBudget(oracle, files);
  }

  // Whatever the build does, there are at most 4 n - 3 builds.
  lemma {:induction false} WorstCost(oracle: Oracle, files: seq<File>)
    requires files != []
    ensures Cost(oracle, files) <= 4 * |files| - 3
    decreases |files|
  {
    if |files| > 1 {
      WorstCost(oracle, files[..|files| / 2]);
      WorstCost(oracle, files[|files| / 2..]);
    }
  }
}
