/** Small facts about lists and numbers that several components share. */
module Lists {

  ghost predicate Distinct<T>(s: seq<T>)
  {
    forall i, j :: 0 <= i < j < |s| ==> s[i] != s[j]
  }

  ghost function Elems<T>(s: seq<T>): set<T>
  {
    set x | x in s
  }

  // A list read from its end.
  function Backwards<T>(s: seq<T>): (r: seq<T>)
    ensures |r| == |s| && forall i :: 0 <= i < |s| ==> r[i] == s[|s| - 1 - i]
  {
    if s == [] then [] else [s[|s| - 1]] + Backwards(s[..|s| - 1])
  }

  // Reversing a concatenation whose second part is already reversed.
  lemma {:induction false} BackwardsJoin<T>(xs: seq<T>, ys: seq<T>)
    ensures Backwards(xs + Backwards(ys)) == ys + Backwards(xs)
  {
    hide Backwards;
    var zs, r := xs + Backwards(ys), ys + Backwards(xs);
    forall i | 0 <= i < |r|
      ensures Backwards(zs)[i] == r[i]
    {
      assert Backwards(zs)[i] == zs[|zs| - 1 - i];
    }
  }

  // Some element, whichever the set's iteration order puts first.
  method First<T(==)>(s: set<T>) returns (x: T)
    requires s != {}
    ensures x in s
  {
    x :| x in s;
  }

  lemma AnyOf<T>(s: set<T>) returns (x: T)
    requires s != {}
    ensures x in s
  {
    x :| x in s;
  }

  lemma {:induction false} DistinctSize<T>(s: seq<T>)
    requires Distinct(s)
    ensures |Elems(s)| == |s|
  {
    if s != [] {
      var init, last := s[..|s| - 1], s[|s| - 1];
      assert s == init + [last];
      DistinctSize(init);
      assert Elems(s) == Elems(init) + {last};
    }
  }

  lemma SubsetSize<T>(a: set<T>, b: set<T>)
    requires a <= b
    ensures |a| <= |b|
  {
    assert b == a + (b - a);
  }

  function Power2(e: nat): nat
  {
    if e == 0 then 1 else 2 * Power2(e - 1)
  }
}
