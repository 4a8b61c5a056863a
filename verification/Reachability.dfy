/** Directed graphs as finite sets of arcs, and what it means for one node to reach another.
    Every graph tool of the repository is specified against these definitions. */
module Reachability {

  // A file or directory, numbered so that the order of the numbers is the order of the names.
  type Node = int

  ghost predicate IsPath<T>(arcs: set<(T, T)>, p: seq<T>)
  {
    p != [] && forall i :: 0 <= i < |p| - 1 ==> (p[i], p[i + 1]) in arcs
  }

  ghost predicate Reaches<T(!new)>(arcs: set<(T, T)>, u: T, v: T)
  {
    exists p :: IsPath(arcs, p) && p[0] == u && p[|p| - 1] == v
  }

  // Two nodes are in the same cycle knot when each reaches the other.
  ghost predicate Mutual<T(!new)>(arcs: set<(T, T)>, u: T, v: T)
  {
    Reaches(arcs, u, v) && Reaches(arcs, v, u)
  }

  // A cycle is a non-empty closed walk; a self-loop is one.
  ghost predicate Acyclic<T(!new)>(arcs: set<(T, T)>)
  {
    forall u, v :: (u, v) in arcs ==> !Reaches(arcs, v, u)
  }

  ghost predicate Closed<T(!new)>(arcs: set<(T, T)>, s: set<T>)
  {
    forall u, v :: (u, v) in arcs && u in s ==> v in s
  }

  ghost function Reversed<T>(arcs: set<(T, T)>): set<(T, T)>
  {
    set a | a in arcs :: (a.1, a.0)
  }

  lemma ReachesSelf<T(!new)>(arcs: set<(T, T)>, u: T)
    ensures Reaches(arcs, u, u)
  {
    assert IsPath(arcs, [u]);
  }

  lemma ReachesArc<T(!new)>(arcs: set<(T, T)>, u: T, v: T)
    requires (u, v) in arcs
    ensures Reaches(arcs, u, v)
  {
    assert IsPath(arcs, [u, v]);
  }

  lemma ReachesTrans<T(!new)>(arcs: set<(T, T)>, u: T, v: T, w: T)
    requires Reaches(arcs, u, v) && Reaches(arcs, v, w)
    ensures Reaches(arcs, u, w)
  {
    var p :| IsPath(arcs, p) && p[0] == u && p[|p| - 1] == v;
    var q :| IsPath(arcs, q) && q[0] == v && q[|q| - 1] == w;
    var r := p + q[1..];
    forall i | 0 <= i < |r| - 1
      ensures (r[i], r[i + 1]) in arcs
    {
      if i >= |p| - 1 {
        var j := i - (|p| - 1);
        assert r[i] == q[j] && r[i + 1] == q[j + 1];
      }
    }
    assert r[|r| - 1] == w;
    assert IsPath(arcs, r);
  }

  // Transitivity in bulk: whatever reaches u reaches v.
  lemma ReachesThrough<T(!new)>(arcs: set<(T, T)>, u: T, v: T)
    requires Reaches(arcs, u, v)
    ensures forall x :: Reaches(arcs, x, u) ==> Reaches(arcs, x, v)
    ensures forall x :: Reaches(arcs, v, x) ==> Reaches(arcs, u, x)
  {
    forall x | Reaches(arcs, x, u)
      ensures Reaches(arcs, x, v)
    {
      ReachesTrans(arcs, x, u, v);
    }
    forall x | Reaches(arcs, v, x)
      ensures Reaches(arcs, u, x)
    {
      ReachesTrans(arcs, u, v, x);
    }
  }

  // No path leaves a closed set.
  lemma ClosedContainsReach<T(!new)>(arcs: set<(T, T)>, s: set<T>, u: T, v: T)
    requires Closed(arcs, s) && u in s && Reaches(arcs, u, v)
    ensures v in s
  {
    var p :| IsPath(arcs, p) && p[0] == u && p[|p| - 1] == v;
    var i := 0;
    while i < |p| - 1
      invariant 0 <= i < |p| && p[i] in s
    {
      assert (p[i], p[i + 1]) in arcs;
      i := i + 1;
    }
  }

  // A path that goes anywhere else starts with an arc.
  lemma ReachesFirst<T(!new)>(arcs: set<(T, T)>, u: T, w: T) returns (v: T)
    requires Reaches(arcs, u, w) && u != w
    ensures (u, v) in arcs && Reaches(arcs, v, w)
  {
    var p :| IsPath(arcs, p) && p[0] == u && p[|p| - 1] == w;
    v := p[1];
    assert (p[0], p[1]) in arcs;
    var q := p[1..];
    forall i | 0 <= i < |q| - 1
      ensures (q[i], q[i + 1]) in arcs
    {
      assert (p[i + 1], p[i + 2]) in arcs;
    }
    assert IsPath(arcs, q);
  }

  lemma ReachesReversed<T(!new)>(arcs: set<(T, T)>, u: T, v: T)
    requires Reaches(arcs, u, v)
    ensures Reaches(Reversed(arcs), v, u)
  {
    var p :| IsPath(arcs, p) && p[0] == u && p[|p| - 1] == v;
    var q := seq(|p|, i requires 0 <= i < |p| => p[|p| - 1 - i]);
    forall i | 0 <= i < |q| - 1
      ensures (q[i], q[i + 1]) in Reversed(arcs)
    {
      var j := |p| - 2 - i;
      assert (p[j], p[j + 1]) in arcs;
      assert q[i] == p[j + 1] && q[i + 1] == p[j];
    }
    assert IsPath(Reversed(arcs), q);
  }

  lemma ReversedTwice<T>(arcs: set<(T, T)>)
    ensures Reversed(Reversed(arcs)) == arcs
  {
    forall a | a in arcs
      ensures a in Reversed(Reversed(arcs))
    {
      assert (a.1, a.0) in Reversed(arcs);
    }
  }

  lemma ReachesReversedIff<T(!new)>(arcs: set<(T, T)>, u: T, v: T)
    ensures Reaches(Reversed(arcs), v, u) <==> Reaches(arcs, u, v)
  {
    if Reaches(arcs, u, v) {
      ReachesReversed(arcs, u, v);
    }
    if Reaches(Reversed(arcs), v, u) {
      ReachesReversed(Reversed(arcs), v, u);
      ReversedTwice(arcs);
    }
  }

  lemma ReachesMonotone<T(!new)>(arcs: set<(T, T)>, more: set<(T, T)>, u: T, v: T)
    requires arcs <= more && Reaches(arcs, u, v)
    ensures Reaches(more, u, v)
  {
    var p :| IsPath(arcs, p) && p[0] == u && p[|p| - 1] == v;
    assert IsPath(more, p);
  }

  // A graph whose arcs all go down in some ranking has no cycle.
  lemma RankedIsAcyclic<T(!new)>(arcs: set<(T, T)>, rank: T -> int)
    requires forall u, v :: (u, v) in arcs ==> rank(u) > rank(v)
    ensures Acyclic(arcs)
  {
    forall u, v | (u, v) in arcs
      ensures !Reaches(arcs, v, u)
    {
      if Reaches(arcs, v, u) {
        var p :| IsPath(arcs, p) && p[0] == v && p[|p| - 1] == u;
        var i := 0;
        while i < |p| - 1
          invariant 0 <= i < |p| && rank(p[i]) <= rank(v)
        {
          assert (p[i], p[i + 1]) in arcs;
          i := i + 1;
        }
        assert false;
      }
    }
  }

  // The arcs between different nodes.
  ghost function Loopless<T>(arcs: set<(T, T)>): set<(T, T)>
  {
    set a | a in arcs && a.0 != a.1
  }

  lemma {:induction false} LooplessPath<T(!new)>(arcs: set<(T, T)>, p: seq<T>)
    requires IsPath(arcs, p)
    ensures Reaches(Loopless(arcs), p[0], p[|p| - 1])
  {
    hide Reaches;
    if |p| == 1 {
      ReachesSelf(Loopless(arcs), p[0]);
    } else {
      var init, n := p[..|p| - 1], |p| - 2;
      assert (p[n], p[n + 1]) in arcs;
      assert IsPath(arcs, init);
      LooplessPath(arcs, init);
      if p[n] != p[n + 1] {
        ReachesArc(Loopless(arcs), p[n], p[n + 1]);
        ReachesTrans(Loopless(arcs), p[0], p[n], p[n + 1]);
      }
    }
  }

  // Self-loops lead nowhere.
  lemma LooplessReaches<T(!new)>(arcs: set<(T, T)>, u: T, v: T)
    requires Reaches(arcs, u, v)
    ensures Reaches(Loopless(arcs), u, v)
  {
    var p :| IsPath(arcs, p) && p[0] == u && p[|p| - 1] == v;
    LooplessPath(arcs, p);
  }

  lemma CycleArc<T(!new)>(arcs: set<(T, T)>) returns (u: T, v: T)
    requires !Acyclic(arcs)
    ensures (u, v) in arcs && Reaches(arcs, v, u)
  {
    u, v :| (u, v) in arcs && Reaches(arcs, v, u);
  }

  // If every node of a non-empty finite set has an arc into the set, following arcs must close a cycle.
  lemma NoSinkHasCycle<T(!new)>(arcs: set<(T, T)>, s: set<T>, u: T)
    requires u in s && forall x :: x in s ==> exists y :: y in s && (x, y) in arcs
    ensures !Acyclic(arcs)
    decreases set x | x in s && Reaches(arcs, u, x)
  {
    var v :| v in s && (u, v) in arcs;
    ReachesArc(arcs, u, v);
    if !Reaches(arcs, v, u) {
      ReachesThrough(arcs, u, v);
      ReachesSelf(arcs, u);
      var below := set x | x in s && Reaches(arcs, v, x);
      var here := set x | x in s && Reaches(arcs, u, x);
      assert u in here && u !in below && below <= here;
      NoSinkHasCycle(arcs, s, v);
    }
  }
}
