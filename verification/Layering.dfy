/** The cycle detail of collect_layering in tools/code_health.py: every component of more than one file is
    handed to feedback_arc_order, and what points backwards inside it is what has to be cut. */
module Layering {
  import opened EdgeWeights
  import opened FeedbackArc
  import opened FeedbackArcLimits
  import opened Lists
  import opened Peeling
  import opened Reachability
  import opened Tarjan
  import StronglyConnected

  // The arcs of the graph with both ends in one component.
  ghost function Inside(g: Graph, members: set<Node>): set<(Node, Node)>
  {
    set a | a in Arcs(g) && a.0 in members && a.1 in members
  }

  ghost function CutArcs(cuts: seq<seq<Edge>>): set<(Node, Node)>
  {
    set c, e | c in cuts && e in c :: (e.a, e.b)
  }

  ghost predicate NoSelfInclude(g: Graph)
  {
    forall u, v :: v in Succ(g, u) ==> u != v
  }

  // Cutting cuts breaks the component: what is left inside has no cycle other than a self-loop.
  ghost predicate Breaks(g: Graph, comp: seq<Node>, cuts: seq<Edge>)
  {
    && cuts != [] && ArcsOf(cuts) <= Loopless(Inside(g, Elems(comp)))
    && Acyclic(Loopless(Inside(g, Elems(comp))) - ArcsOf(cuts))
  }

  // Each edge once, and each of weight 1.
  ghost predicate Plain(es: seq<Edge>)
  {
    UnitWeights(es) && Distinct(es)
  }

  // The edges inside one component.
  method InnerEdges(g: Graph, comp: seq<Node>) returns (inner: seq<Edge>)
    ensures Plain(inner) && ArcsOf(inner) == Inside(g, Elems(comp))
  {
    hide ArcsOf;
    var members := set x | x in comp;
    inner := [];
    assert ArcsOf(inner) == {} by { NoEdges(inner); }
    for i := 0 to |comp|
      invariant Plain(inner) && forall u, v :: (u, v) in ArcsOf(inner) <==> u in comp[..i] && v in Succ(g, u) && v in members
    {
      var a := comp[i];
      var succ := Succ(g, a);
      ghost var before := ArcsOf(inner);
      for k := 0 to |succ|
        invariant Plain(inner)
        invariant forall u, v :: (u, v) in ArcsOf(inner) <==> (u, v) in before || (u == a && v in succ[..k] && v in members)
      {
        if succ[k] in members && Edge(a, succ[k], 1) !in inner {
          ArcsOfSnoc(inner, Edge(a, succ[k], 1));
          inner := inner + [Edge(a, succ[k], 1)];
        } else if succ[k] in members {
          ArcOfEdge(inner, Edge(a, succ[k], 1));
        }
        assert succ[..k + 1] == succ[..k] + [succ[k]];
      }
      assert succ[..|succ|] == succ;
      assert comp[..i + 1] == comp[..i] + [a];
    }
    assert comp[..|comp|] == comp;
    assert forall a :: a in ArcsOf(inner) <==> a in Inside(g, Elems(comp)) by {
      forall a: (Node, Node)
        ensures a in ArcsOf(inner) <==> a in Inside(g, Elems(comp))
      {
        var (u, v) := a;
      }
    }
  }

  // Then there are as many edges as arcs.
  lemma {:induction false} ArcCount(es: seq<Edge>)
    requires Plain(es)
    ensures |ArcsOf(es)| == |es|
  {
    if es != [] {
      var init, last := es[..|es| - 1], es[|es| - 1];
      assert es == init + [last];
      ArcCount(init);
      ArcsOfSnoc(init, last);
      assert (last.a, last.b) !in ArcsOf(init);
    }
  }

  lemma PlainIsPositive(es: seq<Edge>)
    requires Plain(es)
    ensures Positive(es)
  {
  }

  // What is reported of a cycle: its includes, and how many of them are to be cut. That is at most half, and a
  // sixth for every file less, but for a third for every pair of files that include each other.
  ghost predicate Counted(g: Graph, comp: seq<Node>, internal: nat, cuts: seq<Edge>)
  {
    && internal == |Inside(g, Elems(comp))| && 2 * |cuts| <= internal
    && 6 * |cuts| + |comp| <= 3 * internal + 2 * |Opposites(Inside(g, Elems(comp)))|
  }

  lemma CutsAreCounted(g: Graph, comp: seq<Node>, inner: seq<Edge>, order: seq<Node>, back: seq<Edge>)
    requires IsClass(g, comp) && |comp| > 1 && Plain(inner) && ArcsOf(inner) == Inside(g, Elems(comp))
    requires IsFeedbackOrder(inner, order, back)
    ensures Counted(g, comp, |inner|, back)
  {
    assert Distinct(comp);
    hide Inside, IsClass, Acyclic, Total, Followed, Sorted, PointsUp, ArcsOf, Distinct;
    ArcCount(inner);
    EdgeCountBound(inner, order, back);
    EveryFileHasEdge(g, comp, inner);
    SameSize(comp, order, inner);
  }

  lemma EveryFileHasEdge(g: Graph, comp: seq<Node>, inner: seq<Edge>)
    requires IsClass(g, comp) && |comp| > 1 && ArcsOf(inner) == Inside(g, Elems(comp))
    ensures forall u :: u in comp ==> u in Ends(inner)
  {
    hide Reaches, Arcs;
    forall u | u in comp
      ensures u in Ends(inner)
    {
      var v := if comp[0] == u then comp[1] else comp[0];
      assert v in comp && v != u;
      WalkInside(g, comp, u, v);
      var w := ReachesFirst(Inside(g, Elems(comp)), u, v);
      var e :| e in inner && (e.a, e.b) == (u, w);
    }
  }

  lemma SameSize(comp: seq<Node>, order: seq<Node>, inner: seq<Edge>)
    requires Distinct(comp) && Distinct(order) && forall u :: u in comp ==> u in Ends(inner)
    requires forall x :: x in order <==> x in Ends(inner)
    ensures |comp| <= |order|
  {
    hide Ends, Distinct;
    DistinctSize(comp);
    DistinctSize(order);
    var a, b := set x | x in comp, set x | x in order;
    assert forall x :: x in a ==> x in b;
    SubsetSize(a, b);
  }

  lemma NoEdges(es: seq<Edge>)
    requires es == []
    ensures ArcsOf(es) == {}
  {
  }

  lemma ArcsOfSnoc(es: seq<Edge>, e: Edge)
    ensures ArcsOf(es + [e]) == ArcsOf(es) + {(e.a, e.b)}
  {
    var all := es + [e];
    assert all[|es|] == e;
    assert forall x :: x in all <==> x in es || x == e;
  }

  // A component of more than one file has a cycle through two different files.
  lemma ComponentHasCycle(g: Graph, comp: seq<Node>)
    requires IsClass(g, comp) && |comp| > 1
    ensures !Acyclic(Loopless(Inside(g, Elems(comp))))
  {
    hide Reaches, Arcs;
    var u, v := comp[0], comp[1];
    assert u in comp && v in comp;
    WalkInside(g, comp, u, v);
    WalkInside(g, comp, v, u);
    var arcs := Inside(g, Elems(comp));
    LooplessReaches(arcs, u, v);
    LooplessReaches(arcs, v, u);
    var w := ReachesFirst(Loopless(arcs), u, v);
    ReachesTrans(Loopless(arcs), w, v, u);
  }

  // A walk that returns to its component never leaves it.
  lemma WalkInside(g: Graph, comp: seq<Node>, v: Node, u: Node)
    requires IsClass(g, comp) && u in comp && v in comp && Reaches(Arcs(g), v, u)
    ensures Reaches(Inside(g, Elems(comp)), v, u)
  {
    WalkInsideLess(g, comp, Arcs(g), v, u);
    assert Inside(g, Elems(comp)) * Arcs(g) == Inside(g, Elems(comp));
  }

  lemma WalkInsideLess(g: Graph, comp: seq<Node>, arcs: set<(Node, Node)>, v: Node, u: Node)
    requires IsClass(g, comp) && u in comp && v in comp && arcs <= Arcs(g) && Reaches(arcs, v, u)
    ensures Reaches(Inside(g, Elems(comp)) * arcs, v, u)
  {
    var p :| IsPath(arcs, p) && p[0] == v && p[|p| - 1] == u;
    assert IsPath(Arcs(g), p);
    forall i | 0 <= i < |p|
      ensures p[i] in comp
    {
      assert IsPath(Arcs(g), p[..i + 1]) && p[..i + 1][i] == p[i];
      assert IsPath(Arcs(g), p[i..]) && p[i..][|p| - 1 - i] == u;
      assert Reaches(Arcs(g), v, p[i]) && Reaches(Arcs(g), p[i], u);
      assert Mutual(Arcs(g), u, v);
      ReachesTrans(Arcs(g), u, v, p[i]);
      assert Mutual(Arcs(g), u, p[i]);
    }
    assert IsPath(Inside(g, Elems(comp)) * arcs, p);
  }

  // The components of more than one file, in the order found.
  function LargeComponents(comps: seq<seq<Node>>): seq<seq<Node>>
  {
    if comps == [] then [] else LargeComponents(comps[..|comps| - 1]) + (if |comps[|comps| - 1]| > 1 then [comps[|comps| - 1]] else [])
  }

  lemma {:induction false} LargeComponentsFacts(comps: seq<seq<Node>>)
    requires Disjoint(comps)
    ensures Disjoint(LargeComponents(comps)) && forall c :: c in LargeComponents(comps) <==> c in comps && |c| > 1
  {
    if comps != [] {
      var init, last := comps[..|comps| - 1], comps[|comps| - 1];
      assert comps == init + [last];
      LargeComponentsFacts(init);
      var cycles := LargeComponents(init);
      forall i, u | 0 <= i < |cycles| && u in cycles[i]
        ensures u !in last
      {
        assert cycles[i] in init;
        var k :| 0 <= k < |init| && init[k] == cycles[i];
      }
    }
  }

  // cycles holds every class of more than one file once, and nothing else.
  ghost predicate ListsCycles(g: Graph, cycles: seq<seq<Node>>)
  {
    && (forall i :: 0 <= i < |cycles| ==> |cycles[i]| > 1 && IsClass(g, cycles[i]))
    && Disjoint(cycles)
    && (forall u, v :: u != v && Mutual(Arcs(g), u, v) ==> exists i :: 0 <= i < |cycles| && u in cycles[i] && v in cycles[i])
  }

  lemma LargeComponentsAreCycles(g: Graph, files: seq<Node>, comps: seq<seq<Node>>)
    requires IsComponentListing(g, files, comps) && forall u, v :: v in Succ(g, u) ==> u in files
    ensures ListsCycles(g, LargeComponents(comps))
  {
    hide Reaches, Arcs, IsClass, Disjoint;
    LargeComponentsFacts(comps);
    var cycles := LargeComponents(comps);
    forall i | 0 <= i < |cycles|
      ensures |cycles[i]| > 1 && IsClass(g, cycles[i])
    {
      assert cycles[i] in comps;
    }
    forall u, v | u != v && Mutual(Arcs(g), u, v)
      ensures exists i :: 0 <= i < |cycles| && u in cycles[i] && v in cycles[i]
    {
      var w := ReachesFirst(Arcs(g), u, v);
      assert w in Succ(g, u);
      var i := KnottedComponent(g, files, comps, u, v);
    }
  }

  lemma FeedbackBreaks(g: Graph, comp: seq<Node>, inner: seq<Edge>, order: seq<Node>, back: seq<Edge>)
    requires IsClass(g, comp) && |comp| > 1 && ArcsOf(inner) == Inside(g, Elems(comp)) && IsFeedbackOrder(inner, order, back)
    ensures Breaks(g, comp, back)
  {
    hide Acyclic, Arcs, Total, Distinct, IsClass, Followed, Sorted, PointsUp;
    ComponentHasCycle(g, comp);
    WeightSelect(inner, PointsUp(order), PointsUp(order));
    assert back == [] ==> Loopless(ArcsOf(inner)) - ArcsOf(back) == Loopless(ArcsOf(inner));
  }

  // The graph without any of the cuts has no cycle but self-includes: a cycle stays inside one component, where
  // none is left.
  lemma CutGraphAcyclic(g: Graph, cycles: seq<seq<Node>>, cuts: seq<seq<Edge>>)
    requires ListsCycles(g, cycles)
    requires |cuts| == |cycles| && forall i :: 0 <= i < |cycles| ==> Breaks(g, cycles[i], cuts[i])
    ensures Acyclic(Loopless(Arcs(g)) - CutArcs(cuts))
    ensures Acyclic(Arcs(g) - CutArcs(cuts)) <==> NoSelfInclude(g)
  {
    hide Reaches, Arcs, IsClass, Disjoint, Breaks;
    var left := Loopless(Arcs(g)) - CutArcs(cuts);
    forall u, v | (u, v) in left
      ensures !Reaches(left, v, u)
    {
      if Reaches(left, v, u) {
        ReachesMonotone(left, Arcs(g), v, u);
        ReachesArc(Arcs(g), u, v);
        assert u != v && Mutual(Arcs(g), u, v);
        var i :| 0 <= i < |cycles| && u in cycles[i] && v in cycles[i];
        NoneLeft(g, cycles[i], cuts, i, u, v);
        assert false;
      }
    }
    if NoSelfInclude(g) {
      NoneLooped(g);
    } else {
      var u, v :| v in Succ(g, u) && u == v;
      NoSelfCut(g, cycles, cuts, u);
      SelfLoopIsCycle(Arcs(g) - CutArcs(cuts), u);
    }
  }

  lemma NoneLeft(g: Graph, comp: seq<Node>, cuts: seq<seq<Edge>>, i: nat, u: Node, v: Node)
    requires i < |cuts| && IsClass(g, comp) && Breaks(g, comp, cuts[i]) && u in comp && v in comp
    requires (u, v) in Loopless(Arcs(g)) - CutArcs(cuts)
    ensures !Reaches(Loopless(Arcs(g)) - CutArcs(cuts), v, u)
  {
    hide Reaches, Arcs, IsClass;
    var left := Loopless(Arcs(g)) - CutArcs(cuts);
    LeftIsLess(g, comp, cuts, i);
    var inside := Loopless(Inside(g, Elems(comp))) - ArcsOf(cuts[i]);
    assert (u, v) in inside;
    if Reaches(left, v, u) {
      WalkInsideLess(g, comp, left, v, u);
      ReachesMonotone(Inside(g, Elems(comp)) * left, inside, v, u);
      assert false;
    }
  }

  lemma NoneLooped(g: Graph)
    requires NoSelfInclude(g)
    ensures Loopless(Arcs(g)) == Arcs(g)
  {
    forall a | a in Arcs(g)
      ensures a.0 != a.1
    {
      var (u, v) := a;
      assert v in Succ(g, u);
    }
  }

  lemma NoSelfCut(g: Graph, cycles: seq<seq<Node>>, cuts: seq<seq<Edge>>, u: Node)
    requires |cuts| == |cycles| && forall i :: 0 <= i < |cycles| ==> Breaks(g, cycles[i], cuts[i])
    ensures (u, u) !in CutArcs(cuts)
  {
    hide Acyclic;
    if (u, u) in CutArcs(cuts) {
      var c, e :| c in cuts && e in c && (e.a, e.b) == (u, u);
      var i :| 0 <= i < |cuts| && cuts[i] == c;
      assert Breaks(g, cycles[i], cuts[i]);
      ArcOfEdge(c, e);
    }
  }

  lemma LeftIsLess(g: Graph, comp: seq<Node>, cuts: seq<seq<Edge>>, i: nat)
    requires i < |cuts|
    ensures Inside(g, Elems(comp)) * (Loopless(Arcs(g)) - CutArcs(cuts)) <= Loopless(Inside(g, Elems(comp))) - ArcsOf(cuts[i])
  {
    forall a | a in ArcsOf(cuts[i])
      ensures a in CutArcs(cuts)
    {
      var e :| e in cuts[i] && (e.a, e.b) == a;
      assert cuts[i] in cuts;
    }
  }

  lemma KnottedComponent(g: Graph, files: seq<Node>, comps: seq<seq<Node>>, u: Node, v: Node) returns (i: nat)
    requires IsComponentListing(g, files, comps) && u in files && u != v && Mutual(Arcs(g), u, v)
    ensures i < |LargeComponents(comps)| && u in LargeComponents(comps)[i] && v in LargeComponents(comps)[i]
  {
    hide Reaches, Arcs;
    LargeComponentsFacts(comps);
    ReachesSelf(Arcs(g), u);
    assert ReachableFrom(g, files, u) && u in Members(comps);
    var c :| c in comps && u in c;
    var k :| 0 <= k < |comps| && comps[k] == c;
    assert IsClass(g, comps[k]) && v in c;
    var x :| 0 <= x < |c| && c[x] == u;
    var y :| 0 <= y < |c| && c[y] == v;
    assert x != y && |c| > 1 && c in LargeComponents(comps);
    i :| 0 <= i < |LargeComponents(comps)| && LargeComponents(comps)[i] == c;
  }

  method CycleDetail(files: seq<Node>, succ: Graph)
    returns (cycles: seq<seq<Node>>, internal: seq<nat>, cuts: seq<seq<Edge>>)
    requires forall u, v :: v in Succ(succ, u) ==> u in files
    ensures ListsCycles(succ, cycles)
    ensures |cuts| == |cycles| && forall i :: 0 <= i < |cycles| ==> Breaks(succ, cycles[i], cuts[i])
    ensures |internal| == |cycles| && forall i :: 0 <= i < |cycles| ==> Counted(succ, cycles[i], internal[i], cuts[i])
    ensures Acyclic(Loopless(Arcs(succ)) - CutArcs(cuts))
    ensures Acyclic(Arcs(succ) - CutArcs(cuts)) <==> NoSelfInclude(succ)
    ensures Acyclic(Loopless(Arcs(succ))) <==> cycles == []
  {
    hide IsClass, Breaks, Acyclic, Arcs, IsFeedbackOrder, CutArcs, Disjoint, ListsCycles, IsComponentListing, Counted, Plain;
    var comps := StronglyConnected.StronglyConnected(files, succ);
    cycles, internal, cuts := [], [], [];
    for k := 0 to |comps|
      invariant |cuts| == |internal| == |cycles| && cycles == LargeComponents(comps[..k])
      invariant forall i :: 0 <= i < |cycles| ==> Counted(succ, cycles[i], internal[i], cuts[i])
      invariant forall i :: 0 <= i < |cycles| ==> Breaks(succ, cycles[i], cuts[i])
    {
      var comp := comps[k];
      assert comps[..k + 1][..k] == comps[..k];
      if |comp| > 1 {
        ListedClass(succ, files, comps, k);
        var inner := InnerEdges(succ, comp);
        PlainIsPositive(inner);
        var order, back := FeedbackArcOrder(inner);
        FeedbackBreaks(succ, comp, inner, order, back);
        CutsAreCounted(succ, comp, inner, order, back);
        cycles := cycles + [comp];
        internal := internal + [|inner|];
        cuts := cuts + [back];
      }
    }
    assert comps[..|comps|] == comps;
    LargeComponentsAreCycles(succ, files, comps);
    CutGraphAcyclic(succ, cycles, cuts);
    CyclesMeanCycle(succ, cycles, cuts);
  }

  lemma ListedClass(g: Graph, files: seq<Node>, comps: seq<seq<Node>>, k: nat)
    requires IsComponentListing(g, files, comps) && k < |comps|
    ensures IsClass(g, comps[k])
  {
    hide IsClass, Reaches, Arcs;
  }

  // There is something to cut exactly when there is a cycle through more than one file.
  lemma CyclesMeanCycle(g: Graph, cycles: seq<seq<Node>>, cuts: seq<seq<Edge>>)
    requires |cuts| == |cycles| && ListsCycles(g, cycles) && Acyclic(Loopless(Arcs(g)) - CutArcs(cuts))
    ensures Acyclic(Loopless(Arcs(g))) <==> cycles == []
  {
    hide Reaches, Arcs, IsClass, Disjoint;
    if cycles == [] {
      assert CutArcs(cuts) == {};
      assert Loopless(Arcs(g)) - CutArcs(cuts) == Loopless(Arcs(g));
    } else {
      assert IsClass(g, cycles[0]);
      ComponentHasCycle(g, cycles[0]);
      var inside := Loopless(Inside(g, Elems(cycles[0])));
      var u, v := CycleArc(inside);
      ReachesMonotone(inside, Loopless(Arcs(g)), v, u);
    }
  }
}
