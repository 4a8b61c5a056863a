/** Exactly how far the documented number of backward edges, |E|/2 - |V|/6, can be exceeded by feedback_arc_order of
    tools/code_health.py, in terms of the largest weight and the number of two-cycles. */
module FeedbackArcSlack {
  import opened EdgeWeights
  import opened FeedbackArc
  import opened FeedbackArcLimits
  import opened Lists
  import opened Peeling
  import opened Reachability

  // A dictionary of edges: positive weights, no pair of nodes twice.
  ghost predicate IsGraph(es: seq<Edge>)
  {
    Positive(es) && forall i, j :: 0 <= i < j < |es| ==> es[i].a != es[j].a || es[i].b != es[j].b
  }

  ghost predicate WeightsUpTo(es: seq<Edge>, w: nat)
  {
    forall e :: e in es ==> e.n <= w
  }

  // On every graph with weights up to w and t two-cycles, every result has at most |E|/2 - |V|/6 + slack/6
  // backward edges.
  ghost predicate KeepsBound(w: nat, t: nat, slack: int)
  {
    forall es, order, back ::
      IsGraph(es) && WeightsUpTo(es, w) && |TwoCycles(es)| == t && IsFeedbackOrder(es, order, back) ==>
        6 * |back| + |order| <= 3 * |es| + slack
  }

  // -------------------------------------------------------------------------
  // Graphs that need the slack: knots of four nodes with one edge of weight 2, and two-cycles
  // -------------------------------------------------------------------------

  function HeavyKnot(c: int): seq<Edge>
  {
    [Edge(c, c + 1, 2), Edge(c + 1, c + 2, 1), Edge(c + 1, c + 3, 1), Edge(c + 2, c, 1), Edge(c + 3, c, 1)]
  }

  function TwoCycle(c: int): seq<Edge>
  {
    [Edge(c, c + 1, 1), Edge(c + 1, c, 1)]
  }

  function Size(knots: nat, cycles: nat): nat { 4 * knots + 2 * cycles }

  function Knots(n: nat): seq<Edge>
  {
    if n == 0 then [] else Knots(n - 1) + HeavyKnot(4 * (n - 1))
  }

  function TwoCyclesFrom(lo: int, n: nat): seq<Edge>
  {
    if n == 0 then [] else TwoCyclesFrom(lo, n - 1) + TwoCycle(lo + 2 * (n - 1))
  }

  function Family(knots: nat, cycles: nat): seq<Edge>
  {
    Knots(knots) + TwoCyclesFrom(4 * knots, cycles)
  }

  // All nodes are from lo up to, but not including, hi.
  ghost predicate Between(es: seq<Edge>, lo: int, hi: int)
  {
    forall e :: e in es ==> lo <= e.a < hi && lo <= e.b < hi
  }

  predicate Within(x: Node, lo: int, hi: int) { lo <= x < hi }

  ghost function Interval(lo: int, hi: int): set<Node>
  {
    set x | lo <= x < hi && Within(x, lo, hi)
  }

  // What the pieces are, and what they are when put side by side.
  ghost predicate IsPiece(es: seq<Edge>, lo: int, hi: int, edges: nat, cycles: nat)
  {
    && IsGraph(es) && WeightsUpTo(es, 2) && Between(es, lo, hi) && |es| == edges
    && |TwoCycles(es)| == cycles && Ends(es) == Interval(lo, hi)
  }

  lemma SideBySide(es: seq<Edge>, more: seq<Edge>, lo: int, mid: int, hi: int,
                   edges: nat, cycles: nat, edges': nat, cycles': nat)
    requires lo <= mid <= hi && IsPiece(es, lo, mid, edges, cycles) && IsPiece(more, mid, hi, edges', cycles')
    ensures IsPiece(es + more, lo, hi, edges + edges', cycles + cycles')
  {
    var all := es + more;
    assert forall e :: e in all <==> e in es || e in more;
    GraphsJoin(es, more, lo, mid, hi);
    TwoCyclesJoin(es, more, lo, mid, hi);
    assert Ends(all) == Ends(es) + Ends(more);
    assert Interval(lo, hi) == Interval(lo, mid) + Interval(mid, hi);
  }

  lemma GraphsJoin(es: seq<Edge>, more: seq<Edge>, lo: int, mid: int, hi: int)
    requires IsGraph(es) && IsGraph(more) && Between(es, lo, mid) && Between(more, mid, hi)
    ensures IsGraph(es + more)
  {
    var all := es + more;
    forall i, j | 0 <= i < j < |all|
      ensures all[i].a != all[j].a || all[i].b != all[j].b
    {
      if i < |es| <= j {
        assert all[i] == es[i] && es[i] in es && all[j] == more[j - |es|] && more[j - |es|] in more;
      }
    }
  }

  lemma TwoCyclesJoin(es: seq<Edge>, more: seq<Edge>, lo: int, mid: int, hi: int)
    requires Between(es, lo, mid) && Between(more, mid, hi)
    ensures |TwoCycles(es + more)| == |TwoCycles(es)| + |TwoCycles(more)|
  {
    var a, b := ArcsOf(es), ArcsOf(more);
    assert forall e :: e in es + more <==> e in es || e in more;
    assert ArcsOf(es + more) == a + b;
    assert forall x :: x in a ==> x.0 < mid && x.1 < mid;
    assert forall x :: x in b ==> x.0 >= mid && x.1 >= mid;
    assert Opposites(a + b) == Opposites(a) + Opposites(b);
    assert Opposites(a) !! Opposites(b);
  }

  lemma KnotIsPiece(c: int)
    ensures IsPiece(HeavyKnot(c), c, c + 4, 5, 0)
  {
    var es := HeavyKnot(c);
    assert es[0] in es && es[1] in es && es[2] in es && es[3] in es && es[4] in es;
    assert TwoCycles(es) == {};
    assert forall x :: x in Ends(es) <==> x in Interval(c, c + 4);
  }

  lemma TwoCycleIsPiece(c: int)
    ensures IsPiece(TwoCycle(c), c, c + 2, 2, 1)
  {
    var es := TwoCycle(c);
    assert es[0] in es && es[1] in es;
    assert (c, c + 1) in ArcsOf(es) && (c + 1, c) in ArcsOf(es);
    assert TwoCycles(es) == {(c, c + 1)};
    assert forall x :: x in Ends(es) <==> x in Interval(c, c + 2);
  }

  lemma EmptyIsPiece(lo: int)
    ensures IsPiece([], lo, lo, 0, 0)
  {
    assert Ends([]) == Interval(lo, lo);
    assert TwoCycles([]) == {};
  }

  lemma {:induction false} KnotsArePiece(n: nat)
    ensures IsPiece(Knots(n), 0, 4 * n, 5 * n, 0)
  {
    hide IsPiece, HeavyKnot;
    if n == 0 {
      EmptyIsPiece(0);
    } else {
      KnotsArePiece(n - 1);
      KnotIsPiece(4 * (n - 1));
      SideBySide(Knots(n - 1), HeavyKnot(4 * (n - 1)), 0, 4 * (n - 1), 4 * n, 5 * (n - 1), 0, 5, 0);
    }
  }

  lemma {:induction false} TwoCyclesArePiece(lo: int, n: nat)
    ensures IsPiece(TwoCyclesFrom(lo, n), lo, lo + 2 * n, 2 * n, n)
  {
    hide IsPiece, TwoCycle;
    if n == 0 {
      EmptyIsPiece(lo);
    } else {
      var mid := lo + 2 * (n - 1);
      TwoCyclesArePiece(lo, n - 1);
      TwoCycleIsPiece(mid);
      SideBySide(TwoCyclesFrom(lo, n - 1), TwoCycle(mid), lo, mid, lo + 2 * n, 2 * (n - 1), n - 1, 2, 1);
    }
  }

  lemma FamilyIsPiece(knots: nat, cycles: nat)
    ensures IsPiece(Family(knots, cycles), 0, Size(knots, cycles), 5 * knots + 2 * cycles, cycles)
  {
    hide IsPiece, Knots, TwoCyclesFrom;
    KnotsArePiece(knots);
    TwoCyclesArePiece(4 * knots, cycles);
    SideBySide(Knots(knots), TwoCyclesFrom(4 * knots, cycles), 0, 4 * knots, Size(knots, cycles), 5 * knots, 0, 2 * cycles, cycles);
  }

  lemma {:induction false} TwoCyclesAreLight(lo: int, n: nat)
    ensures WeightsUpTo(TwoCyclesFrom(lo, n), 1)
  {
    if n > 0 {
      TwoCyclesAreLight(lo, n - 1);
      LightJoin(TwoCyclesFrom(lo, n - 1), lo + 2 * (n - 1));
    }
  }

  lemma LightJoin(es: seq<Edge>, c: int)
    requires WeightsUpTo(es, 1)
    ensures WeightsUpTo(es + TwoCycle(c), 1)
  {
    assert forall e :: e in es + TwoCycle(c) <==> e in es || e in TwoCycle(c);
  }

  lemma FamilyIsLight(cycles: nat)
    ensures WeightsUpTo(Family(0, cycles), 1)
  {
    hide TwoCyclesFrom, WeightsUpTo;
    TwoCyclesAreLight(0, cycles);
    assert Family(0, cycles) == TwoCyclesFrom(0, cycles);
  }

  lemma IntervalSize(n: nat)
    ensures |Interval(0, n)| == n
  {
    if n == 0 {
      assert Interval(0, 0) == {};
    } else {
      IntervalSize(n - 1);
      assert Interval(0, n) == Interval(0, n - 1) + {n - 1};
    }
  }

  // -------------------------------------------------------------------------
  // Weights inside one knot
  // -------------------------------------------------------------------------

  lemma {:induction false} WeightJoin(es: seq<Edge>, more: seq<Edge>, p: Edge -> bool)
    ensures Weight(es + more, p) == Weight(es, p) + Weight(more, p)
  {
    if more == [] {
      assert es + more == es;
    } else {
      var n := |more| - 1;
      assert (es + more)[..|es + more| - 1] == es + more[..n];
      WeightJoin(es, more[..n], p);
    }
  }

  lemma {:induction false} NoneOfIt(es: seq<Edge>, p: Edge -> bool)
    requires forall e :: e in es ==> !p(e)
    ensures Weight(es, p) == 0
  {
    if es != [] {
      assert es[|es| - 1] in es;
      NoneOfIt(es[..|es| - 1], p);
    }
  }

  ghost predicate Touches(p: Edge -> bool, c: int)
  {
    forall e :: p(e) ==> c <= e.a < c + 4 || c <= e.b < c + 4
  }

  lemma Untouched(es: seq<Edge>, lo: int, hi: int, p: Edge -> bool, c: int)
    requires Between(es, lo, hi) && Touches(p, c) && (hi <= c || c + 4 <= lo)
    ensures Weight(es, p) == 0
  {
    NoneOfIt(es, p);
  }

  // Edges that touch one knot are that knot's.
  lemma {:induction false} WeightInKnots(n: nat, i: nat, p: Edge -> bool)
    requires i < n && Touches(p, 4 * i)
    ensures Weight(Knots(n), p) == Weight(HeavyKnot(4 * i), p)
  {
    hide Weight, IsPiece, HeavyKnot, Touches, Between;
    var mid := 4 * (n - 1);
    WeightJoin(Knots(n - 1), HeavyKnot(mid), p);
    if i < n - 1 {
      WeightInKnots(n - 1, i, p);
      KnotIsPiece(mid);
      PieceBetween(HeavyKnot(mid), mid, mid + 4, 5, 0);
      Untouched(HeavyKnot(mid), mid, mid + 4, p, 4 * i);
    } else {
      KnotsArePiece(n - 1);
      PieceBetween(Knots(n - 1), 0, mid, 5 * (n - 1), 0);
      Untouched(Knots(n - 1), 0, mid, p, 4 * i);
    }
  }

  lemma PieceBetween(es: seq<Edge>, lo: int, hi: int, edges: nat, cycles: nat)
    requires IsPiece(es, lo, hi, edges, cycles)
    ensures Between(es, lo, hi)
  {
  }

  lemma WeightInKnot(knots: nat, cycles: nat, i: nat, p: Edge -> bool)
    requires i < knots && Touches(p, 4 * i)
    ensures Weight(Family(knots, cycles), p) == Weight(HeavyKnot(4 * i), p)
  {
    hide Weight, IsPiece, HeavyKnot, Touches, Between, Knots, TwoCyclesFrom;
    WeightInKnots(knots, i, p);
    TwoCyclesArePiece(4 * knots, cycles);
    PieceBetween(TwoCyclesFrom(4 * knots, cycles), 4 * knots, 4 * knots + 2 * cycles, 2 * cycles, cycles);
    Untouched(TwoCyclesFrom(4 * knots, cycles), 4 * knots, 4 * knots + 2 * cycles, p, 4 * i);
    WeightJoin(Knots(knots), TwoCyclesFrom(4 * knots, cycles), p);
  }

  lemma WeightOfFive(es: seq<Edge>, p: Edge -> bool)
    requires |es| == 5
    ensures Weight(es, p) == (if p(es[0]) then es[0].n else 0) + (if p(es[1]) then es[1].n else 0)
                             + (if p(es[2]) then es[2].n else 0) + (if p(es[3]) then es[3].n else 0)
                             + (if p(es[4]) then es[4].n else 0)
  {
    hide Weight;
    TakeOneMore(es, 0, p);
    TakeOneMore(es, 1, p);
    TakeOneMore(es, 2, p);
    TakeOneMore(es, 3, p);
    TakeOneMore(es, 4, p);
    assert es[..5] == es;
    NoWeight(es, p);
  }

  function One(b: bool): nat { if b then 1 else 0 }

  lemma KnotWeights(knots: nat, cycles: nat, i: nat, s: set<Node>, x: Node)
    requires i < knots && 4 * i <= x < 4 * i + 4
    ensures var es, c := Family(knots, cycles), 4 * i;
            && OutW(es, s, x) == (if x == c then 2 * One(c + 1 in s) else if x == c + 1 then One(c + 2 in s) + One(c + 3 in s)
                                  else One(c in s))
            && InW(es, s, x) == (if x == c then One(c + 2 in s) + One(c + 3 in s) else if x == c + 1 then 2 * One(c in s)
                                 else One(c + 1 in s))
  {
    var c := 4 * i;
    WeightInKnot(knots, cycles, i, OutOf(x, s));
    WeightInKnot(knots, cycles, i, Into(x, s));
    WeightOfFive(HeavyKnot(c), OutOf(x, s));
    WeightOfFive(HeavyKnot(c), Into(x, s));
    hide Weight, Family;
  }

  // -------------------------------------------------------------------------
  // Every knot costs two edges, every two-cycle one
  // -------------------------------------------------------------------------

  // While a knot is whole only its last node can be placed, on the grounds of its name; then only its first, on
  // the grounds of its weights.
  lemma KnotChoice(knots: nat, cycles: nat, i: nat, r: set<Node>, x: Node, p: int)
    requires i < knots && 4 * i <= x < 4 * i + 4 && MayPlace(Family(knots, cycles), r, x, p)
    requires 4 * i in r && 4 * i + 1 in r && 4 * i + 2 in r
    ensures 4 * i + 3 in r ==> x == 4 * i + 3 && p > 0
    ensures 4 * i + 3 !in r ==> x == 4 * i && p > 0
  {
    hide OutW, InW, Family;
    KnotWeights(knots, cycles, i, r, x);
    KnotWeights(knots, cycles, i, r, 4 * i);
    KnotWeights(knots, cycles, i, r, 4 * i + 1);
    KnotWeights(knots, cycles, i, r, 4 * i + 2);
    KnotWeights(knots, cycles, i, r, 4 * i + 3);
  }

  lemma KnotChoices(knots: nat, cycles: nat, i: nat)
    requires i < knots
    ensures var es, c := Family(knots, cycles), 4 * i;
            OnlyChoice(es, {c, c + 1, c + 2, c + 3}, {}, c + 3) && OnlyChoice(es, {c, c + 1, c + 2}, {c + 3}, c)
  {
    hide MayPlace, Family;
    var es, c := Family(knots, cycles), 4 * i;
    forall r: set<Node>, x: Node, p: int | MayPlace(es, r, x, p)
      ensures {c, c + 1, c + 2, c + 3} <= r && x in {c, c + 1, c + 2, c + 3} ==> x == c + 3 && p > 0
      ensures {c, c + 1, c + 2} <= r && c + 3 !in r && x in {c, c + 1, c + 2} ==> x == c && p > 0
    {
      if c <= x < c + 4 && c in r && c + 1 in r && c + 2 in r {
        KnotChoice(knots, cycles, i, r, x, p);
      }
    }
  }

  lemma KnotCosts(knots: nat, cycles: nat, i: nat, order: seq<Node>, rank: map<Node, int>)
    requires i < knots && Sorted(order, rank) && Followed(Family(knots, cycles), {}, rank)
    requires rank.Keys == Interval(0, Size(knots, cycles))
    ensures |Select(HeavyKnot(4 * i), PointsUp(order))| >= 2
  {
    hide OnlyChoice, Followed, Sorted, Family, PointsUp, Select, Weight;
    var c := 4 * i;
    assert c in rank && c + 1 in rank && c + 2 in rank && c + 3 in rank;
    KnotChoices(knots, cycles, i);
    PlacedNext(Family(knots, cycles), rank, {c, c + 1, c + 2, c + 3}, {}, c + 3);
    PlacedNext(Family(knots, cycles), rank, {c, c + 1, c + 2}, {c + 3}, c);
    var es := HeavyKnot(c);
    assert es[2] in es && es[3] in es;
    SortedPointsUp(es, order, rank, es[2]);
    SortedPointsUp(es, order, rank, es[3]);
    WeightSelect(es, PointsUp(order), PointsUp(order));
    TwoMembers(Select(es, PointsUp(order)), es[2], es[3]);
  }

  lemma TwoCycleCosts(c: int, order: seq<Node>, rank: map<Node, int>)
    requires Sorted(order, rank) && c in rank && c + 1 in rank
    ensures |Select(TwoCycle(c), PointsUp(order))| >= 1
  {
    hide Sorted, PointsUp, Select, Weight;
    var es := TwoCycle(c);
    assert es[0] in es && es[1] in es;
    SortedPointsUp(es, order, rank, es[0]);
    SortedPointsUp(es, order, rank, es[1]);
    DistinctRanks(order, rank, c, c + 1);
    WeightSelect(es, PointsUp(order), PointsUp(order));
    assert es[0] in Select(es, PointsUp(order)) || es[1] in Select(es, PointsUp(order));
  }

  lemma {:induction false} SelectJoin(es: seq<Edge>, more: seq<Edge>, p: Edge -> bool)
    ensures Select(es + more, p) == Select(es, p) + Select(more, p)
  {
    if more == [] {
      assert es + more == es;
    } else {
      var n := |more| - 1;
      assert (es + more)[..|es + more| - 1] == es + more[..n];
      SelectJoin(es, more[..n], p);
    }
  }

  lemma {:induction false} KnotCostsAdd(n: nat, p: Edge -> bool)
    requires forall i: nat :: i < n ==> |Select(HeavyKnot(4 * i), p)| >= 2
    ensures |Select(Knots(n), p)| >= 2 * n
  {
    hide Select, HeavyKnot;
    if n > 0 {
      var i: nat := n - 1;
      KnotCostsAdd(i, p);
      assert |Select(HeavyKnot(4 * i), p)| >= 2;
      SelectJoin(Knots(i), HeavyKnot(4 * i), p);
    }
  }

  lemma {:induction false} TwoCycleCostsAdd(lo: int, n: nat, p: Edge -> bool)
    requires forall j: nat :: j < n ==> |Select(TwoCycle(lo + 2 * j), p)| >= 1
    ensures |Select(TwoCyclesFrom(lo, n), p)| >= n
  {
    hide Select, TwoCycle;
    if n > 0 {
      var j: nat := n - 1;
      TwoCycleCostsAdd(lo, j, p);
      assert |Select(TwoCycle(lo + 2 * j), p)| >= 1;
      SelectJoin(TwoCyclesFrom(lo, j), TwoCycle(lo + 2 * j), p);
    }
  }

  lemma CostsJoin(knots: nat, cycles: nat, p: Edge -> bool)
    ensures |Select(Family(knots, cycles), p)| == |Select(Knots(knots), p)| + |Select(TwoCyclesFrom(4 * knots, cycles), p)|
  {
    hide Select, Knots, TwoCyclesFrom;
    SelectJoin(Knots(knots), TwoCyclesFrom(4 * knots, cycles), p);
  }

  // On this family every result exceeds |E|/2 - |V|/6 by a sixth for every knot and a third for every two-cycle.
  lemma FamilyCosts(knots: nat, cycles: nat, order: seq<Node>, back: seq<Edge>)
    requires IsFeedbackOrder(Family(knots, cycles), order, back)
    ensures 6 * |back| + |order| >= 3 * |Family(knots, cycles)| + knots + 2 * cycles
    ensures knots == 0 ==> 6 * |back| + |order| == 3 * |Family(knots, cycles)| + 2 * cycles
  {
    hide Family, Sorted, Followed, Acyclic, ArcsOf, PointsUp, Select, TwoCycles, Ends, Distinct, IsGraph, Weight, HeavyKnot, TwoCycle, Knots, TwoCyclesFrom;
    var es := Family(knots, cycles);
    FamilyIsPiece(knots, cycles);
    var rank :| Sorted(order, rank) && Followed(es, {}, rank);
    RankedNodes(order, rank, Interval(0, Size(knots, cycles)));
    forall i: nat | i < knots
      ensures |Select(HeavyKnot(4 * i), PointsUp(order))| >= 2
    {
      KnotCosts(knots, cycles, i, order, rank);
    }
    KnotCostsAdd(knots, PointsUp(order));
    forall j: nat | j < cycles
      ensures |Select(TwoCycle(4 * knots + 2 * j), PointsUp(order))| >= 1
    {
      TwoCycleCosts(4 * knots + 2 * j, order, rank);
    }
    TwoCycleCostsAdd(4 * knots, cycles, PointsUp(order));
    CostsJoin(knots, cycles, PointsUp(order));
    IntervalSize(Size(knots, cycles));
    SortedCount(order, rank);
    assert |order| == Size(knots, cycles);
    if knots == 0 {
      FamilyIsLight(cycles);
      UnitWeightsAre(es);
      EdgeCountBound(es, order, back);
    }
  }

  lemma UnitWeightsAre(es: seq<Edge>)
    requires IsGraph(es) && WeightsUpTo(es, 1)
    ensures UnitWeights(es)
  {
  }

  // -------------------------------------------------------------------------
  // The exact condition
  // -------------------------------------------------------------------------

  // With weights of 1 the slack is a third of an edge for every two-cycle, no less; with any larger weight no slack
  // is enough. So the bound holds as documented if and only if all edges weigh 1 and there is no two-cycle.
  lemma BoundKeptIff(w: nat, t: nat, slack: int)
    requires w >= 1
    ensures KeepsBound(w, t, slack) <==> w == 1 && slack >= 2 * t
  {
    hide IsFeedbackOrder, TwoCycles, Family, IsGraph;
    if w == 1 && slack >= 2 * t {
      forall es, order, back | IsGraph(es) && WeightsUpTo(es, w) && |TwoCycles(es)| == t && IsFeedbackOrder(es, order, back)
        ensures 6 * |back| + |order| <= 3 * |es| + slack
      {
        UnitWeightsAre(es);
        EdgeCountBound(es, order, back);
      }
    } else {
      var knots: nat := if w == 1 || slack < 0 then 0 else slack + 1;
      ExceedsBound(w, t, slack, knots);
    }
  }

  lemma ExceedsBound(w: nat, t: nat, slack: int, knots: nat)
    requires w >= 1 && (w == 1 ==> knots == 0) && slack < knots + 2 * t
    ensures !KeepsBound(w, t, slack)
  {
    hide IsFeedbackOrder, TwoCycles, Family, IsGraph;
    var es := Family(knots, t);
    FamilyIsPiece(knots, t);
    if w == 1 {
      FamilyIsLight(t);
    }
    assert WeightsUpTo(es, w);
    GraphIsPositive(es);
    var order, back := ResultExists(es);
    FamilyCosts(knots, t, order, back);
  }

  lemma GraphIsPositive(es: seq<Edge>)
    requires IsGraph(es)
    ensures Positive(es)
  {
  }

  // The bound as documented.
  lemma DocumentedBoundIff(w: nat, t: nat)
    requires w >= 1
    ensures KeepsBound(w, t, 0) <==> w == 1 && t == 0
  {
    hide KeepsBound;
    BoundKeptIff(w, t, 0);
  }
}
