/** What the documentation of feedback_arc_order in tools/code_health.py claims for its result, and how far it holds. */
module FeedbackArcLimits {
  import opened EdgeWeights
  import opened FeedbackArc
  import opened Lists
  import opened Peeling
  import opened Reachability

  ghost predicate UnitWeights(es: seq<Edge>)
  {
    forall e :: e in es ==> e.n == 1
  }

  lemma {:induction false} UnitTotal(es: seq<Edge>)
    requires UnitWeights(es)
    ensures Total(es) == |es|
  {
    if es != [] {
      assert es[|es| - 1] in es;
      UnitTotal(es[..|es| - 1]);
    }
  }

  // |E|/2 - |V|/6 backward edges, as documented, and a third more for every two-cycle: the number of edges is
  // bounded when every edge weighs 1.
  lemma EdgeCountBound(es: seq<Edge>, order: seq<Node>, back: seq<Edge>)
    requires IsFeedbackOrder(es, order, back) && UnitWeights(es)
    ensures 6 * |back| + |order| <= 3 * |es| + 2 * |TwoCycles(es)|
    ensures 2 * |back| <= |es|
  {
    hide Acyclic, Weight, TwoCycles, Distinct, Followed;
    WeightSelect(es, PointsUp(order), PointsUp(order));
    UnitTotal(es);
    UnitTotal(back);
  }

  lemma TwoMembers<T>(s: seq<T>, x: T, y: T)
    requires x in s && y in s && x != y
    ensures |s| >= 2
  {
  }

  // -------------------------------------------------------------------------
  // Which node of a part of the graph is placed first
  // -------------------------------------------------------------------------

  // As long as the nodes of s are left and those of gone are not, m alone may be placed, and not as a sink: it is
  // the first of s to be placed.
  ghost predicate OnlyChoice(es: seq<Edge>, s: set<Node>, gone: set<Node>, m: Node)
  {
    forall r, x, p :: s <= r && r !! gone && x in s && MayPlace(es, r, x, p) ==> x == m && p > 0
  }

  lemma PlacedNext(es: seq<Edge>, rank: map<Node, int>, s: set<Node>, gone: set<Node>, m: Node)
    requires Followed(es, {}, rank) && s + gone <= rank.Keys && s != {} && OnlyChoice(es, s, gone, m)
    requires forall x, y :: x in s && y in gone ==> Abs(rank[x]) < Abs(rank[y])
    ensures m in s && rank[m] > 0
    ensures forall x :: x in s && x != m ==> Abs(rank[x]) < rank[m]
  {
    hide MayPlace;
    var f := FarthestOf(rank, s);
    forall x | x in s && Abs(rank[x]) == Abs(rank[f])
      ensures x == m && rank[m] > 0
    {
      var r := LeftAt({}, rank, Abs(rank[x]));
      assert forall y :: y in s ==> y in r;
      assert forall y :: y in gone ==> y !in r;
      assert MayPlace(es, r, x, rank[x]);
    }
  }

  lemma {:induction false} FarthestOf(rank: map<Node, int>, s: set<Node>) returns (f: Node)
    requires s <= rank.Keys && s != {}
    ensures f in s && forall x :: x in s ==> Abs(rank[x]) <= Abs(rank[f])
    decreases s
  {
    f := AnyOf(s);
    assert forall x :: x in s ==> x == f || x in s - {f};
    if s - {f} != {} {
      var g := FarthestOf(rank, s - {f});
      if Abs(rank[g]) > Abs(rank[f]) {
        f := g;
      }
    }
  }

  // -------------------------------------------------------------------------
  // The backward edges break every cycle, but they need not be a minimum feedback arc set
  // -------------------------------------------------------------------------

  function Knotted(): seq<Edge>
  {
    [Edge(0, 1, 1), Edge(0, 2, 1), Edge(1, 0, 1), Edge(2, 1, 1), Edge(2, 3, 1), Edge(3, 1, 1)]
  }

  lemma WeightOfSix(es: seq<Edge>, p: Edge -> bool)
    requires |es| == 6
    ensures Weight(es, p) == (if p(es[0]) then es[0].n else 0) + (if p(es[1]) then es[1].n else 0)
                             + (if p(es[2]) then es[2].n else 0) + (if p(es[3]) then es[3].n else 0)
                             + (if p(es[4]) then es[4].n else 0) + (if p(es[5]) then es[5].n else 0)
  {
    hide Weight;
    TakeOneMore(es, 0, p);
    TakeOneMore(es, 1, p);
    TakeOneMore(es, 2, p);
    TakeOneMore(es, 3, p);
    TakeOneMore(es, 4, p);
    TakeOneMore(es, 5, p);
    assert es[..6] == es;
    NoWeight(es, p);
  }

  lemma NoWeight(es: seq<Edge>, p: Edge -> bool)
    ensures Weight(es[..0], p) == 0
  {
  }

  lemma KnottedWeights(s: set<Node>, u: Node)
    ensures var es := Knotted();
            && OutW(es, s, u) == (if u == 0 then (if 1 in s then 1 else 0) + (if 2 in s then 1 else 0)
                                  else if u == 1 then (if 0 in s then 1 else 0)
                                  else if u == 2 then (if 1 in s then 1 else 0) + (if 3 in s then 1 else 0)
                                  else if u == 3 then (if 1 in s then 1 else 0) else 0)
            && InW(es, s, u) == (if u == 0 then (if 1 in s then 1 else 0)
                                 else if u == 1 then (if 0 in s then 1 else 0) + (if 2 in s then 1 else 0) + (if 3 in s then 1 else 0)
                                 else if u == 2 then (if 0 in s then 1 else 0)
                                 else if u == 3 then (if 2 in s then 1 else 0) else 0)
  {
    WeightOfSix(Knotted(), OutOf(u, s));
    WeightOfSix(Knotted(), Into(u, s));
    hide Weight;
  }

  // The three choices of the greedy rule on the example.
  lemma KnottedChoices()
    ensures OnlyChoice(Knotted(), {0, 1, 2, 3}, {}, 2)
    ensures OnlyChoice(Knotted(), {0, 1, 3}, {2}, 3)
    ensures OnlyChoice(Knotted(), {0, 1}, {2, 3}, 1)
  {
    hide OutW, InW;
    forall r: set<Node>, x: Node, p: int | MayPlace(Knotted(), r, x, p)
      ensures {0, 1, 2, 3} <= r && x in {0, 1, 2, 3} ==> x == 2 && p > 0
      ensures {0, 1, 3} <= r && 2 !in r && x in {0, 1, 3} ==> x == 3 && p > 0
      ensures {0, 1} <= r && 2 !in r && 3 !in r && x in {0, 1} ==> x == 1 && p > 0
    {
      if x in {0, 1, 2, 3} && 0 in r && 1 in r {
        KnottedChoice(r, x, p);
      }
    }
  }

  lemma KnottedChoice(r: set<Node>, x: Node, p: int)
    requires MayPlace(Knotted(), r, x, p) && x in {0, 1, 2, 3} && 0 in r && 1 in r
    ensures 2 in r && 3 in r ==> x == 2 && p > 0
    ensures 2 !in r && 3 in r ==> x == 3 && p > 0
    ensures 2 !in r && 3 !in r ==> x == 1 && p > 0
  {
    hide OutW, InW;
    KnottedWeights(r, x);
    KnottedWeights(r, 0);
    KnottedWeights(r, 1);
    KnottedWeights(r, 2);
    KnottedWeights(r, 3);
  }

  lemma KnottedRanks(rank: map<Node, int>)
    requires Followed(Knotted(), {}, rank) && rank.Keys == {0, 1, 2, 3}
    ensures rank[0] < rank[1] < rank[3] < rank[2]
  {
    hide OnlyChoice, Followed;
    KnottedChoices();
    PlacedNext(Knotted(), rank, {0, 1, 2, 3}, {}, 2);
    PlacedNext(Knotted(), rank, {0, 1, 3}, {2}, 3);
    PlacedNext(Knotted(), rank, {0, 1}, {2, 3}, 1);
  }

  // Two edges end up pointing backwards although cutting one is enough.
  lemma NotMinimum(order: seq<Node>, back: seq<Edge>)
    requires IsFeedbackOrder(Knotted(), order, back)
    ensures |back| >= 2 && Acyclic(ArcsOf(Knotted()) - {(1, 0)})
  {
    hide Knotted, Acyclic, Followed, Sorted, Ends, Distinct, ArcsOf, Weight, TwoCycles, PointsUp, SelfLoopFree;
    KnottedEnds();
    OneCutIsEnough();
    var rank :| Sorted(order, rank) && Followed(Knotted(), {}, rank);
    RankedNodes(order, rank, {0, 1, 2, 3});
    KnottedBack(order, back, rank);
  }

  lemma RankedNodes(order: seq<Node>, rank: map<Node, int>, s: set<Node>)
    requires Sorted(order, rank) && forall x :: x in order <==> x in s
    ensures rank.Keys == s
  {
    assert forall x :: x in rank.Keys <==> x in s;
  }

  lemma KnottedBack(order: seq<Node>, back: seq<Edge>, rank: map<Node, int>)
    requires Sorted(order, rank) && Followed(Knotted(), {}, rank) && rank.Keys == {0, 1, 2, 3}
    requires back == Select(Knotted(), PointsUp(order))
    ensures |back| >= 2
  {
    hide Sorted, Followed, PointsUp, Weight;
    var es := Knotted();
    KnottedRanks(rank);
    SortedPointsUp(es, order, rank, es[0]);
    SortedPointsUp(es, order, rank, es[1]);
    WeightSelect(es, PointsUp(order), PointsUp(order));
    assert es[0] in es && es[1] in es;
    TwoMembers(back, es[0], es[1]);
  }

  lemma KnottedEnds()
    ensures forall x :: x in Ends(Knotted()) <==> x in {0, 1, 2, 3}
  {
    var es := Knotted();
    assert es[0] in es && es[4] in es;
  }

  lemma OneCutIsEnough()
    ensures Acyclic(ArcsOf(Knotted()) - {(1, 0)})
  {
    hide Acyclic;
    var rank := (x: Node) => if x == 0 then 3 else if x == 2 then 2 else if x == 3 then 1 else 0;
    RankedIsAcyclic(ArcsOf(Knotted()) - {(1, 0)}, rank);
  }
}
