/** Taking the nodes of a weighted graph away one at a time, to one end of an order or to the other,
    and how much edge weight that leaves pointing backwards. */
module Peeling {
  import opened Reachability
  import opened EdgeWeights
  import opened Lists

  ghost function OutOf(u: Node, s: set<Node>): Edge -> bool
  {
    (e: Edge) => e.a == u && e.b in s
  }

  ghost function Into(u: Node, s: set<Node>): Edge -> bool
  {
    (e: Edge) => e.b == u && e.a in s
  }

  // Weight leaving, or entering, u within s.
  ghost function OutW(es: seq<Edge>, s: set<Node>, u: Node): nat
  {
    Weight(es, OutOf(u, s))
  }

  ghost function InW(es: seq<Edge>, s: set<Node>, u: Node): nat
  {
    Weight(es, Into(u, s))
  }

  ghost function FromTo(s: set<Node>, t: set<Node>): Edge -> bool
  {
    (e: Edge) => e.a in s && e.b in t
  }

  // An edge is settled once one of its ends has been placed.
  ghost function Settled(r: set<Node>): Edge -> bool
  {
    (e: Edge) => !(e.a in r && e.b in r)
  }

  // Where a node goes in the final order: below zero at the front, above zero at the back, zero while
  // it is still in the middle.
  ghost function RankOf(rank: map<Node, int>, x: Node): int
  {
    if x in rank then rank[x] else 0
  }

  // An edge points backwards when the node it leaves ends up before the node it enters.
  ghost function Backward(rank: map<Node, int>): Edge -> bool
  {
    (e: Edge) => RankOf(rank, e.a) < RankOf(rank, e.b)
  }

  ghost function BackW(es: seq<Edge>, rank: map<Node, int>): nat
  {
    Weight(es, Backward(rank))
  }

  ghost predicate Spans(es: seq<Edge>, nodes: set<Node>)
  {
    forall e :: e in es ==> e.a in nodes && e.b in nodes
  }

  // Placed nodes lie further out than any node still to be placed can.
  ghost predicate Ranked(nodes: set<Node>, r: set<Node>, rank: map<Node, int>)
  {
    && r <= nodes && rank.Keys == nodes - r
    && forall x :: x in rank ==> rank[x] > |r| || rank[x] < -|r|
  }

  lemma WeightOut(es: seq<Edge>, s: set<Node>, u: Node, x: Node)
    requires u in s && x in s && Positive(es)
    ensures OutW(es, s, x) == OutW(es, s - {u}, x) + OutW(es, {u}, x)
    ensures InW(es, s, x) == InW(es, s - {u}, x) + InW(es, {u}, x)
  {
    WeightSplits(es, OutOf(x, s), OutOf(x, s - {u}), OutOf(x, {u}));
    WeightSplits(es, Into(x, s), Into(x, s - {u}), Into(x, {u}));
  }

  // Placing u at distance |r| from the middle: which weight becomes settled, and which of it backwards.
  lemma PlaceSettles(es: seq<Edge>, r: set<Node>, u: Node)
    requires u in r
    ensures Weight(es, Settled(r - {u})) == Weight(es, Settled(r)) + OutW(es, r, u) + InW(es, r - {u}, u)
  {
    var touch := (e: Edge) => (e.a == u || e.b == u) && e.a in r && e.b in r;
    WeightSplits(es, Settled(r - {u}), Settled(r), touch);
    WeightSplits(es, touch, OutOf(u, r), Into(u, r - {u}));
  }

  lemma PlaceFront(es: seq<Edge>, nodes: set<Node>, r: set<Node>, rank: map<Node, int>, u: Node)
    requires Spans(es, nodes) && Ranked(nodes, r, rank) && u in r
    ensures Ranked(nodes, r - {u}, rank[u := -|r|])
    ensures BackW(es, rank[u := -|r|]) == BackW(es, rank) + OutW(es, r - {u}, u)
  {
    WeightSplits(es, Backward(rank[u := -|r|]), Backward(rank), OutOf(u, r - {u}));
  }

  lemma PlaceBack(es: seq<Edge>, nodes: set<Node>, r: set<Node>, rank: map<Node, int>, u: Node)
    requires Spans(es, nodes) && Ranked(nodes, r, rank) && u in r
    ensures Ranked(nodes, r - {u}, rank[u := |r|])
    ensures BackW(es, rank[u := |r|]) == BackW(es, rank) + InW(es, r - {u}, u)
  {
    WeightSplits(es, Backward(rank[u := |r|]), Backward(rank), Into(u, r - {u}));
  }

  // Within r as much weight leaves as enters, so nodes that all lose no more than they gain are balanced.
  lemma {:induction false} DeficitsAdd(es: seq<Edge>, t: set<Node>, r: set<Node>)
    requires t <= r && forall u :: u in t ==> OutW(es, r, u) <= InW(es, r, u)
    ensures Weight(es, FromTo(t, r)) <= Weight(es, FromTo(r, t))
    ensures (exists u :: u in t && OutW(es, r, u) < InW(es, r, u)) ==> Weight(es, FromTo(t, r)) < Weight(es, FromTo(r, t))
  {
    if t == {} {
      WeightSame(es, FromTo(t, r), FromTo(r, t));
    } else {
      var x := AnyOf(t);
      DeficitsAdd(es, t - {x}, r);
      WeightSplits(es, FromTo(t, r), FromTo(t - {x}, r), OutOf(x, r));
      WeightSplits(es, FromTo(r, t), FromTo(r, t - {x}), Into(x, r));
    }
  }

  lemma NoDeficitsMeansBalanced(es: seq<Edge>, r: set<Node>)
    requires forall u :: u in r ==> OutW(es, r, u) <= InW(es, r, u)
    ensures forall u :: u in r ==> OutW(es, r, u) == InW(es, r, u)
  {
    DeficitsAdd(es, r, r);
  }

  // -------------------------------------------------------------------------
  // The bound |E|/2 - |V|/6, up to a third for every pair of nodes that depend on each other directly
  // -------------------------------------------------------------------------

  // Pairs of opposite arcs, the smaller node first.
  ghost function Opposites(arcs: set<(Node, Node)>): set<(Node, Node)>
  {
    set a | a in arcs && a.0 < a.1 && (a.1, a.0) in arcs
  }

  ghost function TwoCycles(es: seq<Edge>): set<(Node, Node)>
  {
    Opposites(ArcsOf(es))
  }

  ghost function SettledTwoCycles(es: seq<Edge>, r: set<Node>): set<(Node, Node)>
  {
    set a | a in TwoCycles(es) && !(a.0 in r && a.1 in r)
  }

  // The other ends of the two-cycles through u within s.
  ghost function Partners(es: seq<Edge>, s: set<Node>, u: Node): set<Node>
  {
    set x | x in s && x != u && (u, x) in ArcsOf(es) && (x, u) in ArcsOf(es)
  }

  ghost function Ordered(u: Node, x: Node): (Node, Node)
  {
    if u < x then (u, x) else (x, u)
  }

  ghost function PairsWith(u: Node, s: set<Node>): set<(Node, Node)>
  {
    set x | x in s :: Ordered(u, x)
  }

  lemma {:induction false} PairsSize(u: Node, s: set<Node>)
    requires u !in s
    ensures |PairsWith(u, s)| == |s|
    decreases s
  {
    if s == {} {
      assert PairsWith(u, s) == {};
    } else {
      var x := AnyOf(s);
      PairsSize(u, s - {x});
      assert PairsWith(u, s) == PairsWith(u, s - {x}) + {Ordered(u, x)};
      assert Ordered(u, x) !in PairsWith(u, s - {x});
    }
  }

  // Placing u settles the two-cycles through it.
  lemma TwoCyclesSettle(es: seq<Edge>, r: set<Node>, u: Node)
    requires u in r
    ensures |SettledTwoCycles(es, r - {u})| >= |SettledTwoCycles(es, r)| + |Partners(es, r, u)|
  {
    hide ArcsOf;
    var settled, more := SettledTwoCycles(es, r), PairsWith(u, Partners(es, r, u));
    PairsSize(u, Partners(es, r, u));
    assert settled !! more;
    assert |settled + more| == |settled| + |more|;
    SubsetSize(settled + more, SettledTwoCycles(es, r - {u}));
  }

  ghost function Isolated(es: seq<Edge>, r: set<Node>): set<Node>
  {
    set u | u in r && OutW(es, r, u) == 0 && InW(es, r, u) == 0
  }

  ghost predicate Unbalanced(es: seq<Edge>, r: set<Node>, u: Node)
  {
    u in r && OutW(es, r, u) != InW(es, r, u)
  }

  // The potential argument. Six times the weight saved against one half, and two for every two-cycle, pay for
  // every placed node and, in advance, for every isolated one; a balanced greedy pick that no two-cycle pays
  // for is paid for by the next pick with edges, which an unbalanced node guarantees.
  ghost predicate Paid(es: seq<Edge>, r: set<Node>, rank: map<Node, int>, owed: bool)
  {
    && 6 * BackW(es, rank) + |rank| + |Isolated(es, r)|
       <= 3 * Weight(es, Settled(r)) + 2 * |SettledTwoCycles(es, r)| + (if owed then 1 else 0)
    && (owed ==> exists x :: Unbalanced(es, r, x))
  }

  lemma OutZero(es: seq<Edge>, s: set<Node>, u: Node)
    requires Positive(es)
    ensures OutW(es, s, u) == 0 <==> forall e :: e in es && e.a == u ==> e.b !in s
    ensures InW(es, s, u) == 0 <==> forall e :: e in es && e.b == u ==> e.a !in s
  {
    WeightZero(es, OutOf(u, s));
    WeightZero(es, Into(u, s));
  }

  // Nodes joined to u by an edge within s.
  ghost function Neighbours(es: seq<Edge>, s: set<Node>, u: Node): set<Node>
  {
    (set e | e in es && e.a == u && e.b in s :: e.b) + (set e | e in es && e.b == u && e.a in s :: e.a)
  }

  lemma {:induction false} FewNeighbours(es: seq<Edge>, s: set<Node>, u: Node)
    requires Positive(es)
    ensures |Neighbours(es, s, u)| <= OutW(es, s, u) + InW(es, s, u)
  {
    if es == [] {
      assert Neighbours(es, s, u) == {};
    } else {
      var init, e := es[..|es| - 1], es[|es| - 1];
      assert es == init + [e];
      FewNeighbours(init, s, u);
      NeighboursSnoc(init, e, s, u);
    }
  }

  lemma NeighboursSnoc(init: seq<Edge>, e: Edge, s: set<Node>, u: Node)
    ensures |Neighbours(init + [e], s, u)| <= |Neighbours(init, s, u)| +
              (if e.a == u && e.b in s then 1 else 0) + (if e.b == u && e.a in s then 1 else 0)
  {
    var more := (if e.a == u && e.b in s then {e.b} else {}) + (if e.b == u && e.a in s then {e.a} else {});
    forall x | x in Neighbours(init + [e], s, u)
      ensures x in Neighbours(init, s, u) + more
    {
    }
    SubsetSize(Neighbours(init + [e], s, u), Neighbours(init, s, u) + more);
  }

  // Taking u away isolates nothing but neighbours of u.
  lemma IsolatedAfter(es: seq<Edge>, r: set<Node>, u: Node)
    requires Positive(es) && u in r
    ensures Isolated(es, r - {u}) <= Isolated(es, r) - {u} + Neighbours(es, r - {u}, u)
  {
    forall x | x in Isolated(es, r - {u})
      ensures x in Isolated(es, r) - {u} + Neighbours(es, r - {u}, u)
    {
      OutZero(es, r - {u}, x);
      OutZero(es, r, x);
    }
  }

  // A node with no edges left takes nothing with it but itself.
  lemma IsolatedGoes(es: seq<Edge>, r: set<Node>, u: Node)
    requires Positive(es) && u in Isolated(es, r)
    ensures |Isolated(es, r - {u})| <= |Isolated(es, r)| - 1
    ensures OutW(es, r, u) == 0 && InW(es, r - {u}, u) == 0
  {
    OutZero(es, r, u);
    OutZero(es, r - {u}, u);
    IsolatedAfter(es, r, u);
    assert Neighbours(es, r - {u}, u) == {};
    assert |Isolated(es, r) - {u}| == |Isolated(es, r)| - 1;
    SubsetSize(Isolated(es, r - {u}), Isolated(es, r) - {u});
  }

  lemma UnbalancedStays(es: seq<Edge>, r: set<Node>, u: Node, x: Node)
    requires Positive(es) && u in Isolated(es, r) && Unbalanced(es, r, x)
    ensures Unbalanced(es, r - {u}, x)
  {
    OutZero(es, r, u);
    WeightOut(es, r, u, x);
    OutZero(es, {u}, x);
  }

  // It costs what had been set aside for it.
  lemma PayIsolated(es: seq<Edge>, r: set<Node>, rank: map<Node, int>, owed: bool, u: Node, rank': map<Node, int>)
    requires Positive(es) && u in Isolated(es, r) && Paid(es, r, rank, owed)
    requires u !in rank && rank'.Keys == rank.Keys + {u} && BackW(es, rank') == BackW(es, rank)
    ensures Paid(es, r - {u}, rank', owed)
  {
    assert u in r;
    hide Isolated, OutW, InW, BackW, SettledTwoCycles, Partners, Positive, Unbalanced;
    IsolatedGoes(es, r, u);
    PlaceSettles(es, r, u);
    TwoCyclesSettle(es, r, u);
    if owed {
      var x :| Unbalanced(es, r, x);
      UnbalancedStays(es, r, u, x);
    }
    assert |rank'| == |rank'.Keys| == |rank.Keys| + 1;
  }

  ghost function Loop(u: Node): Edge -> bool
  {
    (e: Edge) => e.a == u && e.b == u
  }

  // A self-loop leaves and enters its node.
  lemma LoopBothWays(es: seq<Edge>, r: set<Node>, u: Node)
    requires u in r
    ensures OutW(es, r, u) == OutW(es, r - {u}, u) + Weight(es, Loop(u))
    ensures InW(es, r, u) == InW(es, r - {u}, u) + Weight(es, Loop(u))
  {
    WeightSplits(es, OutOf(u, r), OutOf(u, r - {u}), Loop(u));
    WeightSplits(es, Into(u, r), Into(u, r - {u}), Loop(u));
  }

  // A sink or a source with edges pays for itself, for the neighbours it isolates and for what is owed.
  lemma PayEnd(es: seq<Edge>, r: set<Node>, rank: map<Node, int>, owed: bool, u: Node, rank': map<Node, int>)
    requires Positive(es) && u in r && Paid(es, r, rank, owed)
    requires OutW(es, r, u) == 0 || InW(es, r, u) == 0
    requires OutW(es, r, u) + InW(es, r, u) > 0
    requires u !in rank && rank'.Keys == rank.Keys + {u} && BackW(es, rank') == BackW(es, rank)
    ensures Paid(es, r - {u}, rank', false)
  {
    hide OutW, InW, BackW, Neighbours, SettledTwoCycles, Partners, Isolated, Positive;
    LoopBothWays(es, r, u);
    PlaceSettles(es, r, u);
    TwoCyclesSettle(es, r, u);
    IsolatedAfter(es, r, u);
    FewNeighbours(es, r - {u}, u);
    SubsetSize(Isolated(es, r - {u}), Isolated(es, r) + Neighbours(es, r - {u}, u));
    assert |rank'| == |rank'.Keys| == |rank.Keys| + 1;
  }

  // Neither a sink nor a source is left: this is what a cycle in the way looks like.
  ghost predicate Stuck(es: seq<Edge>, r: set<Node>)
  {
    forall u :: u in r ==> OutW(es, r, u) > 0 && InW(es, r, u) > 0
  }

  // Then taking a node away isolates no node but one whose only neighbour it was, in both directions.
  lemma StuckIsolatesPartners(es: seq<Edge>, r: set<Node>, u: Node)
    requires Positive(es) && Stuck(es, r)
    ensures |Isolated(es, r)| == 0 && |Isolated(es, r - {u})| <= |Partners(es, r, u)|
  {
    assert Isolated(es, r) == {};
    forall x | x in Isolated(es, r - {u})
      ensures x in Partners(es, r, u)
    {
      OutZero(es, r, x);
      OutZero(es, r - {u}, x);
      var e :| e in es && e.a == x && e.b in r;
      var f :| f in es && f.b == x && f.a in r;
      assert e.b == u && f.a == u;
    }
    SubsetSize(Isolated(es, r - {u}), Partners(es, r, u));
  }

  lemma PayGreedy(es: seq<Edge>, r: set<Node>, rank: map<Node, int>, owed: bool, u: Node, rank': map<Node, int>)
    requires Positive(es) && u in r && Stuck(es, r) && Paid(es, r, rank, owed)
    requires OutW(es, r, u) > InW(es, r, u)
    requires u !in rank && rank'.Keys == rank.Keys + {u} && BackW(es, rank') == BackW(es, rank) + InW(es, r - {u}, u)
    ensures Paid(es, r - {u}, rank', false)
  {
    hide OutW, InW, BackW, SettledTwoCycles, Partners, Isolated, Positive, Stuck;
    LoopBothWays(es, r, u);
    PlaceSettles(es, r, u);
    TwoCyclesSettle(es, r, u);
    StuckIsolatesPartners(es, r, u);
    assert |rank'| == |rank'.Keys| == |rank.Keys| + 1;
  }

  ghost predicate SomeUnbalanced(es: seq<Edge>, r: set<Node>)
  {
    exists x :: Unbalanced(es, r, x)
  }

  // From a balanced graph a node without a self-loop goes: what is left is unbalanced, or a two-cycle is settled.
  lemma LeavesUnbalanced(es: seq<Edge>, r: set<Node>, u: Node)
    requires Positive(es) && u in r && Stuck(es, r)
    requires forall x :: x in r ==> OutW(es, r, x) == InW(es, r, x)
    ensures SomeUnbalanced(es, r - {u}) || Weight(es, Loop(u)) > 0 || |Partners(es, r, u)| > 0
  {
    hide OutW, InW, Weight;
    OutZero(es, r, u);
    var e :| e in es && e.b == u && e.a in r;
    var y := e.a;
    if y == u {
      WeightAtLeast(es, Loop(u), e);
    } else {
      WeightOut(es, r, u, y);
      OutZero(es, {u}, y);
      if InW(es, {u}, y) == 0 {
        assert Unbalanced(es, r - {u}, y);
      } else {
        var f :| f in es && f.b == y && f.a in {u};
        assert y in Partners(es, r, u);
      }
    }
  }

  // The best pick gains nothing only when every node is balanced; afterwards one is not, or a two-cycle pays.
  lemma PayBalanced(es: seq<Edge>, r: set<Node>, rank: map<Node, int>, owed: bool, u: Node, rank': map<Node, int>)
    requires Positive(es) && u in r && Stuck(es, r) && Paid(es, r, rank, owed)
    requires forall x :: x in r ==> OutW(es, r, x) == InW(es, r, x)
    requires u !in rank && rank'.Keys == rank.Keys + {u} && BackW(es, rank') == BackW(es, rank) + InW(es, r - {u}, u)
    ensures Paid(es, r - {u}, rank', SomeUnbalanced(es, r - {u}))
  {
    hide Isolated, BackW, OutW, InW, SettledTwoCycles, Partners, Positive, Stuck;
    LoopBothWays(es, r, u);
    PlaceSettles(es, r, u);
    TwoCyclesSettle(es, r, u);
    StuckIsolatesPartners(es, r, u);
    assert |rank'| == |rank'.Keys| == |rank.Keys| + 1;
    LeavesUnbalanced(es, r, u);
  }
}
