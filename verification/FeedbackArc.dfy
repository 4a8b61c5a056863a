/** feedback_arc_order of tools/code_health.py: sinks to the front of the order, sources to the back,
    and when neither is left the node with the largest outgoing-minus-incoming weight. */
module FeedbackArc {
  import opened EdgeWeights
  import opened Lists
  import opened Peeling
  import opened Reachability

  // -------------------------------------------------------------------------
  // Tables and worklists
  // -------------------------------------------------------------------------

  ghost function Leaving(u: Node): Edge -> bool
  {
    (e: Edge) => e.a == u
  }

  ghost function Entering(u: Node): Edge -> bool
  {
    (e: Edge) => e.b == u
  }

  datatype Worklists = Worklists(remaining: set<Node>, outW: map<Node, int>, inW: map<Node, int>,
                                 sinks: seq<Node>, sources: seq<Node>)

  // The counters hold the weights within what remains.
  ghost predicate Counted(es: seq<Edge>, w: Worklists)
  {
    forall v :: v in w.remaining ==> v in w.outW && v in w.inW && w.outW[v] == OutW(es, w.remaining, v) && w.inW[v] == InW(es, w.remaining, v)
  }

  // As far as the nodes of s go, the worklists hold every sink and every source, and nothing else.
  ghost predicate Listed(w: Worklists, s: set<Node>)
    requires forall v :: v in s ==> v in w.outW && v in w.inW
  {
    forall v :: v in s ==>
      && (v in w.sinks <==> w.outW[v] == 0)
      && (v in w.sources ==> w.inW[v] == 0)
      && (w.inW[v] == 0 ==> v in w.sources || w.outW[v] == 0)
  }

  lemma SuccessorShare(es: seq<Edge>, out: seq<Edge>, s: set<Node>, u: Node, v: Node)
    requires Positive(es) && u in s && v in s && out == Select(es, Leaving(u))
    ensures InW(es, s, v) == InW(es, s - {u}, v) + Weight(out, Entering(v))
  {
    WeightOut(es, s, u, v);
    WeightSelect(es, Leaving(u), Entering(v));
    WeightSame(es, e => Leaving(u)(e) && Entering(v)(e), Into(v, {u}));
  }

  lemma PredecessorShare(es: seq<Edge>, inn: seq<Edge>, s: set<Node>, u: Node, v: Node)
    requires Positive(es) && u in s && v in s && inn == Select(es, Entering(u))
    ensures OutW(es, s, v) == OutW(es, s - {u}, v) + Weight(inn, Leaving(v))
  {
    WeightOut(es, s, u, v);
    WeightSelect(es, Entering(u), Leaving(v));
    WeightSame(es, e => Entering(u)(e) && Leaving(v)(e), OutOf(v, {u}));
  }

  lemma ShareStep(es: seq<Edge>, k: nat, p: Edge -> bool)
    requires k < |es|
    ensures Weight(es[k..], p) == (if p(es[k]) then es[k].n else 0) + Weight(es[k + 1..], p)
  {
    WeightHead(es[k..], p);
    assert es[k..][1..] == es[k + 1..];
  }

  // The loop over succ[u]: what depended on by u loses incoming weight, and may become a source.
  method DropOutgoing(ghost es: seq<Edge>, out: seq<Edge>, remaining: set<Node>, outW: map<Node, int>,
                      inW0: map<Node, int>, sources0: seq<Node>)
    returns (inW: map<Node, int>, sources: seq<Node>)
    requires Positive(out) && forall v :: v in remaining ==> v in outW
    requires forall v :: v in remaining ==> v in inW0 && inW0[v] == InW(es, remaining, v) + Weight(out, Entering(v))
    requires forall v :: v in remaining && v in sources0 ==> inW0[v] == 0
    requires forall v :: v in remaining && inW0[v] == 0 ==> v in sources0 || outW[v] == 0
    ensures forall v :: v in remaining ==> v in inW && inW[v] == InW(es, remaining, v)
    ensures forall v :: v in remaining && v in sources ==> inW[v] == 0
    ensures forall v :: v in remaining && inW[v] == 0 ==> v in sources || outW[v] == 0
  {
    hide InW, Weight;
    inW, sources := inW0, sources0;
    assert out[0..] == out;
    for k := 0 to |out|
      invariant forall v :: v in remaining ==> v in inW && inW[v] == InW(es, remaining, v) + Weight(out[k..], Entering(v))
      invariant forall v :: v in remaining && v in sources ==> inW[v] == 0
      invariant forall v :: v in remaining && inW[v] == 0 ==> v in sources || outW[v] == 0
    {
      var e := out[k];
      assert e in out;
      forall v | v in remaining
        ensures Weight(out[k..], Entering(v)) == (if e.b == v then e.n else 0) + Weight(out[k + 1..], Entering(v))
      {
        ShareStep(out, k, Entering(v));
      }
      if e.b in remaining {
        inW := inW[e.b := inW[e.b] - e.n];
        if inW[e.b] == 0 && outW[e.b] != 0 {
          sources := sources + [e.b];
        }
      }
    }
    forall v | v in remaining
      ensures Weight(out[|out|..], Entering(v)) == 0
    {
      WeightNothing(out[|out|..], Entering(v));
    }
  }

  lemma WeightNothing(es: seq<Edge>, p: Edge -> bool)
    requires es == []
    ensures Weight(es, p) == 0
  {
  }

  // The loop over pred[u]: what depends on u loses outgoing weight, and may become a sink.
  method DropIncoming(ghost es: seq<Edge>, inn: seq<Edge>, remaining: set<Node>, outW0: map<Node, int>, sinks0: seq<Node>)
    returns (outW: map<Node, int>, sinks: seq<Node>)
    requires Positive(inn)
    requires forall v :: v in remaining ==> v in outW0 && outW0[v] == OutW(es, remaining, v) + Weight(inn, Leaving(v))
    requires forall v :: v in remaining ==> (v in sinks0 <==> outW0[v] == 0)
    ensures forall v :: v in remaining ==> v in outW && outW[v] == OutW(es, remaining, v)
    ensures forall v :: v in remaining ==> (v in sinks <==> outW[v] == 0)
    ensures forall v :: v in remaining && outW0[v] == 0 ==> outW[v] == 0
  {
    hide OutW, Weight;
    outW, sinks := outW0, sinks0;
    assert inn[0..] == inn;
    for k := 0 to |inn|
      invariant forall v :: v in remaining ==> v in outW && outW[v] == OutW(es, remaining, v) + Weight(inn[k..], Leaving(v))
      invariant forall v :: v in remaining ==> (v in sinks <==> outW[v] == 0)
      invariant forall v :: v in remaining && outW0[v] == 0 ==> outW[v] == 0
    {
      var e := inn[k];
      assert e in inn;
      forall v | v in remaining
        ensures Weight(inn[k..], Leaving(v)) == (if e.a == v then e.n else 0) + Weight(inn[k + 1..], Leaving(v))
      {
        ShareStep(inn, k, Leaving(v));
      }
      if e.a in remaining {
        outW := outW[e.a := outW[e.a] - e.n];
        if outW[e.a] == 0 {
          sinks := sinks + [e.a];
        }
      }
    }
    forall v | v in remaining
      ensures Weight(inn[|inn|..], Leaving(v)) == 0
    {
      WeightNothing(inn[|inn|..], Leaving(v));
    }
  }

  // Take u out of what remains and bring counters and worklists up to date.
  method Drop(ghost es: seq<Edge>, out: seq<Edge>, inn: seq<Edge>, w: Worklists, u: Node) returns (w': Worklists)
    requires Positive(es) && Counted(es, w) && u in w.remaining && Listed(w, w.remaining - {u})
    requires out == Select(es, Leaving(u)) && inn == Select(es, Entering(u))
    ensures w'.remaining == w.remaining - {u} && Counted(es, w') && Listed(w', w'.remaining)
  {
    var remaining := w.remaining - {u};
    WeightSelect(es, Leaving(u), Leaving(u));
    WeightSelect(es, Entering(u), Leaving(u));
    forall v | v in remaining
      ensures InW(es, w.remaining, v) == InW(es, remaining, v) + Weight(out, Entering(v))
      ensures OutW(es, w.remaining, v) == OutW(es, remaining, v) + Weight(inn, Leaving(v))
    {
      SuccessorShare(es, out, w.remaining, u, v);
      PredecessorShare(es, inn, w.remaining, u, v);
    }
    hide OutW, InW, Weight;
    var inW, sources := DropOutgoing(es, out, remaining, w.outW, w.inW, w.sources);
    var outW, sinks := DropIncoming(es, inn, remaining, w.outW, w.sinks);
    w' := Worklists(remaining, outW, inW, sinks, sources);
  }

  // -------------------------------------------------------------------------
  // The order under construction
  // -------------------------------------------------------------------------

  // Ghost record of the run: where each node was placed, what the potential argument is owed, and
  // whether a greedy pick was ever needed.
  datatype Trace = Trace(rank: map<Node, int>, owed: bool, greedy: bool)

  ghost predicate Laid(head: seq<Node>, tail: seq<Node>, rank: map<Node, int>)
  {
    && (forall x :: x in rank <==> x in head || x in tail)
    && (forall i :: 0 <= i < |tail| ==> tail[i] in rank && rank[tail[i]] < 0)
    && (forall i :: 0 <= i < |head| ==> head[i] in rank && rank[head[i]] > 0)
    && (forall i, j :: 0 <= i < j < |tail| ==> rank[tail[i]] < rank[tail[j]])
    && (forall i, j :: 0 <= i < j < |head| ==> rank[head[i]] > rank[head[j]])
  }

  // u has the largest outgoing-minus-incoming weight of r, by name among equals.
  ghost predicate IsBest(es: seq<Edge>, r: set<Node>, u: Node)
  {
    forall x :: x in r ==>
      OutW(es, r, x) - InW(es, r, x) < OutW(es, r, u) - InW(es, r, u)
      || (OutW(es, r, x) - InW(es, r, x) == OutW(es, r, u) - InW(es, r, u) && x <= u)
  }

  // With r left, u may go to the given place: a sink to the one end, to the other a source or, when there is
  // neither, the best node.
  ghost predicate MayPlace(es: seq<Edge>, r: set<Node>, u: Node, place: int)
  {
    && u in r
    && ((place == -|r| && OutW(es, r, u) == 0)
        || (place == |r| && (InW(es, r, u) == 0 || (Stuck(es, r) && IsBest(es, r, u)))))
  }

  // What was left when the node at distance k from the middle was placed.
  ghost function LeftAt(r: set<Node>, rank: map<Node, int>, k: int): set<Node>
  {
    r + set x | x in rank && -k <= rank[x] <= k
  }

  function Abs(x: int): nat { if x < 0 then -x else x }

  // Every node went where the greedy rule lets it go.
  ghost predicate Followed(es: seq<Edge>, r: set<Node>, rank: map<Node, int>)
  {
    forall u :: u in rank ==> MayPlace(es, LeftAt(r, rank, Abs(rank[u])), u, rank[u])
  }

  lemma FollowedMore(es: seq<Edge>, nodes: set<Node>, r: set<Node>, rank: map<Node, int>, u: Node, place: int)
    requires Ranked(nodes, r, rank) && Followed(es, r, rank) && MayPlace(es, r, u, place)
    ensures Followed(es, r - {u}, rank[u := place])
  {
    hide MayPlace, LeftAt;
    assert u in r && Abs(place) == |r| by { PlaceIsSize(es, r, u, place); }
    var rank' := rank[u := place];
    forall v | v in rank'
      ensures MayPlace(es, LeftAt(r - {u}, rank', Abs(rank'[v])), v, rank'[v])
    {
      LeftAtMore(nodes, r, rank, u, place, Abs(rank'[v]));
    }
  }

  lemma LeftAtMore(nodes: set<Node>, r: set<Node>, rank: map<Node, int>, u: Node, place: int, k: int)
    requires Ranked(nodes, r, rank) && u in r && Abs(place) == |r|
    ensures k == |r| ==> LeftAt(r - {u}, rank[u := place], k) == r
    ensures k > |r| ==> LeftAt(r - {u}, rank[u := place], k) == LeftAt(r, rank, k)
  {
    var rank' := rank[u := place];
    if k == |r| {
      assert forall x :: x in LeftAt(r - {u}, rank', k) <==> x in r;
    } else if k > |r| {
      assert forall x :: x in LeftAt(r - {u}, rank', k) <==> x in LeftAt(r, rank, k);
    }
  }

  lemma PlaceIsSize(es: seq<Edge>, r: set<Node>, u: Node, place: int)
    requires MayPlace(es, r, u, place)
    ensures u in r && Abs(place) == |r|
  {
  }

  // What every placement keeps: at most half of the settled weight points backwards, and by the potential
  // argument less; the greedy rule is followed, and a greedy pick happens only when there is a cycle.
  ghost predicate Kept(es: seq<Edge>, nodes: set<Node>, r: set<Node>, t: Trace)
  {
    && Spans(es, nodes) && Positive(es) && Ranked(nodes, r, t.rank)
    && 2 * BackW(es, t.rank) <= Weight(es, Settled(r))
    && Paid(es, r, t.rank, t.owed) && Followed(es, r, t.rank)
    && (if t.greedy then !Acyclic(ArcsOf(es)) else BackW(es, t.rank) == 0)
  }

  ghost function AfterEnd(es: seq<Edge>, r: set<Node>, t: Trace, u: Node, rank: int): Trace
  {
    Trace(t.rank[u := rank], t.owed && u in Isolated(es, r), t.greedy)
  }

  ghost function AfterPick(es: seq<Edge>, r: set<Node>, t: Trace, u: Node): Trace
  {
    Trace(t.rank[u := |r|], OutW(es, r, u) == InW(es, r, u) && SomeUnbalanced(es, r - {u}), true)
  }

  lemma LaidTail(head: seq<Node>, tail: seq<Node>, nodes: set<Node>, r: set<Node>, rank: map<Node, int>, u: Node)
    requires Laid(head, tail, rank) && Ranked(nodes, r, rank) && u in r
    ensures Laid(head, tail + [u], rank[u := -|r|])
  {
    assert |r - {u}| == |r| - 1;
    var tail' := tail + [u];
    assert tail'[|tail|] == u;
    forall i | 0 <= i < |tail|
      ensures tail'[i] == tail[i] && tail[i] in rank && tail[i] != u && rank[tail[i]] < -|r|
    {
      assert tail[i] in rank;
    }
    assert forall x :: x in tail' <==> x in tail || x == u;
  }

  lemma LaidHead(head: seq<Node>, tail: seq<Node>, nodes: set<Node>, r: set<Node>, rank: map<Node, int>, u: Node)
    requires Laid(head, tail, rank) && Ranked(nodes, r, rank) && u in r
    ensures Laid(head + [u], tail, rank[u := |r|])
  {
    assert |r - {u}| == |r| - 1;
    var head' := head + [u];
    assert head'[|head|] == u;
    forall i | 0 <= i < |head|
      ensures head'[i] == head[i] && head[i] in rank && head[i] != u && rank[head[i]] > |r|
    {
      assert head[i] in rank;
    }
    assert forall x :: x in head' <==> x in head || x == u;
  }

  lemma OutShrinks(es: seq<Edge>, r: set<Node>, u: Node)
    requires Positive(es)
    ensures OutW(es, r - {u}, u) <= OutW(es, r, u) && InW(es, r - {u}, u) <= InW(es, r, u)
  {
    WeightMonotone(es, OutOf(u, r - {u}), OutOf(u, r));
    WeightMonotone(es, Into(u, r - {u}), Into(u, r));
  }

  lemma KeptEnd(es: seq<Edge>, nodes: set<Node>, r: set<Node>, t: Trace, u: Node, rank: int)
    requires Kept(es, nodes, r, t) && u in r
    requires (rank == -|r| && OutW(es, r, u) == 0) || (rank == |r| && InW(es, r, u) == 0)
    ensures Kept(es, nodes, r - {u}, AfterEnd(es, r, t, u, rank))
  {
    hide Acyclic, Ranked, Paid, Isolated, Followed, MayPlace, LeftAt, OutW, InW, BackW, Spans, Positive;
    EndMayBePlaced(es, r, u, rank);
    FollowedMore(es, nodes, r, t.rank, u, rank);
    EndCostsNothing(es, nodes, r, t.rank, u, rank);
    PaidEnd(es, r, t, u, rank);
  }

  lemma EndCostsNothing(es: seq<Edge>, nodes: set<Node>, r: set<Node>, rank: map<Node, int>, u: Node, place: int)
    requires Spans(es, nodes) && Ranked(nodes, r, rank) && Positive(es) && u in r
    requires (place == -|r| && OutW(es, r, u) == 0) || (place == |r| && InW(es, r, u) == 0)
    ensures u !in rank && Ranked(nodes, r - {u}, rank[u := place]) && BackW(es, rank[u := place]) == BackW(es, rank)
    ensures Weight(es, Settled(r - {u})) >= Weight(es, Settled(r))
  {
    assert u !in rank;
    hide OutW, InW, BackW, Ranked, Settled;
    OutShrinks(es, r, u);
    PlaceSettles(es, r, u);
    if place == -|r| {
      PlaceFront(es, nodes, r, rank, u);
    } else {
      PlaceBack(es, nodes, r, rank, u);
    }
  }

  lemma EndMayBePlaced(es: seq<Edge>, r: set<Node>, u: Node, rank: int)
    requires u in r && ((rank == -|r| && OutW(es, r, u) == 0) || (rank == |r| && InW(es, r, u) == 0))
    ensures MayPlace(es, r, u, rank)
  {
    hide OutW, InW, Stuck, IsBest;
  }

  lemma PaidEnd(es: seq<Edge>, r: set<Node>, t: Trace, u: Node, rank: int)
    requires Positive(es) && Paid(es, r, t.rank, t.owed) && u in r && u !in t.rank
    requires OutW(es, r, u) == 0 || InW(es, r, u) == 0
    requires BackW(es, t.rank[u := rank]) == BackW(es, t.rank)
    ensures var t' := AfterEnd(es, r, t, u, rank); Paid(es, r - {u}, t'.rank, t'.owed)
  {
    hide Acyclic, Paid, BackW;
    if u in Isolated(es, r) {
      PayIsolated(es, r, t.rank, t.owed, u, t.rank[u := rank]);
    } else {
      PayEnd(es, r, t.rank, t.owed, u, t.rank[u := rank]);
    }
  }

  lemma ArcOfEdge(es: seq<Edge>, e: Edge)
    requires e in es
    ensures (e.a, e.b) in ArcsOf(es)
  {
  }

  lemma StuckHasCycle(es: seq<Edge>, r: set<Node>, u: Node)
    requires Positive(es) && Stuck(es, r) && u in r
    ensures !Acyclic(ArcsOf(es))
  {
    hide Acyclic, ArcsOf, Weight;
    forall x | x in r
      ensures exists y :: y in r && (x, y) in ArcsOf(es)
    {
      OutZero(es, r, x);
      var e :| e in es && e.a == x && e.b in r;
      ArcOfEdge(es, e);
    }
    NoSinkHasCycle(ArcsOf(es), r, u);
  }

  // The greedy pick loses no more than it gains.
  lemma BestGains(es: seq<Edge>, r: set<Node>, u: Node)
    requires u in r && forall x :: x in r ==> OutW(es, r, x) - InW(es, r, x) <= OutW(es, r, u) - InW(es, r, u)
    ensures OutW(es, r, u) >= InW(es, r, u)
    ensures OutW(es, r, u) == InW(es, r, u) ==> forall x :: x in r ==> OutW(es, r, x) == InW(es, r, x)
  {
    if OutW(es, r, u) <= InW(es, r, u) {
      NoDeficitsMeansBalanced(es, r);
    }
  }

  lemma KeptPick(es: seq<Edge>, nodes: set<Node>, r: set<Node>, t: Trace, u: Node)
    requires Kept(es, nodes, r, t) && u in r && Stuck(es, r) && IsBest(es, r, u)
    ensures Kept(es, nodes, r - {u}, AfterPick(es, r, t, u))
  {
    assert MayPlace(es, r, u, |r|);
    hide Stuck, Isolated, Paid, InW, OutW, Acyclic, BackW, Positive, Followed, MayPlace, LeftAt;
    FollowedMore(es, nodes, r, t.rank, u, |r|);
    BestGains(es, r, u);
    StuckHasCycle(es, r, u);
    PlaceSettles(es, r, u);
    PlaceBack(es, nodes, r, t.rank, u);
    PickHalf(es, r, u);
    PaidPick(es, r, t, u);
  }

  lemma PaidPick(es: seq<Edge>, r: set<Node>, t: Trace, u: Node)
    requires Positive(es) && Paid(es, r, t.rank, t.owed) && u in r && u !in t.rank && Stuck(es, r)
    requires OutW(es, r, u) >= InW(es, r, u)
    requires OutW(es, r, u) == InW(es, r, u) ==> forall x :: x in r ==> OutW(es, r, x) == InW(es, r, x)
    requires BackW(es, t.rank[u := |r|]) == BackW(es, t.rank) + InW(es, r - {u}, u)
    ensures var t' := AfterPick(es, r, t, u); Paid(es, r - {u}, t'.rank, t'.owed)
  {
    hide Stuck, Paid, InW, OutW, BackW, Positive, SomeUnbalanced;
    if OutW(es, r, u) == InW(es, r, u) {
      PayBalanced(es, r, t.rank, t.owed, u, t.rank[u := |r|]);
    } else {
      PayGreedy(es, r, t.rank, t.owed, u, t.rank[u := |r|]);
    }
  }

  // Self-loops leave and enter u at once, and never point backwards.
  lemma PickHalf(es: seq<Edge>, r: set<Node>, u: Node)
    requires u in r && OutW(es, r, u) >= InW(es, r, u)
    ensures OutW(es, r, u) >= InW(es, r - {u}, u)
  {
    WeightMonotone(es, Into(u, r - {u}), Into(u, r));
  }

  // -------------------------------------------------------------------------
  // The run
  // -------------------------------------------------------------------------

  ghost function Ends(es: seq<Edge>): set<Node>
  {
    (set e | e in es :: e.a) + (set e | e in es :: e.b)
  }

  // An edge points up the derived stack when the node it leaves is the lower one.
  ghost function PointsUp(order: seq<Node>): Edge -> bool
  {
    (e: Edge) => exists i, j :: 0 <= i < j < |order| && order[i] == e.a && order[j] == e.b
  }

  ghost function Every(): Edge -> bool
  {
    (e: Edge) => true
  }

  ghost function Total(es: seq<Edge>): nat
  {
    Weight(es, Every())
  }

  ghost predicate SelfLoopFree(es: seq<Edge>)
  {
    forall e :: e in es ==> e.a != e.b
  }

  ghost predicate Peeled(es: seq<Edge>, nodes: set<Node>, w: Worklists, head: seq<Node>, tail: seq<Node>, t: Trace)
  {
    Kept(es, nodes, w.remaining, t) && Laid(head, tail, t.rank) && Counted(es, w) && Listed(w, w.remaining)
  }

  lemma SinkIsZero(es: seq<Edge>, w: Worklists, u: Node)
    requires Counted(es, w) && Listed(w, w.remaining) && u in w.remaining && u in w.sinks
    ensures OutW(es, w.remaining, u) == 0
  {
  }

  lemma SourceIsZero(es: seq<Edge>, w: Worklists, u: Node)
    requires Counted(es, w) && Listed(w, w.remaining) && u in w.remaining && u in w.sources
    ensures InW(es, w.remaining, u) == 0
  {
  }

  lemma PeelSink(es: seq<Edge>, nodes: set<Node>, w: Worklists, head: seq<Node>, tail: seq<Node>, t: Trace, u: Node, w': Worklists)
    requires Peeled(es, nodes, w, head, tail, t) && u in w.remaining && u in w.sinks
    requires w'.remaining == w.remaining - {u} && Counted(es, w') && Listed(w', w'.remaining)
    ensures Peeled(es, nodes, w', head, tail + [u], AfterEnd(es, w.remaining, t, u, -|w.remaining|))
  {
    hide Kept, Laid, Counted, Listed, OutW, InW, AfterEnd;
    SinkIsZero(es, w, u);
    PeelEnd(es, nodes, w, t, u, -|w.remaining|);
    LaidTail(head, tail, nodes, w.remaining, t.rank, u);
  }

  lemma PeelEnd(es: seq<Edge>, nodes: set<Node>, w: Worklists, t: Trace, u: Node, place: int)
    requires Kept(es, nodes, w.remaining, t) && u in w.remaining
    requires (place == -|w.remaining| && OutW(es, w.remaining, u) == 0) || (place == |w.remaining| && InW(es, w.remaining, u) == 0)
    ensures Kept(es, nodes, w.remaining - {u}, AfterEnd(es, w.remaining, t, u, place))
    ensures AfterEnd(es, w.remaining, t, u, place).rank == t.rank[u := place] && Ranked(nodes, w.remaining, t.rank)
  {
    KeptEnd(es, nodes, w.remaining, t, u, place);
    hide Ranked, Paid, Followed, Acyclic;
  }

  lemma PeelSource(es: seq<Edge>, nodes: set<Node>, w: Worklists, head: seq<Node>, tail: seq<Node>, t: Trace, u: Node, w': Worklists)
    requires Peeled(es, nodes, w, head, tail, t) && u in w.remaining && u in w.sources
    requires w'.remaining == w.remaining - {u} && Counted(es, w') && Listed(w', w'.remaining)
    ensures Peeled(es, nodes, w', head + [u], tail, AfterEnd(es, w.remaining, t, u, |w.remaining|))
  {
    hide Kept, Laid, Counted, Listed, OutW, InW, AfterEnd;
    SourceIsZero(es, w, u);
    PeelEnd(es, nodes, w, t, u, |w.remaining|);
    LaidHead(head, tail, nodes, w.remaining, t.rank, u);
  }

  lemma EmptyListsStuck(es: seq<Edge>, w: Worklists)
    requires Counted(es, w) && Listed(w, w.remaining) && w.sinks == [] && w.sources == []
    ensures Stuck(es, w.remaining)
  {
    hide OutW, InW;
  }

  lemma PeelPick(es: seq<Edge>, nodes: set<Node>, w: Worklists, head: seq<Node>, tail: seq<Node>, t: Trace, u: Node, w': Worklists)
    requires Peeled(es, nodes, w, head, tail, t) && u in w.remaining && Stuck(es, w.remaining) && IsBest(es, w.remaining, u)
    requires w'.remaining == w.remaining - {u} && Counted(es, w') && Listed(w', w'.remaining)
    ensures Peeled(es, nodes, w', head + [u], tail, AfterPick(es, w.remaining, t, u))
  {
    hide OutW, InW, Stuck;
    KeptPick(es, nodes, w.remaining, t, u);
    LaidHead(head, tail, nodes, w.remaining, t.rank, u);
    hide Kept, Laid, Counted, Listed;
  }

  // The node with the largest outgoing-minus-incoming weight, by name among equals. Reached only when
  // neither a sink nor a source remains.
  method PickGreedy(ghost es: seq<Edge>, w: Worklists) returns (u: Node)
    requires Counted(es, w) && w.remaining != {} && Stuck(es, w.remaining)
    ensures u in w.remaining && IsBest(es, w.remaining, u)
  {
    hide OutW, InW, Stuck;
    u := First(w.remaining);
    var todo := w.remaining - {u};
    while todo != {}
      invariant todo <= w.remaining && u in w.remaining
      invariant forall x :: x in w.remaining - todo ==>
                  w.outW[x] - w.inW[x] < w.outW[u] - w.inW[u] || (w.outW[x] - w.inW[x] == w.outW[u] - w.inW[u] && x <= u)
      decreases todo
    {
      var x := First(todo);
      todo := todo - {x};
      if w.outW[x] - w.inW[x] > w.outW[u] - w.inW[u] || (w.outW[x] - w.inW[x] == w.outW[u] - w.inW[u] && x > u) {
        u := x;
      }
    }
  }

  // What feedback_arc_order promises of its two results.
  ghost predicate IsFeedbackOrder(es: seq<Edge>, order: seq<Node>, back: seq<Edge>)
  {
    && Distinct(order) && (forall x :: x in order <==> x in Ends(es))
    && back == Select(es, PointsUp(order))
    && 2 * Total(back) <= Total(es)
    && 6 * Total(back) + |order| <= 3 * Total(es) + 2 * |TwoCycles(es)|
    && (Acyclic(ArcsOf(es)) <==> back == [] && SelfLoopFree(es))
    && (Acyclic(ArcsOf(es) - ArcsOf(back)) <==> SelfLoopFree(es))
    && Acyclic(Loopless(ArcsOf(es)) - ArcsOf(back)) && (forall e :: e in back ==> e.a != e.b)
    && exists rank :: Sorted(order, rank) && Followed(es, {}, rank)
  }

  // The finished order is sorted by rank.
  ghost predicate Sorted(order: seq<Node>, rank: map<Node, int>)
  {
    && (forall x :: x in order <==> x in rank)
    && forall i, j :: 0 <= i < j < |order| ==> order[i] in rank && order[j] in rank && rank[order[i]] < rank[order[j]]
  }

  // The back half of the order is the head list read backwards.
  lemma HeadBackwards(head: seq<Node>, tail: seq<Node>, rank: map<Node, int>)
    requires Laid(head, tail, rank)
    ensures var back := Backwards(head);
            && (forall i :: 0 <= i < |back| ==> back[i] in rank && rank[back[i]] > 0)
            && (forall i, j :: 0 <= i < j < |back| ==> rank[back[i]] < rank[back[j]])
            && (forall x :: x in head <==> x in back)
  {
    var back := Backwards(head);
    assert forall i :: 0 <= i < |back| ==> back[i] == head[|head| - 1 - i];
    forall x | x in head
      ensures x in back
    {
      var i :| 0 <= i < |head| && head[i] == x;
      assert back[|head| - 1 - i] == x;
    }
  }

  ghost predicate Ascending(xs: seq<Node>, rank: map<Node, int>)
  {
    && (forall i :: 0 <= i < |xs| ==> xs[i] in rank)
    && (forall i, j :: 0 <= i < j < |xs| ==> rank[xs[i]] < rank[xs[j]])
  }

  lemma AscendingJoin(xs: seq<Node>, ys: seq<Node>, rank: map<Node, int>)
    requires Ascending(xs, rank) && Ascending(ys, rank)
    requires forall i, j :: 0 <= i < |xs| && 0 <= j < |ys| ==> rank[xs[i]] < rank[ys[j]]
    ensures Ascending(xs + ys, rank) && forall x :: x in xs + ys <==> x in xs || x in ys
  {
    var zs := xs + ys;
    assert forall i :: 0 <= i < |xs| ==> zs[i] == xs[i];
    assert forall i :: |xs| <= i < |zs| ==> zs[i] == ys[i - |xs|];
  }

  lemma FinishedSorted(head: seq<Node>, tail: seq<Node>, rank: map<Node, int>)
    requires Laid(head, tail, rank)
    ensures Sorted(Backwards(head + Backwards(tail)), rank)
  {
    hide Backwards;
    BackwardsJoin(head, tail);
    HeadBackwards(head, tail, rank);
    AscendingJoin(tail, Backwards(head), rank);
  }

  lemma SortedPointsUp(es: seq<Edge>, order: seq<Node>, rank: map<Node, int>, e: Edge)
    requires Sorted(order, rank) && e.a in rank && e.b in rank
    ensures PointsUp(order)(e) <==> Backward(rank)(e)
  {
    var i :| 0 <= i < |order| && order[i] == e.a;
    var j :| 0 <= j < |order| && order[j] == e.b;
    if i < j {
      assert PointsUp(order)(e);
    } else if j < i {
      assert rank[order[j]] < rank[order[i]];
    }
  }

  lemma {:induction false} SelectNone(es: seq<Edge>, p: Edge -> bool)
    requires forall e :: e in es ==> !p(e)
    ensures Select(es, p) == []
  {
    if es != [] {
      assert es[|es| - 1] in es;
      SelectNone(es[..|es| - 1], p);
    }
  }

  lemma FinishedWeights(es: seq<Edge>, order: seq<Node>, rank: map<Node, int>)
    requires Sorted(order, rank) && Spans(es, rank.Keys)
    ensures Total(Select(es, PointsUp(order))) == BackW(es, rank)
    ensures Total(es) == Weight(es, Settled({}))
  {
    forall e | e in es
      ensures PointsUp(order)(e) <==> Backward(rank)(e)
    {
      SortedPointsUp(es, order, rank, e);
    }
    WeightSelect(es, PointsUp(order), Every());
    WeightSame(es, e => PointsUp(order)(e) && Every()(e), Backward(rank));
    WeightSame(es, Every(), Settled({}));
  }

  lemma SelfLoopIsCycle(arcs: set<(Node, Node)>, u: Node)
    requires (u, u) in arcs
    ensures !Acyclic(arcs)
  {
    ReachesSelf(arcs, u);
  }

  // Cutting the edges that point up leaves no cycle but self-loops.
  lemma CutsBreakCycles(es: seq<Edge>, order: seq<Node>, rank: map<Node, int>)
    requires Sorted(order, rank) && Spans(es, rank.Keys)
    ensures var back := Select(es, PointsUp(order));
            && Acyclic(Loopless(ArcsOf(es)) - ArcsOf(back)) && (forall e :: e in back ==> e.a != e.b)
            && (Acyclic(ArcsOf(es) - ArcsOf(back)) <==> SelfLoopFree(es))
  {
    hide Acyclic, Sorted, PointsUp, Spans;
    var back := Select(es, PointsUp(order));
    WeightSelect(es, PointsUp(order), PointsUp(order));
    forall e | e in back
      ensures e.a != e.b
    {
      NoLoopPointsUp(es, order, rank, e);
    }
    DownwardIsAcyclic(es, order, rank, back);
    if SelfLoopFree(es) {
      assert Loopless(ArcsOf(es)) == ArcsOf(es);
    } else {
      var e :| e in es && e.a == e.b;
      SelfLoopIsCycle(ArcsOf(es) - ArcsOf(back), e.a);
    }
  }

  lemma NoLoopPointsUp(es: seq<Edge>, order: seq<Node>, rank: map<Node, int>, e: Edge)
    requires Sorted(order, rank) && PointsUp(order)(e)
    ensures e.a != e.b
  {
    var i, j :| 0 <= i < j < |order| && order[i] == e.a && order[j] == e.b;
  }

  lemma DownwardIsAcyclic(es: seq<Edge>, order: seq<Node>, rank: map<Node, int>, back: seq<Edge>)
    requires Sorted(order, rank) && Spans(es, rank.Keys) && forall e :: e in back <==> e in es && PointsUp(order)(e)
    ensures Acyclic(Loopless(ArcsOf(es)) - ArcsOf(back))
  {
    hide Acyclic, Sorted, PointsUp;
    var left := Loopless(ArcsOf(es)) - ArcsOf(back);
    forall u, v | (u, v) in left
      ensures RankOf(rank, u) > RankOf(rank, v)
    {
      var e :| e in es && (e.a, e.b) == (u, v);
      assert e !in back;
      SortedPointsUp(es, order, rank, e);
      DistinctRanks(order, rank, u, v);
    }
    RankedIsAcyclic(left, x => RankOf(rank, x));
  }

  lemma DistinctRanks(order: seq<Node>, rank: map<Node, int>, u: Node, v: Node)
    requires Sorted(order, rank) && u in rank && v in rank && u != v
    ensures rank[u] != rank[v]
  {
    var i :| 0 <= i < |order| && order[i] == u;
    var j :| 0 <= j < |order| && order[j] == v;
    assert i < j || j < i;
  }

  lemma NothingBackIsAcyclic(es: seq<Edge>, order: seq<Node>, rank: map<Node, int>, greedy: bool)
    requires Sorted(order, rank) && Spans(es, rank.Keys) && Positive(es)
    requires if greedy then !Acyclic(ArcsOf(es)) else BackW(es, rank) == 0
    ensures Acyclic(ArcsOf(es)) <==> Select(es, PointsUp(order)) == [] && SelfLoopFree(es)
  {
    hide Acyclic, Sorted;
    CutsBreakCycles(es, order, rank);
    if Select(es, PointsUp(order)) == [] {
      assert ArcsOf(es) - ArcsOf([]) == ArcsOf(es);
    }
    if Acyclic(ArcsOf(es)) {
      WeightZero(es, Backward(rank));
      forall e | e in es
        ensures !PointsUp(order)(e)
      {
        SortedPointsUp(es, order, rank, e);
      }
      SelectNone(es, PointsUp(order));
      assert ArcsOf(es) - ArcsOf([]) == ArcsOf(es);
    }
  }

  // With everything placed nothing is owed any more.
  lemma FinishedBounds(es: seq<Edge>, r: set<Node>, t: Trace)
    requires Kept(es, Ends(es), r, t) && r == {}
    ensures 2 * BackW(es, t.rank) <= Weight(es, Settled({}))
    ensures 6 * BackW(es, t.rank) + |t.rank| <= 3 * Weight(es, Settled({})) + 2 * |TwoCycles(es)|
    ensures t.rank.Keys == Ends(es) && Followed(es, {}, t.rank)
  {
    assert SettledTwoCycles(es, {}) == TwoCycles(es);
    hide BackW, Acyclic, Settled, Ends, Followed, SettledTwoCycles, TwoCycles;
  }

  lemma FinishedOrder(es: seq<Edge>, head: seq<Node>, tail: seq<Node>, t: Trace)
    requires Kept(es, Ends(es), {}, t) && Laid(head, tail, t.rank)
    ensures var order := Backwards(head + Backwards(tail));
            && IsFeedbackOrder(es, order, Select(es, PointsUp(order)))
            && Distinct(order) && forall e :: e in es ==> e.a in order && e.b in order
  {
    hide Laid, Acyclic, Backwards, Sorted, Ranked, Paid, TwoCycles, Followed, BackW, PointsUp, Total, Ends, SelfLoopFree, Distinct;
    var order := Backwards(head + Backwards(tail));
    FinishedSorted(head, tail, t.rank);
    FinishedBounds(es, {}, t);
    hide Kept;
    FinishedWeights(es, order, t.rank);
    CutsBreakCycles(es, order, t.rank);
    NothingBackIsAcyclic(es, order, t.rank, t.greedy);
    SortedCount(order, t.rank);
  }

  lemma SortedCount(order: seq<Node>, rank: map<Node, int>)
    requires Sorted(order, rank)
    ensures Distinct(order) && |order| == |rank| && forall x :: x in order <==> x in rank
  {
    DistinctSize(order);
    var placed := set x | x in order;
    assert forall x :: x in placed <==> x in rank.Keys;
    assert placed == rank.Keys;
  }

  // A default dictionary of edge lists, and a counter.
  function Lookup(m: map<Node, seq<Edge>>, u: Node): seq<Edge>
  {
    if u in m then m[u] else []
  }

  function Count(m: map<Node, int>, u: Node): int
  {
    if u in m then m[u] else 0
  }

  lemma TakeOneMore(es: seq<Edge>, k: nat, p: Edge -> bool)
    requires k < |es|
    ensures Weight(es[..k + 1], p) == Weight(es[..k], p) + (if p(es[k]) then es[k].n else 0)
    ensures Select(es[..k + 1], p) == Select(es[..k], p) + (if p(es[k]) then [es[k]] else [])
  {
    assert es[..k + 1][..k] == es[..k];
  }

  ghost predicate TableAt(es: seq<Edge>, succ: map<Node, seq<Edge>>, pred: map<Node, seq<Edge>>,
                          outW: map<Node, int>, inW: map<Node, int>, u: Node)
  {
    && Lookup(succ, u) == Select(es, Leaving(u)) && Lookup(pred, u) == Select(es, Entering(u))
    && Count(outW, u) == Weight(es, Leaving(u)) && Count(inW, u) == Weight(es, Entering(u))
  }

  ghost predicate Tabulated(es: seq<Edge>, succ: map<Node, seq<Edge>>, pred: map<Node, seq<Edge>>,
                            outW: map<Node, int>, inW: map<Node, int>)
  {
    forall u :: TableAt(es, succ, pred, outW, inW, u)
  }

  lemma TabulatedStep(es: seq<Edge>, k: nat, succ: map<Node, seq<Edge>>, pred: map<Node, seq<Edge>>,
                      outW: map<Node, int>, inW: map<Node, int>)
    requires k < |es| && Tabulated(es[..k], succ, pred, outW, inW)
    ensures var e := es[k];
            Tabulated(es[..k + 1], succ[e.a := Lookup(succ, e.a) + [e]], pred[e.b := Lookup(pred, e.b) + [e]],
                      outW[e.a := Count(outW, e.a) + e.n], inW[e.b := Count(inW, e.b) + e.n])
  {
    hide Weight, Select;
    var e, more := es[k], es[..k + 1];
    var succ', pred' := succ[e.a := Lookup(succ, e.a) + [e]], pred[e.b := Lookup(pred, e.b) + [e]];
    var outW', inW' := outW[e.a := Count(outW, e.a) + e.n], inW[e.b := Count(inW, e.b) + e.n];
    forall u
      ensures TableAt(more, succ', pred', outW', inW', u)
    {
      assert TableAt(es[..k], succ, pred, outW, inW, u);
      TakeOneMore(es, k, Leaving(u));
      TakeOneMore(es, k, Entering(u));
    }
  }

  lemma EndsStep(es: seq<Edge>, k: nat)
    requires k < |es|
    ensures Ends(es[..k + 1]) == Ends(es[..k]) + {es[k].a, es[k].b}
  {
    assert es[..k + 1] == es[..k] + [es[k]];
  }

  method Tabulate(es: seq<Edge>)
    returns (nodes: set<Node>, succ: map<Node, seq<Edge>>, pred: map<Node, seq<Edge>>, outW: map<Node, int>, inW: map<Node, int>)
    ensures nodes == Ends(es) && outW.Keys == inW.Keys == nodes && Tabulated(es, succ, pred, outW, inW)
  {
    hide Tabulated, Ends;
    assert Ends(es[..0]) == {} by { NoEnds(es[..0]); }
    nodes, succ, pred, outW, inW := {}, map[], map[], map[], map[];
    NothingTabulated(es[..0]);
    for k := 0 to |es|
      invariant nodes == Ends(es[..k]) && outW.Keys <= nodes && inW.Keys <= nodes
      invariant Tabulated(es[..k], succ, pred, outW, inW)
    {
      var e := es[k];
      TabulatedStep(es, k, succ, pred, outW, inW);
      EndsStep(es, k);
      nodes := nodes + {e.a, e.b};
      succ := succ[e.a := Lookup(succ, e.a) + [e]];
      pred := pred[e.b := Lookup(pred, e.b) + [e]];
      outW := outW[e.a := Count(outW, e.a) + e.n];
      inW := inW[e.b := Count(inW, e.b) + e.n];
    }
    assert es[..|es|] == es;
    ghost var out0, in0 := outW, inW;
    outW := map u | u in nodes :: Count(outW, u);
    inW := map u | u in nodes :: Count(inW, u);
    SameCounts(es, succ, pred, out0, in0, outW, inW);
  }

  lemma NoEnds(es: seq<Edge>)
    requires es == []
    ensures Ends(es) == {}
  {
  }

  lemma NothingTabulated(es: seq<Edge>)
    requires es == []
    ensures Tabulated(es, map[], map[], map[], map[])
  {
  }

  lemma SameCounts(es: seq<Edge>, succ: map<Node, seq<Edge>>, pred: map<Node, seq<Edge>>,
                   outW: map<Node, int>, inW: map<Node, int>, outW': map<Node, int>, inW': map<Node, int>)
    requires Tabulated(es, succ, pred, outW, inW)
    requires forall u :: Count(outW', u) == Count(outW, u)
    requires forall u :: Count(inW', u) == Count(inW, u)
    ensures Tabulated(es, succ, pred, outW', inW')
  {
    forall u
      ensures TableAt(es, succ, pred, outW', inW', u)
    {
      assert TableAt(es, succ, pred, outW, inW, u);
    }
  }

  lemma AllRemaining(es: seq<Edge>, u: Node)
    ensures OutW(es, Ends(es), u) == Weight(es, Leaving(u)) && InW(es, Ends(es), u) == Weight(es, Entering(u))
  {
    WeightSame(es, OutOf(u, Ends(es)), Leaving(u));
    WeightSame(es, Into(u, Ends(es)), Entering(u));
  }

  // Before anything is placed.
  lemma StartKept(es: seq<Edge>)
    requires Positive(es)
    ensures Kept(es, Ends(es), Ends(es), Trace(map[], false, false)) && Laid([], [], map[])
  {
    var r := Ends(es);
    WeightZero(es, Backward(map[]));
    WeightZero(es, Settled(r));
    assert Isolated(es, r) == {} by {
      forall x | x in r
        ensures x !in Isolated(es, r)
      {
        OutZero(es, r, x);
      }
    }
  }

  // The worklists at the start: every sink, and every source that is not a sink.
  method StartLists(nodes: set<Node>, outW: map<Node, int>, inW: map<Node, int>) returns (w: Worklists)
    requires outW.Keys == inW.Keys == nodes
    ensures w.remaining == nodes && w.outW == outW && w.inW == inW && Listed(w, nodes)
  {
    var todo := nodes;
    var sinks, sources := [], [];
    while todo != {}
      invariant todo <= nodes
      invariant forall v :: v in sinks || v in sources ==> v in nodes - todo
      invariant Listed(Worklists(nodes, outW, inW, sinks, sources), nodes - todo)
      decreases todo
    {
      var u := First(todo);
      todo := todo - {u};
      if outW[u] == 0 {
        sinks := sinks + [u];
      }
      if inW[u] == 0 && outW[u] != 0 {
        sources := sources + [u];
      }
    }
    w := Worklists(nodes, outW, inW, sinks, sources);
    assert nodes - todo == nodes;
  }

  lemma StartCounted(es: seq<Edge>, w: Worklists, succ: map<Node, seq<Edge>>, pred: map<Node, seq<Edge>>)
    requires w.remaining == Ends(es) && w.outW.Keys == w.inW.Keys == Ends(es) && Tabulated(es, succ, pred, w.outW, w.inW)
    ensures Counted(es, w)
  {
    hide OutW, InW, Ends, Lookup, Select, Leaving, Entering, Weight;
    forall v | v in w.remaining
      ensures v in w.outW && v in w.inW && w.outW[v] == OutW(es, w.remaining, v) && w.inW[v] == InW(es, w.remaining, v)
    {
      AllRemaining(es, v);
      assert TableAt(es, succ, pred, w.outW, w.inW, v);
    }
  }

  lemma StartPeeled(es: seq<Edge>, w: Worklists, succ: map<Node, seq<Edge>>, pred: map<Node, seq<Edge>>)
    requires Positive(es) && w.remaining == Ends(es) && w.outW.Keys == w.inW.Keys == Ends(es)
    requires Tabulated(es, succ, pred, w.outW, w.inW) && Listed(w, Ends(es))
    ensures Peeled(es, Ends(es), w, [], [], Trace(map[], false, false))
  {
    hide Kept, Laid, Listed, Ends, Counted, Tabulated;
    StartKept(es);
    StartCounted(es, w, succ, pred);
  }

  // Forgetting the last entry of a worklist matters to nobody but the node it names.
  lemma PopPeeled(es: seq<Edge>, nodes: set<Node>, w: Worklists, head: seq<Node>, tail: seq<Node>, t: Trace,
                  u: Node, sinks: seq<Node>, sources: seq<Node>)
    requires Peeled(es, nodes, w, head, tail, t)
    requires (w.sinks == sinks + [u] && w.sources == sources) || (w.sinks == sinks && w.sources == sources + [u])
    ensures Positive(es)
    ensures var p := w.(sinks := sinks, sources := sources);
            Counted(es, p) && Listed(p, w.remaining - {u}) && (u !in w.remaining ==> Peeled(es, nodes, p, head, tail, t))
  {
    hide OutW, InW, Laid, Ranked, Paid, Acyclic;
    if u !in w.remaining {
      assert w.remaining - {u} == w.remaining;
    }
  }

  lemma PeeledFacts(es: seq<Edge>, nodes: set<Node>, w: Worklists, head: seq<Node>, tail: seq<Node>, t: Trace)
    requires Peeled(es, nodes, w, head, tail, t)
    ensures Positive(es) && Counted(es, w) && Listed(w, w.remaining) && w.remaining <= nodes
  {
  }

  lemma TableLookup(es: seq<Edge>, succ: map<Node, seq<Edge>>, pred: map<Node, seq<Edge>>,
                    outW: map<Node, int>, inW: map<Node, int>, u: Node)
    requires Tabulated(es, succ, pred, outW, inW)
    ensures Lookup(succ, u) == Select(es, Leaving(u)) && Lookup(pred, u) == Select(es, Entering(u))
  {
    assert TableAt(es, succ, pred, outW, inW, u);
  }

  // sinks.pop(), and if the node is still there, place it at the front.
  method PopSink(ghost es: seq<Edge>, ghost nodes: set<Node>, succ: map<Node, seq<Edge>>, pred: map<Node, seq<Edge>>,
                 ghost out0: map<Node, int>, ghost in0: map<Node, int>,
                 w: Worklists, ghost head: seq<Node>, tail: seq<Node>, ghost t: Trace)
    returns (w': Worklists, tail': seq<Node>, ghost t': Trace, dropped: bool)
    requires Tabulated(es, succ, pred, out0, in0) && Peeled(es, nodes, w, head, tail, t) && w.sinks != []
    ensures Peeled(es, nodes, w', head, tail', t')
    ensures dropped ==> w'.remaining < w.remaining
    ensures !dropped ==> w'.remaining == w.remaining && |w'.sinks| < |w.sinks| && w'.sources == w.sources
  {
    hide Tabulated, Kept, Counted, Laid, Listed, Select, Lookup;
    var n := |w.sinks| - 1;
    var u := w.sinks[n];
    var popped := w.(sinks := w.sinks[..n]);
    assert w.sinks == w.sinks[..n] + [u];
    PopPeeled(es, nodes, w, head, tail, t, u, w.sinks[..n], w.sources);
    dropped := u in w.remaining;
    if dropped {
      TableLookup(es, succ, pred, out0, in0, u);
      w' := Drop(es, Lookup(succ, u), Lookup(pred, u), popped, u);
      tail' := tail + [u];
      PeelSink(es, nodes, w, head, tail, t, u, w');
      t' := AfterEnd(es, w.remaining, t, u, -|w.remaining|);
    } else {
      w', tail', t' := popped, tail, t;
    }
  }

  // sources.pop(), and if the node is still there, place it at the back.
  method PopSource(ghost es: seq<Edge>, ghost nodes: set<Node>, succ: map<Node, seq<Edge>>, pred: map<Node, seq<Edge>>,
                   ghost out0: map<Node, int>, ghost in0: map<Node, int>,
                   w: Worklists, head: seq<Node>, ghost tail: seq<Node>, ghost t: Trace)
    returns (w': Worklists, head': seq<Node>, ghost t': Trace, dropped: bool)
    requires Tabulated(es, succ, pred, out0, in0) && Peeled(es, nodes, w, head, tail, t) && w.sources != []
    ensures Peeled(es, nodes, w', head', tail, t')
    ensures dropped ==> w'.remaining < w.remaining
    ensures !dropped ==> w'.remaining == w.remaining && |w'.sources| < |w.sources| && w'.sinks == w.sinks
  {
    hide Tabulated, Kept, Counted, Laid, Listed, Select, Lookup;
    var n := |w.sources| - 1;
    var u := w.sources[n];
    var popped := w.(sources := w.sources[..n]);
    assert w.sources == w.sources[..n] + [u];
    PopPeeled(es, nodes, w, head, tail, t, u, w.sinks, w.sources[..n]);
    dropped := u in w.remaining;
    if dropped {
      TableLookup(es, succ, pred, out0, in0, u);
      w' := Drop(es, Lookup(succ, u), Lookup(pred, u), popped, u);
      head' := head + [u];
      PeelSource(es, nodes, w, head, tail, t, u, w');
      t' := AfterEnd(es, w.remaining, t, u, |w.remaining|);
    } else {
      w', head', t' := popped, head, t;
    }
  }

  method FeedbackArcOrder(es: seq<Edge>) returns (order: seq<Node>, back: seq<Edge>)
    requires Positive(es)
    ensures IsFeedbackOrder(es, order, back)
  {
    hide Peeled, Listed, Counted, Tabulated, IsFeedbackOrder, Stuck, Isolated, OutW, InW, Ends, Select, Weight, PointsUp, Lookup;
    var nodes, succ, pred, outW, inW := Tabulate(es);
    var w := StartLists(nodes, outW, inW);
    var head: seq<Node>, tail: seq<Node> := [], [];
    ghost var t := Trace(map[], false, false);
    StartPeeled(es, w, succ, pred);
    while w.remaining != {}
      invariant Peeled(es, nodes, w, head, tail, t)
      decreases w.remaining
    {
      ghost var before := w.remaining;
      var progressed := true;
      while progressed
        invariant Peeled(es, nodes, w, head, tail, t) && w.remaining <= before
        invariant !progressed ==> w.sinks == [] && w.sources == []
        decreases w.remaining, progressed
      {
        ghost var start := w.remaining;
        progressed := false;
        while w.sinks != []
          invariant Peeled(es, nodes, w, head, tail, t)
          invariant if progressed then w.remaining < start else w.remaining == start
          decreases w.remaining, |w.sinks|
        {
          var dropped;
          w, tail, t, dropped := PopSink(es, nodes, succ, pred, outW, inW, w, head, tail, t);
          progressed := progressed || dropped;
        }
        while w.sources != []
          invariant Peeled(es, nodes, w, head, tail, t) && (!progressed ==> w.sinks == [])
          invariant if progressed then w.remaining < start else w.remaining == start
          decreases w.remaining, |w.sources|
        {
          var dropped;
          w, head, t, dropped := PopSource(es, nodes, succ, pred, outW, inW, w, head, tail, t);
          progressed := progressed || dropped;
        }
      }
      if w.remaining != {} {
        PeeledFacts(es, nodes, w, head, tail, t);
        EmptyListsStuck(es, w);
        var u := PickGreedy(es, w);
        TableLookup(es, succ, pred, outW, inW, u);
        PopNothing(w, u);
        var w' := Drop(es, Lookup(succ, u), Lookup(pred, u), w, u);
        PeelPick(es, nodes, w, head, tail, t, u, w');
        t := AfterPick(es, w.remaining, t, u);
        head := head + [u];
        w := w';
      }
    }
    order := Backwards(head + Backwards(tail));
    PeeledIsKept(es, w, head, tail, t);
    FinishedOrder(es, head, tail, t);
    back := PickBack(es, order);
  }

  lemma PopNothing(w: Worklists, u: Node)
    requires (forall v :: v in w.remaining ==> v in w.outW && v in w.inW) && Listed(w, w.remaining)
    ensures Listed(w, w.remaining - {u})
  {
  }

  // The edges whose ends are at pos[a] < pos[b].
  method PickBack(es: seq<Edge>, order: seq<Node>) returns (back: seq<Edge>)
    requires Distinct(order) && forall e :: e in es ==> e.a in order && e.b in order
    ensures back == Select(es, PointsUp(order))
  {
    var pos: map<Node, nat> := map[];
    for i := 0 to |order|
      invariant forall j :: 0 <= j < i ==> order[j] in pos && pos[order[j]] == j
    {
      pos := pos[order[i] := i];
    }
    back := [];
    assert es[..0] == [];
    for k := 0 to |es|
      invariant back == Select(es[..k], PointsUp(order))
    {
      var e := es[k];
      assert e in es;
      TakeOneMore(es, k, PointsUp(order));
      ghost var i :| 0 <= i < |order| && order[i] == e.a;
      if pos[e.a] < pos[e.b] {
        back := back + [e];
      }
    }
    assert es[..|es|] == es;
  }

  lemma PeeledIsKept(es: seq<Edge>, w: Worklists, head: seq<Node>, tail: seq<Node>, t: Trace)
    requires Peeled(es, Ends(es), w, head, tail, t) && w.remaining == {}
    ensures Kept(es, Ends(es), {}, t) && Laid(head, tail, t.rank)
  {
    hide Kept, Laid, Counted, Listed;
  }

  lemma {:induction false} BestOf(es: seq<Edge>, r: set<Node>, s: set<Node>) returns (u: Node)
    requires s != {}
    ensures u in s
    ensures forall x :: x in s ==>
              OutW(es, r, x) - InW(es, r, x) < OutW(es, r, u) - InW(es, r, u)
              || (OutW(es, r, x) - InW(es, r, x) == OutW(es, r, u) - InW(es, r, u) && x <= u)
    decreases s
  {
    hide OutW, InW;
    u := AnyOf(s);
    assert forall x :: x in s <==> x == u || x in s - {u};
    if s - {u} != {} {
      var v := BestOf(es, r, s - {u});
      if OutW(es, r, v) - InW(es, r, v) > OutW(es, r, u) - InW(es, r, u)
         || (OutW(es, r, v) - InW(es, r, v) == OutW(es, r, u) - InW(es, r, u) && v > u) {
        u := v;
      }
    }
  }

  // There is a result for every graph, so what holds of every result is not empty.
  lemma ResultExists(es: seq<Edge>) returns (order: seq<Node>, back: seq<Edge>)
    requires Positive(es)
    ensures IsFeedbackOrder(es, order, back)
  {
    hide Kept, Laid, IsFeedbackOrder, OutW, InW, Ends, AfterEnd, AfterPick;
    var r, t := Ends(es), Trace(map[], false, false);
    var head: seq<Node>, tail: seq<Node> := [], [];
    StartKept(es);
    while r != {}
      invariant Kept(es, Ends(es), r, t) && Laid(head, tail, t.rank)
      decreases r
    {
      var u;
      r, head, tail, t, u := PlaceOne(es, r, head, tail, t);
    }
    order := Backwards(head + Backwards(tail));
    back := Select(es, PointsUp(order));
    FinishedOrder(es, head, tail, t);
  }

  lemma PlaceOne(es: seq<Edge>, r: set<Node>, head: seq<Node>, tail: seq<Node>, t: Trace)
    returns (r': set<Node>, head': seq<Node>, tail': seq<Node>, t': Trace, u: Node)
    requires r != {} && Kept(es, Ends(es), r, t) && Laid(head, tail, t.rank)
    ensures u in r && r' == r - {u} && Kept(es, Ends(es), r', t') && Laid(head', tail', t'.rank)
  {
    hide OutW, InW, Ends, Laid, Followed, Paid, Acyclic, Ranked;
    assert Ranked(Ends(es), r, t.rank);
    if Stuck(es, r) {
      u := BestOf(es, r, r);
      hide Kept;
      KeptPick(es, Ends(es), r, t, u);
      LaidHead(head, tail, Ends(es), r, t.rank, u);
      r', head', tail', t' := r - {u}, head + [u], tail, AfterPick(es, r, t, u);
    } else {
      u :| u in r && (OutW(es, r, u) == 0 || InW(es, r, u) == 0);
      hide Kept;
      if OutW(es, r, u) == 0 {
        KeptEnd(es, Ends(es), r, t, u, -|r|);
        LaidTail(head, tail, Ends(es), r, t.rank, u);
        r', head', tail', t' := r - {u}, head, tail + [u], AfterEnd(es, r, t, u, -|r|);
      } else {
        KeptEnd(es, Ends(es), r, t, u, |r|);
        LaidHead(head, tail, Ends(es), r, t.rank, u);
        r', head', tail', t' := r - {u}, head + [u], tail, AfterEnd(es, r, t, u, |r|);
      }
    }
  }
}
