/** _louvain of tools/code_health.py: local moving until nothing moves or the passes run out. */
module Louvain {
  import opened Lists
  import opened Modularity
  import opened Reachability

  // The smallest gain worth a move.
  const TOLERANCE := 0.000000000001

  ghost function LinkAt(net: Net, p: Partition, u: Node, c: Node, done: set<Node>): Node -> real
  {
    (v: Node) => if v != u && v in done && v in p && p[v] == c then Link(net, u, v) else 0.0
  }

  // Weight of the links from u to the other members of c.
  ghost function LinkTo(net: Net, p: Partition, u: Node, c: Node): real
  {
    Sum(net.order, LinkAt(net, p, u, c, net.adj.Keys))
  }

  ghost function DegreeAt(net: Net, p: Partition, c: Node, but: set<Node>): Node -> real
  {
    (v: Node) => if v !in but && v in p && v in net.degree && p[v] == c then net.degree[v] else 0.0
  }

  // Summed degree of a community, without the nodes of `but`.
  ghost function CommunityDegree(net: Net, p: Partition, c: Node, but: set<Node>): real
  {
    Sum(net.order, DegreeAt(net, p, c, but))
  }

  // comm_deg holds the summed degree of every community, `but` aside.
  ghost predicate DegreesRight(net: Net, p: Partition, commDeg: map<Node, real>, but: set<Node>)
  {
    commDeg.Keys == net.adj.Keys && forall c :: c in commDeg ==> commDeg[c] == CommunityDegree(net, p, c, but)
  }

  lemma QuotientMoves(a: real, b: real, m: real)
    requires m > 0.0
    ensures a * b / m == Times(a, b / m)
  {
  }

  ghost function ExpectedAt(net: Net, p: Partition, u: Node, c: Node): Node -> real
    requires u in net.degree && net.twoM > 0.0
  {
    var share := net.degree[u] / net.twoM;
    (v: Node) => Times(DegreeAt(net, p, c, {u})(v), share)
  }

  lemma GainSplits(net: Net, p: Partition, u: Node, c: Node, v: Node)
    requires WellFormed(net) && Partitions(net, p) && net.twoM > 0.0 && u in net.adj && v in net.adj
    ensures LinkAt(net, p, u, c, net.adj.Keys)(v) == GainAt(net, p, u, c)(v) + ExpectedAt(net, p, u, c)(v)
  {
    assert v in p && u in net.degree && v in net.degree;
    hide Link, Times, WellFormed, Partitions;
    assert ExpectedAt(net, p, u, c)(v) == Times(DegreeAt(net, p, c, {u})(v), net.degree[u] / net.twoM);
    if v != u && p[v] == c {
      assert LinkAt(net, p, u, c, net.adj.Keys)(v) == Link(net, u, v);
      assert GainAt(net, p, u, c)(v) == Excess(net, u, v) == Link(net, u, v) - Times(net.degree[u], net.degree[v] / net.twoM);
      assert DegreeAt(net, p, c, {u})(v) == net.degree[v];
      Commutes(net.degree[u], net.degree[v], net.twoM);
    } else {
      ZeroTimes(DegreeAt(net, p, c, {u})(v), net.degree[u] / net.twoM);
    }
  }

  lemma ZeroTimes(a: real, b: real)
    requires a == 0.0
    ensures Times(a, b) == 0.0
  {
  }

  // What the loop computes for a community: w - comm_deg * ku / two_m.
  function JoinGain(w: real, commDeg: real, ku: real, twoM: real): real
    requires twoM > 0.0
  {
    w - commDeg * ku / twoM
  }

  // The gain the loop computes is the excess weight between u and the community.
  lemma GainComputed(net: Net, p: Partition, u: Node, c: Node)
    requires WellFormed(net) && Partitions(net, p) && net.twoM > 0.0 && u in net.adj
    ensures JoinGain(LinkTo(net, p, u, c), CommunityDegree(net, p, c, {u}), net.degree[u], net.twoM) == Gain(net, p, u, c)
  {
    hide Sum, GainAt, LinkAt, DegreeAt, Times;
    SumScales(net.order, DegreeAt(net, p, c, {u}), ExpectedAt(net, p, u, c), net.degree[u] / net.twoM);
    hide ExpectedAt;
    forall v | v in net.order
      ensures LinkAt(net, p, u, c, net.adj.Keys)(v) == GainAt(net, p, u, c)(v) + ExpectedAt(net, p, u, c)(v)
    {
      GainSplits(net, p, u, c, v);
    }
    SumAdds(net.order, GainAt(net, p, u, c), ExpectedAt(net, p, u, c), LinkAt(net, p, u, c, net.adj.Keys));
    QuotientMoves(CommunityDegree(net, p, c, {u}), net.degree[u], net.twoM);
  }

  // The community of some other node that u is linked to.
  ghost predicate Neighbouring(net: Net, p: Partition, u: Node, c: Node)
    requires u in net.adj
  {
    exists v :: v in net.adj[u] && v != u && v in p && p[v] == c
  }

  ghost predicate HasMember(p: Partition, u: Node, c: Node, done: set<Node>)
  {
    exists v :: v in done && v != u && v in p && p[v] == c
  }

  // weights covers the links of u to the nodes of done.
  ghost predicate Weighed(net: Net, p: Partition, u: Node, done: set<Node>, weights: map<Node, real>)
  {
    && (forall c :: c in weights <==> HasMember(p, u, c, done))
    && (forall c :: c in weights ==> weights[c] == Sum(net.order, LinkAt(net, p, u, c, done)))
    && (forall c :: c !in weights ==> Sum(net.order, LinkAt(net, p, u, c, done)) == 0.0)
  }

  lemma WeighedNothing(net: Net, p: Partition, u: Node)
    ensures Weighed(net, p, u, {}, map[])
  {
    forall c
      ensures Sum(net.order, LinkAt(net, p, u, c, {})) == 0.0
    {
      SumZero(net.order, LinkAt(net, p, u, c, {}));
    }
  }

  lemma WeighedStep(net: Net, p: Partition, u: Node, done: set<Node>, v: Node, weights: map<Node, real>)
    requires WellFormed(net) && Partitions(net, p) && u in net.adj && v in net.adj[u] && v !in done
    requires Weighed(net, p, u, done, weights)
    ensures v in p
    ensures Weighed(net, p, u, done + {v},
                    if v == u then weights else weights[p[v] := (if p[v] in weights then weights[p[v]] else 0.0) + net.adj[u][v]])
  {
    hide Sum, LinkAt, WellFormed;
    LinkStep(net, p, u, done, v);
    forall c
      ensures HasMember(p, u, c, done + {v}) <==> HasMember(p, u, c, done) || (v != u && p[v] == c)
    {
      if v != u && p[v] == c {
        assert v in done + {v};
      }
      if x :| x in done && x != u && x in p && p[x] == c {
        assert x in done + {v};
      }
    }
  }

  lemma WeighedAll(net: Net, p: Partition, u: Node, weights: map<Node, real>)
    requires WellFormed(net) && Partitions(net, p) && u in net.adj && Weighed(net, p, u, net.adj[u].Keys, weights)
    ensures forall c :: c in weights <==> Neighbouring(net, p, u, c)
    ensures forall c :: c in weights ==> c in net.adj && weights[c] == LinkTo(net, p, u, c)
    ensures forall c :: c !in weights ==> LinkTo(net, p, u, c) == 0.0
  {
    hide Sum;
    forall c
      ensures Sum(net.order, LinkAt(net, p, u, c, net.adj[u].Keys)) == LinkTo(net, p, u, c)
    {
      SumSame(net.order, LinkAt(net, p, u, c, net.adj[u].Keys), LinkAt(net, p, u, c, net.adj.Keys));
    }
  }

  // The loop that sums the links of u by community.
  method LinkWeights(net: Net, p: Partition, u: Node) returns (weights: map<Node, real>)
    requires WellFormed(net) && Partitions(net, p) && u in net.adj
    ensures forall c :: c in weights <==> Neighbouring(net, p, u, c)
    ensures forall c :: c in weights ==> c in net.adj && weights[c] == LinkTo(net, p, u, c)
    ensures forall c :: c !in weights ==> LinkTo(net, p, u, c) == 0.0
  {
    hide Weighed, WellFormed, Partitions, Neighbouring, LinkTo;
    weights := map[];
    var todo := net.adj[u].Keys;
    WeighedNothing(net, p, u);
    assert net.adj[u].Keys - todo == {};
    while todo != {}
      invariant todo <= net.adj[u].Keys && Weighed(net, p, u, net.adj[u].Keys - todo, weights)
      decreases todo
    {
      var v := First(todo);
      WeighedStep(net, p, u, net.adj[u].Keys - todo, v, weights);
      assert net.adj[u].Keys - (todo - {v}) == net.adj[u].Keys - todo + {v};
      todo := todo - {v};
      if v != u {
        var c := p[v];
        weights := weights[c := (if c in weights then weights[c] else 0.0) + net.adj[u][v]];
      }
    }
    assert net.adj[u].Keys - todo == net.adj[u].Keys;
    WeighedAll(net, p, u, weights);
  }

  lemma LinkStep(net: Net, p: Partition, u: Node, done: set<Node>, v: Node)
    requires WellFormed(net) && Partitions(net, p) && u in net.adj && v in net.adj[u] && v !in done
    ensures v in p
    ensures forall c :: Sum(net.order, LinkAt(net, p, u, c, done + {v})) ==
                        Sum(net.order, LinkAt(net, p, u, c, done)) + (if v != u && p[v] == c then net.adj[u][v] else 0.0)
  {
    hide Sum;
    assert v in net.adj && v in p;
    forall c
      ensures Sum(net.order, LinkAt(net, p, u, c, done + {v})) ==
              Sum(net.order, LinkAt(net, p, u, c, done)) + (if v != u && p[v] == c then net.adj[u][v] else 0.0)
    {
      SumDiffersAt(net.order, LinkAt(net, p, u, c, done), LinkAt(net, p, u, c, done + {v}), v);
    }
  }

  // No linked community would gain more than the tolerance over the node's own.
  ghost predicate SettledAt(net: Net, p: Partition, u: Node)
    requires u in net.adj && u in p
  {
    forall c :: Neighbouring(net, p, u, c) ==> Gain(net, p, u, c) <= Gain(net, p, u, p[u]) + TOLERANCE
  }

  function Get(m: map<Node, real>, c: Node): real
  {
    if c in m then m[c] else 0.0
  }

  // The scan over the linked communities, u being in none.
  method BestCommunity(net: Net, p: Partition, u: Node, weights: map<Node, real>, commDeg: map<Node, real>)
    returns (best: Node, gain: real)
    requires WellFormed(net) && Partitions(net, p) && net.twoM > 0.0 && u in net.adj && DegreesRight(net, p, commDeg, {u})
    requires forall c :: c in weights <==> Neighbouring(net, p, u, c)
    requires forall c :: c in weights ==> c in net.adj && weights[c] == LinkTo(net, p, u, c)
    requires forall c :: c !in weights ==> LinkTo(net, p, u, c) == 0.0
    ensures best in net.adj && gain == Gain(net, p, u, best)
    ensures best == p[u] || Neighbouring(net, p, u, best)
    ensures forall c :: Neighbouring(net, p, u, c) ==> Gain(net, p, u, c) <= gain + TOLERANCE
    ensures best != p[u] ==> gain > Gain(net, p, u, p[u]) + TOLERANCE
    ensures best == p[u] ==> SettledAt(net, p, u)
  {
    hide JoinGain, WellFormed, Neighbouring, LinkTo, Gain, CommunityDegree;
    HasDegree(net, u);
    var cu, ku := p[u], net.degree[u];
    GainComputed(net, p, u, cu);
    best, gain := cu, JoinGain(Get(weights, cu), Get(commDeg, cu), ku, net.twoM);
    var todo := weights.Keys;
    while todo != {}
      invariant todo <= weights.Keys && best in net.adj && gain == Gain(net, p, u, best)
      invariant best == cu || (best in weights && gain > Gain(net, p, u, cu) + TOLERANCE)
      invariant forall c :: c in weights && c !in todo ==> Gain(net, p, u, c) <= gain + TOLERANCE
      decreases todo
    {
      var c := First(todo);
      todo := todo - {c};
      GainComputed(net, p, u, c);
      var g := JoinGain(weights[c], Get(commDeg, c), ku, net.twoM);
      if g > gain + TOLERANCE {
        best, gain := c, g;
      }
    }
  }

  lemma DegreeWithout(net: Net, p: Partition, u: Node, c: Node)
    requires WellFormed(net) && Partitions(net, p) && u in net.adj
    ensures CommunityDegree(net, p, c, {}) == CommunityDegree(net, p, c, {u}) + (if p[u] == c then net.degree[u] else 0.0)
  {
    hide Sum;
    SumDiffersAt(net.order, DegreeAt(net, p, c, {u}), DegreeAt(net, p, c, {}), u);
  }

  lemma DegreeAside(net: Net, p: Partition, u: Node, b: Node, c: Node)
    requires u in p
    ensures CommunityDegree(net, p[u := b], c, {u}) == CommunityDegree(net, p, c, {u})
  {
    SumSame(net.order, DegreeAt(net, p[u := b], c, {u}), DegreeAt(net, p, c, {u}));
  }

  // Take u out of its community, find the best one, and put it there.
  method MoveNode(net: Net, p: Partition, commDeg: map<Node, real>, u: Node)
    returns (p': Partition, commDeg': map<Node, real>, moved: bool)
    requires WellFormed(net) && Partitions(net, p) && net.twoM > 0.0 && u in net.adj && DegreesRight(net, p, commDeg, {})
    ensures Partitions(net, p') && DegreesRight(net, p', commDeg', {})
    ensures u in p' && p' == p[u := p'[u]] && (moved ==> Neighbouring(net, p, u, p'[u]))
    ensures forall c :: Neighbouring(net, p, u, c) ==> Gain(net, p, u, c) <= Gain(net, p, u, p'[u]) + TOLERANCE
    ensures moved ==> Score(net, p') > Score(net, p) + 2.0 * TOLERANCE
    ensures moved ==> Score(net, p') == Score(net, p) + 2.0 * (Gain(net, p, u, p'[u]) - Gain(net, p, u, p[u]))
    ensures !moved ==> p' == p && SettledAt(net, p, u)
  {
    hide WellFormed, LinkTo, Gain, CommunityDegree, Score, SettledAt, Neighbouring;
    var cu := p[u];
    assert u in net.degree by { HasDegree(net, u); }
    var ku := net.degree[u];
    var weights := LinkWeights(net, p, u);
    commDeg' := commDeg[cu := commDeg[cu] - ku];
    forall c | c in commDeg'
      ensures commDeg'[c] == CommunityDegree(net, p, c, {u})
    {
      DegreeWithout(net, p, u, c);
    }
    var best, gain := BestCommunity(net, p, u, weights, commDeg');
    commDeg' := commDeg'[best := Get(commDeg', best) + ku];
    p', moved := p, false;
    if best != cu {
      MoveChangesScore(net, p, u, best);
      p', moved := p[u := best], true;
    }
    forall c | c in commDeg'
      ensures commDeg'[c] == CommunityDegree(net, p', c, {})
    {
      DegreeAside(net, p, u, best, c);
      DegreeWithout(net, p', u, c);
    }
  }

  lemma HasDegree(net: Net, u: Node)
    requires WellFormed(net) && u in net.adj
    ensures u in net.degree && u in net.order
  {
  }

  ghost function Singletons(net: Net): Partition
  {
    map u | u in net.adj :: u
  }

  lemma SingletonDegrees(net: Net)
    requires WellFormed(net)
    ensures Partitions(net, Singletons(net)) && DegreesRight(net, Singletons(net), net.degree, {})
  {
    forall c | c in net.degree
      ensures net.degree[c] == CommunityDegree(net, Singletons(net), c, {})
    {
      var zero := (v: Node) => 0.0;
      SumZero(net.order, zero);
      SumDiffersAt(net.order, zero, DegreeAt(net, Singletons(net), c, {}), c);
    }
  }

  // One accepted move: a single node goes to a neighbouring community, no other gains more beyond the tolerance,
  // and the score rises by more than twice the tolerance.
  ghost predicate Moves(net: Net, p: Partition, q: Partition)
  {
    exists u :: MovesNode(net, p, q, u)
  }

  ghost predicate MovesNode(net: Net, p: Partition, q: Partition, u: Node)
  {
    && u in net.adj && u in p && u in q && q == p[u := q[u]] && Neighbouring(net, p, u, q[u])
    && Score(net, q) > Score(net, p) + 2.0 * TOLERANCE
    && (forall c :: Neighbouring(net, p, u, c) ==> Gain(net, p, u, c) <= Gain(net, p, u, q[u]) + TOLERANCE)
  }

  // The partitions a search went through, from the singletons on.
  ghost predicate IsClimb(net: Net, climb: seq<Partition>)
  {
    && climb != [] && climb[0] == Singletons(net)
    && forall i :: 0 <= i < |climb| - 1 ==> Moves(net, climb[i], climb[i + 1])
  }

  ghost predicate Settled(net: Net, p: Partition)
  {
    forall u :: u in net.adj ==> u in p && SettledAt(net, p, u)
  }

  // What local moving ends in: a climb by accepted moves to where nothing moves any more, or one with a move
  // for every pass.
  ghost predicate Climbed(net: Net, p: Partition, passes: nat)
  {
    exists climb :: IsClimb(net, climb) && climb[|climb| - 1] == p && (Settled(net, p) || |climb| > passes)
  }

  lemma {:induction false} ClimbGains(net: Net, climb: seq<Partition>, n: nat)
    requires IsClimb(net, climb) && n < |climb|
    ensures Score(net, climb[n]) >= Score(net, Singletons(net)) + 0.000000000002 * n as real
    ensures n > 0 ==> Score(net, climb[n]) > Score(net, Singletons(net))
  {
    hide Score, Neighbouring;
    if n > 0 {
      ClimbGains(net, climb, n - 1);
      var i := n - 1;
      assert Moves(net, climb[i], climb[i + 1]);
    }
  }

  // So either nothing can be improved by moving one node, or every pass has gained.
  lemma ClimbedGains(net: Net, p: Partition, passes: nat)
    requires net.twoM > 0.0 && Climbed(net, p, passes)
    ensures Settled(net, p) || Score(net, p) >= Score(net, Singletons(net)) + 0.000000000002 * passes as real
    ensures p == Singletons(net) || Newman(net, p) > Newman(net, Singletons(net))
    ensures Newman(net, p) >= Newman(net, Singletons(net))
  {
    hide Score, Newman, Settled, Singletons;
    var climb :| IsClimb(net, climb) && climb[|climb| - 1] == p && (Settled(net, p) || |climb| > passes);
    ClimbGains(net, climb, |climb| - 1);
    ScoreToNewman(net, p, Singletons(net));
  }

  // The singletons are a possible answer exactly when no node has a reason to move, or no pass is made.
  lemma SingletonsClimbedIff(net: Net, passes: nat)
    ensures Climbed(net, Singletons(net), passes) <==> Settled(net, Singletons(net)) || passes == 0
  {
    hide Score, Settled, Singletons;
    var start := Singletons(net);
    if Settled(net, start) || passes == 0 {
      assert IsClimb(net, [start]) && [start][0] == start;
    }
    if Climbed(net, start, passes) {
      var climb :| IsClimb(net, climb) && climb[|climb| - 1] == start && (Settled(net, start) || |climb| > passes);
      ClimbGains(net, climb, |climb| - 1);
    }
  }

  lemma ClimbMore(net: Net, climb: seq<Partition>, q: Partition)
    requires IsClimb(net, climb) && Moves(net, climb[|climb| - 1], q)
    ensures IsClimb(net, climb + [q])
  {
    hide Moves, Singletons;
    var more := climb + [q];
    forall i | 0 <= i < |more| - 1
      ensures Moves(net, more[i], more[i + 1])
    {
      if i < |climb| - 1 {
        assert Moves(net, climb[i], climb[i + 1]);
      }
    }
  }

  lemma ScoreToNewman(net: Net, p: Partition, q: Partition)
    requires net.twoM > 0.0
    ensures Score(net, p) > Score(net, q) ==> Newman(net, p) > Newman(net, q)
    ensures Score(net, p) == Score(net, q) ==> Newman(net, p) == Newman(net, q)
  {
    hide Score;
  }

  // Local moving, repeated until nothing moves or the passes run out.
  method Louvain(net: Net, passes: nat := 12) returns (partition: Partition)
    requires WellFormed(net) && net.twoM > 0.0
    ensures Partitions(net, partition) && Climbed(net, partition, passes)
  {
    hide Score, SettledAt, DegreesRight, WellFormed, Moves, IsClimb, Gain, Neighbouring, Settled;
    partition := map u | u in net.adj :: u;
    var commDeg := net.degree;
    SingletonDegrees(net);
    ghost var climb := [partition];
    StartClimb(net);
    for pass := 0 to passes
      invariant Partitions(net, partition) && DegreesRight(net, partition, commDeg, {})
      invariant climb != [] && IsClimb(net, climb) && climb[|climb| - 1] == partition && |climb| > pass
    {
      var moved := false;
      for i := 0 to |net.order|
        invariant Partitions(net, partition) && DegreesRight(net, partition, commDeg, {})
        invariant climb != [] && IsClimb(net, climb) && climb[|climb| - 1] == partition && |climb| > (if moved then pass + 1 else pass)
        invariant !moved ==> forall j :: 0 <= j < i ==> Stays(net, partition, net.order[j])
      {
        var u := net.order[i];
        OrderHasRow(net, i);
        ghost var before := partition;
        var m;
        partition, commDeg, m := MoveNode(net, partition, commDeg, u);
        if m {
          assert MovesNode(net, before, partition, u);
          ItMoves(net, before, partition, u);
          ClimbMore(net, climb, partition);
          climb := climb + [partition];
        } else {
          assert Stays(net, partition, u);
        }
        moved := moved || m;
      }
      if !moved {
        AllSettled(net, partition);
        break;
      }
    }
  }

  ghost predicate Stays(net: Net, p: Partition, u: Node)
  {
    u in net.adj && u in p && SettledAt(net, p, u)
  }

  lemma StartClimb(net: Net)
    ensures IsClimb(net, [Singletons(net)])
  {
  }

  lemma ItMoves(net: Net, p: Partition, q: Partition, u: Node)
    requires MovesNode(net, p, q, u)
    ensures Moves(net, p, q)
  {
  }

  lemma OrderHasRow(net: Net, i: nat)
    requires WellFormed(net) && i < |net.order|
    ensures net.order[i] in net.adj
  {
    var u := net.order[i];
    assert u in net.order;
  }

  lemma AllSettled(net: Net, p: Partition)
    requires WellFormed(net) && forall j :: 0 <= j < |net.order| ==> Stays(net, p, net.order[j])
    ensures Settled(net, p)
  {
    hide SettledAt;
    forall u | u in net.adj
      ensures u in p && SettledAt(net, p, u)
    {
      HasDegree(net, u);
      var j :| 0 <= j < |net.order| && net.order[j] == u;
      assert Stays(net, p, net.order[j]);
    }
  }
}
