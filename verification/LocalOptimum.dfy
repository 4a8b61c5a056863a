/** What the result of _louvain in tools/code_health.py means on the graphs that collect_modularity builds. Links and
    degrees are whole numbers there, so gains differ by nothing or by at least one part in two_m, and the tolerance of
    the search is too small to matter. */
module LocalOptimum {
  import opened Coupling
  import opened Lists
  import opened Louvain
  import opened Modularity
  import opened Reachability

  // -------------------------------------------------------------------------
  // Whole numbers
  // -------------------------------------------------------------------------

  ghost predicate Whole(x: real)
  {
    x == x.Floor as real
  }

  lemma WholeIs(n: int)
    ensures Whole(n as real)
  {
  }

  lemma WholeDifference(a: real, b: real)
    requires Whole(a) && Whole(b)
    ensures Whole(a + b) && Whole(a - b)
  {
    WholeIs(a.Floor + b.Floor);
    WholeIs(a.Floor - b.Floor);
  }

  lemma WholeProduct(a: real, b: real)
    requires Whole(a) && Whole(b)
    ensures Whole(Times(a, b))
  {
    var m, n := a.Floor, b.Floor;
    WholeIs(m * n);
    IntProduct(m, n);
    assert a == m as real && b == n as real;
  }

  lemma IntProduct(m: int, n: int)
    ensures Times(m as real, n as real) == (m * n) as real
  {
  }

  lemma WholeFromOne(x: real)
    requires Whole(x) && x > 0.0
    ensures x >= 1.0
  {
  }

  lemma {:induction false} WholeSum(xs: seq<Node>, f: Node -> real)
    requires forall x :: x in xs ==> Whole(f(x))
    ensures Whole(Sum(xs, f))
  {
    if xs != [] {
      var init, last := xs[..|xs| - 1], xs[|xs| - 1];
      assert last in xs;
      WholeSum(init, f);
      WholeDifference(Sum(init, f), f(last));
    } else {
      WholeIs(0);
    }
  }

  // -------------------------------------------------------------------------
  // Gains are whole multiples of 1 / two_m
  // -------------------------------------------------------------------------

  lemma DegreeIsWhole(net: Net, edges: Includes, u: Node)
    requires Couples(net, edges) && u in net.degree
    ensures Whole(net.degree[u])
  {
    hide Sum, WellFormed, Whole;
    forall v
      ensures Whole(CrossingsAt(edges, u)(v))
    {
      WholeIs(Crossings(edges, u, v));
    }
    WholeSum(net.order, CrossingsAt(edges, u));
  }

  lemma LinksAreWhole(net: Net, edges: Includes, p: Partition, u: Node, c: Node)
    requires Couples(net, edges)
    ensures Whole(LinkTo(net, p, u, c))
  {
    hide Sum, WellFormed, Whole, Link, Crossings;
    WholeIs(0);
    forall v
      ensures Whole(LinkAt(net, p, u, c, net.adj.Keys)(v))
    {
      WholeIs(Crossings(edges, u, v));
      assert Link(net, u, v) == Crossings(edges, u, v) as real;
    }
    WholeSum(net.order, LinkAt(net, p, u, c, net.adj.Keys));
  }

  lemma CommunityIsWhole(net: Net, edges: Includes, p: Partition, c: Node, but: set<Node>)
    requires Couples(net, edges)
    ensures Whole(CommunityDegree(net, p, c, but))
  {
    hide Sum, Whole, Couples;
    WholeIs(0);
    forall v
      ensures Whole(DegreeAt(net, p, c, but)(v))
    {
      if v in net.degree {
        DegreeIsWhole(net, edges, v);
      }
    }
    WholeSum(net.order, DegreeAt(net, p, c, but));
  }

  lemma JoinGainScaled(w: real, commDeg: real, ku: real, twoM: real)
    requires twoM > 0.0
    ensures Times(JoinGain(w, commDeg, ku, twoM), twoM) == Times(w, twoM) - Times(commDeg, ku)
  {
    var q := commDeg * ku / twoM;
    assert q * twoM == commDeg * ku;
    assert (w - q) * twoM == w * twoM - q * twoM;
  }

  lemma GainIsWhole(net: Net, edges: Includes, p: Partition, u: Node, c: Node)
    requires Couples(net, edges) && Partitions(net, p) && net.twoM > 0.0 && u in net.adj
    ensures Whole(Times(Gain(net, p, u, c), net.twoM))
  {
    hide Gain, LinkTo, CommunityDegree, JoinGain, Times, Whole, Crossings, Sum;
    var w, deg, ku := LinkTo(net, p, u, c), CommunityDegree(net, p, c, {u}), net.degree[u];
    GainComputed(net, p, u, c);
    JoinGainScaled(w, deg, ku, net.twoM);
    LinksAreWhole(net, edges, p, u, c);
    CommunityIsWhole(net, edges, p, c, {u});
    DegreeIsWhole(net, edges, u);
    WholeIs(2 * CrossFile(edges));
    WholeProduct(w, net.twoM);
    WholeProduct(deg, ku);
    WholeDifference(Times(w, net.twoM), Times(deg, ku));
  }

  // With fewer than 5 * 10^11 includes, a gain within the tolerance is no gain.
  lemma ToleranceIsNothing(a: real, b: real, twoM: real)
    requires 0.0 < twoM < 1000000000000.0 && Whole(Times(a, twoM)) && Whole(Times(b, twoM))
    ensures a <= b + TOLERANCE <==> a <= b
  {
    hide Times, Whole;
    if b < a {
      TimesDifference(a, b, twoM);
      WholeDifference(Times(a, twoM), Times(b, twoM));
      PositiveProduct(a - b, twoM);
      WholeFromOne(Times(a - b, twoM));
      if a - b <= TOLERANCE {
        SmallProduct(a - b, twoM);
      }
    }
  }

  lemma TimesDifference(a: real, b: real, m: real)
    ensures Times(a, m) - Times(b, m) == Times(a - b, m)
  {
  }

  lemma PositiveProduct(d: real, m: real)
    requires d > 0.0 && m > 0.0
    ensures Times(d, m) > 0.0
  {
  }

  lemma SmallProduct(d: real, m: real)
    requires 0.0 < d <= TOLERANCE && 0.0 < m < 1000000000000.0
    ensures Times(d, m) < 1.0
  {
    assert d * m <= TOLERANCE * m;
  }

  lemma GainsCompare(net: Net, edges: Includes, p: Partition, u: Node, c: Node, d: Node)
    requires Couples(net, edges) && CrossFile(edges) < 500000000000 && Partitions(net, p) && net.twoM > 0.0 && u in net.adj
    ensures Gain(net, p, u, c) <= Gain(net, p, u, d) + TOLERANCE <==> Gain(net, p, u, c) <= Gain(net, p, u, d)
  {
    hide Gain, Times, Whole, Crossings, WellFormed, Partitions, Sum, CrossFile;
    GainIsWhole(net, edges, p, u, c);
    GainIsWhole(net, edges, p, u, d);
    ToleranceIsNothing(Gain(net, p, u, c), Gain(net, p, u, d), net.twoM);
  }

  // -------------------------------------------------------------------------
  // What that makes of the result
  // -------------------------------------------------------------------------

  // No node can raise the modularity by joining a community it is linked to.
  ghost predicate LocallyBest(net: Net, p: Partition)
    requires net.twoM > 0.0
  {
    forall u, c :: u in net.adj && Neighbouring(net, p, u, c) ==> Newman(net, p[u := c]) <= Newman(net, p)
  }

  // One node joins the community it is linked to that raises the modularity most.
  ghost predicate ImprovesAt(net: Net, p: Partition, q: Partition, u: Node)
    requires net.twoM > 0.0
  {
    && u in net.adj && u in q && q == p[u := q[u]] && Neighbouring(net, p, u, q[u])
    && Newman(net, q) > Newman(net, p)
    && forall c :: Neighbouring(net, p, u, c) ==> Newman(net, p[u := c]) <= Newman(net, q)
  }

  ghost predicate Improves(net: Net, p: Partition, q: Partition)
    requires net.twoM > 0.0
  {
    exists u :: ImprovesAt(net, p, q, u)
  }

  // From every file on its own, by best single moves, to where none is left, or with at least one for every pass.
  ghost predicate Improved(net: Net, p: Partition, passes: nat)
    requires net.twoM > 0.0
  {
    exists climb: seq<Partition> ::
      && climb != [] && climb[0] == Singletons(net) && climb[|climb| - 1] == p
      && (forall i :: 0 <= i < |climb| - 1 ==> Improves(net, climb[i], climb[i + 1]))
      && (LocallyBest(net, p) || |climb| > passes)
  }

  lemma NewmanCompares(net: Net, p: Partition, u: Node, c: Node, d: Node)
    requires WellFormed(net) && Partitions(net, p) && net.twoM > 0.0 && u in p && c in net.adj && d in net.adj
    ensures Newman(net, p[u := c]) <= Newman(net, p[u := d]) <==> Gain(net, p, u, c) <= Gain(net, p, u, d)
  {
    hide Score, Gain, WellFormed;
    MoveChangesScore(net, p, u, c);
    MoveChangesScore(net, p, u, d);
    QuotientsCompare(Score(net, p[u := c]), Score(net, p[u := d]), net.twoM);
  }

  lemma QuotientsCompare(a: real, b: real, m: real)
    requires m > 0.0
    ensures a / m <= b / m <==> a <= b
  {
  }

  lemma NeighbourIsNode(net: Net, p: Partition, u: Node, c: Node)
    requires Partitions(net, p) && u in net.adj && Neighbouring(net, p, u, c)
    ensures c in net.adj
  {
  }

  // The search stops exactly where no move helps.
  lemma SettledIffLocallyBest(net: Net, edges: Includes, p: Partition)
    requires Couples(net, edges) && 0 < CrossFile(edges) < 500000000000 && Partitions(net, p) && net.twoM > 0.0
    ensures Settled(net, p) <==> LocallyBest(net, p)
  {
    hide Gain, Newman, WellFormed, Neighbouring, CrossFile, Crossings, Sum;
    forall u, c | u in net.adj && Neighbouring(net, p, u, c)
      ensures Newman(net, p[u := c]) <= Newman(net, p) <==> Gain(net, p, u, c) <= Gain(net, p, u, p[u]) + TOLERANCE
    {
      NeighbourIsNode(net, p, u, c);
      GainsCompare(net, edges, p, u, c, p[u]);
      NewmanCompares(net, p, u, c, p[u]);
      assert p[u := p[u]] == p;
    }
  }

  lemma MoveImproves(net: Net, edges: Includes, p: Partition, q: Partition)
    requires Couples(net, edges) && CrossFile(edges) < 500000000000 && Partitions(net, p) && net.twoM > 0.0
    requires Moves(net, p, q)
    ensures Improves(net, p, q) && Partitions(net, q)
  {
    hide Gain, Newman, WellFormed, Neighbouring, CrossFile, Crossings, Sum, Score;
    var u :| MovesNode(net, p, q, u);
    NeighbourIsNode(net, p, u, q[u]);
    ScoreToNewman(net, q, p);
    forall c | Neighbouring(net, p, u, c)
      ensures Newman(net, p[u := c]) <= Newman(net, q)
    {
      NeighbourIsNode(net, p, u, c);
      GainsCompare(net, edges, p, u, c, q[u]);
      NewmanCompares(net, p, u, c, q[u]);
    }
    assert ImprovesAt(net, p, q, u);
  }

  lemma {:induction false} ClimbIsPartitions(net: Net, edges: Includes, climb: seq<Partition>, n: nat)
    requires Couples(net, edges) && CrossFile(edges) < 500000000000 && net.twoM > 0.0 && IsClimb(net, climb) && n < |climb|
    ensures Partitions(net, climb[n])
  {
    hide Moves, Improves, Couples, Singletons, Partitions;
    if n == 0 {
      SingletonsArePartition(net);
    } else {
      ClimbIsPartitions(net, edges, climb, n - 1);
      var i := n - 1;
      assert Moves(net, climb[i], climb[i + 1]);
      MoveImproves(net, edges, climb[i], climb[i + 1]);
    }
  }

  lemma SingletonsArePartition(net: Net)
    ensures Partitions(net, Singletons(net))
  {
  }

  // The result of local moving, without a word about tolerance.
  lemma ClimbedIsImproved(net: Net, edges: Includes, p: Partition, passes: nat)
    requires Couples(net, edges) && 0 < CrossFile(edges) < 500000000000 && net.twoM > 0.0
    requires Partitions(net, p) && Climbed(net, p, passes)
    ensures Improved(net, p, passes)
  {
    hide Moves, Improves, Couples, Singletons, Settled, LocallyBest, Partitions, CrossFile;
    var climb :| IsClimb(net, climb) && climb[|climb| - 1] == p && (Settled(net, p) || |climb| > passes);
    SettledIffLocallyBest(net, edges, p);
    forall i | 0 <= i < |climb| - 1
      ensures Improves(net, climb[i], climb[i + 1])
    {
      ClimbIsPartitions(net, edges, climb, i);
      MoveImproves(net, edges, climb[i], climb[i + 1]);
    }
  }
}
