/** _modularity of tools/code_health.py: the score of a partition, community by community. */
module ModularityScore {
  import opened Lists
  import opened Louvain
  import opened Modularity
  import opened Reachability

  ghost predicate Labels(net: Net, p: Partition)
  {
    WellFormed(net) && p.Keys == net.adj.Keys && net.twoM > 0.0
  }

  // Links from u to the nodes of done that are labelled c, u itself included.
  ghost function LinksInto(net: Net, p: Partition, u: Node, c: Node, done: set<Node>): Node -> real
  {
    (v: Node) => if v in done && v in p && p[v] == c then Link(net, u, v) else 0.0
  }

  // The links of u inside c, if u is labelled c.
  ghost function InnerAt(net: Net, p: Partition, c: Node): Node -> real
  {
    (u: Node) => if u in p && p[u] == c then Sum(net.order, LinksInto(net, p, u, c, net.adj.Keys)) else 0.0
  }

  // The rows of the nodes labelled with one of s.
  ghost function RowsIn(net: Net, p: Partition, s: set<Node>): Node -> real
  {
    (u: Node) => if u in p && p[u] in s then Row(net, p, u) else 0.0
  }

  ghost function ExpectedIn(net: Net, p: Partition, c: Node, share: real): Node -> real
  {
    (u: Node) => Times(DegreeAt(net, p, c, {})(u), share)
  }

  lemma RowSplits(net: Net, p: Partition, c: Node, u: Node, v: Node)
    requires Labels(net, p) && u in p && v in p && p[u] == c
    ensures LinksInto(net, p, u, c, net.adj.Keys)(v) ==
            TogetherWith(net, p, u)(v) + ExpectedIn(net, p, c, net.degree[u] / net.twoM)(v)
  {
    assert u in net.degree && v in net.degree;
    hide Link, Times, WellFormed;
    if p[v] == c {
      assert TogetherWith(net, p, u)(v) == Excess(net, u, v) == Link(net, u, v) - Times(net.degree[u], net.degree[v] / net.twoM);
      assert DegreeAt(net, p, c, {})(v) == net.degree[v];
      Commutes(net.degree[u], net.degree[v], net.twoM);
    } else {
      ZeroTimes(DegreeAt(net, p, c, {})(v), net.degree[u] / net.twoM);
    }
  }

  // A row is the links inside the community, less the share of its degree.
  lemma RowComputed(net: Net, p: Partition, c: Node, u: Node)
    requires Labels(net, p) && u in p && p[u] == c
    ensures InnerAt(net, p, c)(u) == Row(net, p, u) + ExpectedIn(net, p, c, CommunityDegree(net, p, c, {}) / net.twoM)(u)
  {
    assert u in net.degree;
    var share := net.degree[u] / net.twoM;
    forall v | v in net.order
      ensures LinksInto(net, p, u, c, net.adj.Keys)(v) == TogetherWith(net, p, u)(v) + ExpectedIn(net, p, c, share)(v)
    {
      RowSplits(net, p, c, u, v);
    }
    hide Sum, TogetherWith, LinksInto, Times, WellFormed;
    SumAdds(net.order, TogetherWith(net, p, u), ExpectedIn(net, p, c, share), LinksInto(net, p, u, c, net.adj.Keys));
    SumScales(net.order, DegreeAt(net, p, c, {}), ExpectedIn(net, p, c, share), share);
    Commutes(CommunityDegree(net, p, c, {}), net.degree[u], net.twoM);
    assert DegreeAt(net, p, c, {})(u) == net.degree[u];
  }

  lemma TermIsQuotient(i: real, d: real, m: real)
    requires m > 0.0
    ensures Term(i, d, m) == (i - Times(d, d / m)) / m
  {
    assert (d / m) * (d / m) == d * (d / m) / m;
  }

  lemma InnerSplits(net: Net, p: Partition, c: Node, u: Node)
    requires Labels(net, p) && u in p
    ensures InnerAt(net, p, c)(u) == RowsIn(net, p, {c})(u) + ExpectedIn(net, p, c, CommunityDegree(net, p, c, {}) / net.twoM)(u)
  {
    hide Sum, Row, Times, WellFormed;
    if p[u] == c {
      RowComputed(net, p, c, u);
    } else {
      ZeroTimes(DegreeAt(net, p, c, {})(u), CommunityDegree(net, p, c, {}) / net.twoM);
    }
  }

  // The term of one community is its share of Newman's double sum.
  lemma TermIsRows(net: Net, p: Partition, c: Node)
    requires Labels(net, p)
    ensures Term(Sum(net.order, InnerAt(net, p, c)), CommunityDegree(net, p, c, {}), net.twoM) == Over(Sum(net.order, RowsIn(net, p, {c})), net.twoM)
  {
    hide Sum, InnerAt, RowsIn, ExpectedIn, DegreeAt, Times;
    var i, d := Sum(net.order, InnerAt(net, p, c)), CommunityDegree(net, p, c, {});
    var share := d / net.twoM;
    forall u | u in net.order
      ensures InnerAt(net, p, c)(u) == RowsIn(net, p, {c})(u) + ExpectedIn(net, p, c, share)(u)
    {
      InnerSplits(net, p, c, u);
    }
    SumAdds(net.order, RowsIn(net, p, {c}), ExpectedIn(net, p, c, share), InnerAt(net, p, c));
    SumScalesIn(net, p, c, share);
    TermIsQuotient(i, d, net.twoM);
  }

  lemma SumScalesIn(net: Net, p: Partition, c: Node, share: real)
    ensures Sum(net.order, ExpectedIn(net, p, c, share)) == Times(CommunityDegree(net, p, c, {}), share)
  {
    hide Times, Sum;
    SumScales(net.order, DegreeAt(net, p, c, {}), ExpectedIn(net, p, c, share), share);
  }

  // What one community contributes to the score.
  function Term(inner: real, deg: real, twoM: real): real
    requires twoM > 0.0
  {
    inner / twoM - (deg / twoM) * (deg / twoM)
  }

  // The counters after the nodes of xs.
  ghost predicate Tallied(net: Net, p: Partition, xs: seq<Node>, inner: map<Node, real>, deg: map<Node, real>)
  {
    && (forall c :: Get(inner, c) == Sum(xs, InnerAt(net, p, c)))
    && (forall c :: Get(deg, c) == Sum(xs, DegreeAt(net, p, c, {})))
    && (forall u :: u in xs && u in p ==> p[u] in deg)
    && (forall c :: c in deg ==> exists u :: u in xs && u in p && p[u] == c)
  }

  lemma TallyAt(net: Net, p: Partition, xs: seq<Node>, u: Node, c: Node, links: real)
    requires Labels(net, p) && u in p && links == Sum(net.order, LinksInto(net, p, u, p[u], net.adj.Keys))
    ensures u in net.degree
    ensures Sum(xs + [u], InnerAt(net, p, c)) == Sum(xs, InnerAt(net, p, c)) + (if p[u] == c then links else 0.0)
    ensures Sum(xs + [u], DegreeAt(net, p, c, {})) == Sum(xs, DegreeAt(net, p, c, {})) + (if p[u] == c then net.degree[u] else 0.0)
  {
    assert u in net.degree;
    hide WellFormed, LinksInto;
    assert (xs + [u])[..|xs|] == xs && (xs + [u])[|xs|] == u;
  }

  lemma TalliedStep(net: Net, p: Partition, xs: seq<Node>, u: Node, inner: map<Node, real>, deg: map<Node, real>, links: real)
    requires Labels(net, p) && u in p && Tallied(net, p, xs, inner, deg)
    requires links == Sum(net.order, LinksInto(net, p, u, p[u], net.adj.Keys))
    ensures u in net.degree
    ensures Tallied(net, p, xs + [u], inner[p[u] := Get(inner, p[u]) + links], deg[p[u] := Get(deg, p[u]) + net.degree[u]])
  {
    hide WellFormed, LinksInto, Sum, InnerAt, DegreeAt;
    TallyAt(net, p, xs, u, p[u], links);
    var more := xs + [u];
    assert more[|xs|] == u && forall x :: x in more <==> x in xs || x == u;
    var inner', deg' := inner[p[u] := Get(inner, p[u]) + links], deg[p[u] := Get(deg, p[u]) + net.degree[u]];
    forall c
      ensures Get(inner', c) == Sum(more, InnerAt(net, p, c))
      ensures Get(deg', c) == Sum(more, DegreeAt(net, p, c, {}))
    {
      TallyAt(net, p, xs, u, c, links);
    }
  }

  lemma LinksStep(net: Net, p: Partition, u: Node, c: Node, done: set<Node>, v: Node)
    requires Labels(net, p) && u in net.adj && v in net.adj[u] && v !in done
    ensures v in p
    ensures Sum(net.order, LinksInto(net, p, u, c, done + {v})) ==
            Sum(net.order, LinksInto(net, p, u, c, done)) + (if p[v] == c then net.adj[u][v] else 0.0)
  {
    hide Sum;
    assert v in net.adj && v in p;
    SumDiffersAt(net.order, LinksInto(net, p, u, c, done), LinksInto(net, p, u, c, done + {v}), v);
  }

  // The inner loop: the links of u that stay in its community.
  method InnerLinks(net: Net, p: Partition, u: Node) returns (links: real)
    requires Labels(net, p) && u in p
    ensures links == Sum(net.order, LinksInto(net, p, u, p[u], net.adj.Keys))
  {
    links := 0.0;
    var todo := net.adj[u].Keys;
    SumZero(net.order, LinksInto(net, p, u, p[u], {}));
    assert net.adj[u].Keys - todo == {};
    while todo != {}
      invariant todo <= net.adj[u].Keys && links == Sum(net.order, LinksInto(net, p, u, p[u], net.adj[u].Keys - todo))
      decreases todo
    {
      var v := First(todo);
      LinksStep(net, p, u, p[u], net.adj[u].Keys - todo, v);
      assert net.adj[u].Keys - (todo - {v}) == net.adj[u].Keys - todo + {v};
      todo := todo - {v};
      if p[v] == p[u] {
        links := links + net.adj[u][v];
      }
    }
    assert net.adj[u].Keys - todo == net.adj[u].Keys;
    SumSame(net.order, LinksInto(net, p, u, p[u], net.adj[u].Keys), LinksInto(net, p, u, p[u], net.adj.Keys));
  }

  lemma RowsStep(net: Net, p: Partition, s: set<Node>, c: Node)
    requires c !in s
    ensures Sum(net.order, RowsIn(net, p, s + {c})) == Sum(net.order, RowsIn(net, p, s)) + Sum(net.order, RowsIn(net, p, {c}))
  {
    hide Row;
    SumAdds(net.order, RowsIn(net, p, s), RowsIn(net, p, {c}), RowsIn(net, p, s + {c}));
  }

  function Over(x: real, m: real): real
    requires m > 0.0
  {
    x / m
  }

  lemma OverAdds(a: real, b: real, m: real)
    requires m > 0.0
    ensures Over(a, m) + Over(b, m) == Over(a + b, m)
  {
  }

  lemma OverZero(a: real, m: real)
    requires m > 0.0 && a == 0.0
    ensures Over(a, m) == 0.0
  {
    assert (a / m) * m == a;
  }

  // The loop that fills the two counters.
  method Tally(net: Net, p: Partition) returns (inner: map<Node, real>, deg: map<Node, real>)
    requires Labels(net, p)
    ensures Tallied(net, p, net.order, inner, deg)
  {
    hide WellFormed, Tallied, LinksInto;
    inner, deg := map[], map[];
    TalliedNothing(net, p, net.order[..0]);
    for i := 0 to |net.order|
      invariant Tallied(net, p, net.order[..i], inner, deg)
    {
      var u := net.order[i];
      OrderHasRow(net, i);
      var links := InnerLinks(net, p, u);
      TalliedStep(net, p, net.order[..i], u, inner, deg, links);
      assert net.order[..i + 1] == net.order[..i] + [u];
      inner := inner[p[u] := Get(inner, p[u]) + links];
      deg := deg[p[u] := Get(deg, p[u]) + net.degree[u]];
    }
    assert net.order[..|net.order|] == net.order;
  }

  // The sum over the communities.
  method AddTerms(net: Net, ghost p: Partition, inner: map<Node, real>, deg: map<Node, real>) returns (q: real)
    requires Labels(net, p) && Tallied(net, p, net.order, inner, deg)
    ensures q == Newman(net, p)
  {
    hide WellFormed, Tallied, RowsIn, Term, Newman, Over, Sum, InnerAt, CommunityDegree;
    q := 0.0;
    var todo := deg.Keys;
    assert deg.Keys - todo == {};
    NoRows(net, p);
    while todo != {}
      invariant todo <= deg.Keys && q == Over(Sum(net.order, RowsIn(net, p, deg.Keys - todo)), net.twoM)
      decreases todo
    {
      var c := First(todo);
      TermIsRows(net, p, c);
      TalliedAt(net, p, inner, deg, c);
      RowsStep(net, p, deg.Keys - todo, c);
      OverAdds(Sum(net.order, RowsIn(net, p, deg.Keys - todo)), Sum(net.order, RowsIn(net, p, {c})), net.twoM);
      assert deg.Keys - (todo - {c}) == deg.Keys - todo + {c};
      todo := todo - {c};
      q := q + Term(Get(inner, c), deg[c], net.twoM);
    }
    assert deg.Keys - todo == deg.Keys;
    AllRows(net, p, inner, deg);
  }

  // Newman's Q of any labelling of the nodes; 0 for a graph without links.
  method ModularityOf(net: Net, p: Partition) returns (q: real)
    requires WellFormed(net) && p.Keys == net.adj.Keys
    ensures net.twoM > 0.0 ==> q == Newman(net, p)
    ensures net.twoM <= 0.0 ==> q == 0.0
  {
    hide WellFormed, Tallied, Newman;
    if net.twoM <= 0.0 {
      return 0.0;
    }
    var inner, deg := Tally(net, p);
    q := AddTerms(net, p, inner, deg);
  }

  lemma TalliedNothing(net: Net, p: Partition, xs: seq<Node>)
    requires xs == []
    ensures Tallied(net, p, xs, map[], map[])
  {
  }

  lemma TalliedAt(net: Net, p: Partition, inner: map<Node, real>, deg: map<Node, real>, c: Node)
    requires Tallied(net, p, net.order, inner, deg) && c in deg
    ensures Get(inner, c) == Sum(net.order, InnerAt(net, p, c)) && deg[c] == CommunityDegree(net, p, c, {})
  {
  }

  lemma NoRows(net: Net, p: Partition)
    requires net.twoM > 0.0
    ensures Over(Sum(net.order, RowsIn(net, p, {})), net.twoM) == 0.0
  {
    hide Over;
    SumZero(net.order, RowsIn(net, p, {}));
    OverZero(Sum(net.order, RowsIn(net, p, {})), net.twoM);
  }

  lemma AllRows(net: Net, p: Partition, inner: map<Node, real>, deg: map<Node, real>)
    requires Labels(net, p) && Tallied(net, p, net.order, inner, deg)
    ensures Over(Sum(net.order, RowsIn(net, p, deg.Keys)), net.twoM) == Newman(net, p)
  {
    hide Row, Sum;
    SumSame(net.order, RowsIn(net, p, deg.Keys), RowOf(net, p));
  }
}
