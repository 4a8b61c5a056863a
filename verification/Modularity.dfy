/** Weighted undirected graphs, Newman's modularity, and what moving one node does to it. */
module Modularity {
  import opened Lists
  import opened Reachability

  // `order` lists the nodes in any order, each once; the rows hold the weights of the links of a node.
  datatype Net = Net(order: seq<Node>, adj: map<Node, map<Node, real>>, degree: map<Node, real>, twoM: real)

  function Link(net: Net, u: Node, v: Node): real
  {
    if u in net.adj && v in net.adj[u] then net.adj[u][v] else 0.0
  }

  // Coupling has no direction, and every node has a row and a degree.
  ghost predicate WellFormed(net: Net)
  {
    && Distinct(net.order)
    && (forall u :: u in net.order <==> u in net.adj)
    && net.degree.Keys == net.adj.Keys
    && (forall u, v :: u in net.adj && v in net.adj[u] ==> v in net.adj && u in net.adj[v] && net.adj[u][v] == net.adj[v][u])
  }

  type Partition = map<Node, Node>

  // Every node has a community, named after a node.
  ghost predicate Partitions(net: Net, p: Partition)
  {
    p.Keys == net.adj.Keys && forall u :: u in p ==> p[u] in net.adj
  }

  ghost function Sum(xs: seq<Node>, f: Node -> real): real
  {
    if xs == [] then 0.0 else Sum(xs[..|xs| - 1], f) + f(xs[|xs| - 1])
  }

  lemma {:induction false} SumSame(xs: seq<Node>, f: Node -> real, g: Node -> real)
    requires forall x :: x in xs ==> f(x) == g(x)
    ensures Sum(xs, f) == Sum(xs, g)
  {
    if xs != [] {
      var last := xs[|xs| - 1];
      assert last in xs && f(last) == g(last);
      SumSame(xs[..|xs| - 1], f, g);
    }
  }

  lemma {:induction false} SumAdds(xs: seq<Node>, f: Node -> real, g: Node -> real, h: Node -> real)
    requires forall x :: x in xs ==> h(x) == f(x) + g(x)
    ensures Sum(xs, h) == Sum(xs, f) + Sum(xs, g)
  {
    if xs != [] {
      var last := xs[|xs| - 1];
      assert last in xs && h(last) == f(last) + g(last);
      SumAdds(xs[..|xs| - 1], f, g, h);
    }
  }

  // Products are named, so that proofs about sums need not look into them.
  ghost function Times(a: real, b: real): real
  {
    a * b
  }

  lemma {:induction false} SumScales(xs: seq<Node>, f: Node -> real, g: Node -> real, c: real)
    requires forall x :: x in xs ==> g(x) == Times(f(x), c)
    ensures Sum(xs, g) == Times(Sum(xs, f), c)
  {
    if xs != [] {
      var last := xs[|xs| - 1];
      assert last in xs && g(last) == f(last) * c;
      SumScales(xs[..|xs| - 1], f, g, c);
    }
  }

  lemma {:induction false} SumZero(xs: seq<Node>, f: Node -> real)
    requires forall x :: x in xs ==> f(x) == 0.0
    ensures Sum(xs, f) == 0.0
  {
    if xs != [] {
      var last := xs[|xs| - 1];
      assert last in xs && f(last) == 0.0;
      SumZero(xs[..|xs| - 1], f);
    }
  }

  // Two functions that differ at one element.
  lemma {:induction false} SumDiffersAt(xs: seq<Node>, f: Node -> real, g: Node -> real, x: Node)
    requires Distinct(xs) && x in xs && forall y :: y in xs && y != x ==> f(y) == g(y)
    ensures Sum(xs, g) == Sum(xs, f) + g(x) - f(x)
  {
    var init, last := xs[..|xs| - 1], xs[|xs| - 1];
    assert xs == init + [last];
    if last == x {
      SumSame(init, f, g);
    } else {
      SumDiffersAt(init, f, g, x);
    }
  }

  // -------------------------------------------------------------------------
  // Newman's definition
  // -------------------------------------------------------------------------

  // What random wiring of the same degrees would put between u and v.
  ghost function Expected(net: Net, u: Node, v: Node): real
    requires u in net.degree && v in net.degree && net.twoM > 0.0
  {
    Times(net.degree[u], net.degree[v] / net.twoM)
  }

  ghost function Excess(net: Net, u: Node, v: Node): real
  {
    if net.twoM > 0.0 && u in net.degree && v in net.degree then Link(net, u, v) - Expected(net, u, v) else 0.0
  }

  ghost function Together(net: Net, p: Partition, u: Node, v: Node): real
  {
    if u in p && v in p && p[u] == p[v] then Excess(net, u, v) else 0.0
  }

  ghost function TogetherWith(net: Net, p: Partition, u: Node): Node -> real
  {
    (v: Node) => Together(net, p, u, v)
  }

  ghost function Row(net: Net, p: Partition, u: Node): real
  {
    Sum(net.order, TogetherWith(net, p, u))
  }

  ghost function RowOf(net: Net, p: Partition): Node -> real
  {
    (u: Node) => Row(net, p, u)
  }

  // 2m times the modularity: the excess weight over all ordered pairs in one community.
  ghost function Score(net: Net, p: Partition): real
  {
    Sum(net.order, RowOf(net, p))
  }

  ghost function Newman(net: Net, p: Partition): real
    requires net.twoM > 0.0
  {
    Score(net, p) / net.twoM
  }

  // Excess weight between u and the other members of community c.
  ghost function GainAt(net: Net, p: Partition, u: Node, c: Node): Node -> real
  {
    (v: Node) => if v != u && v in p && p[v] == c then Excess(net, u, v) else 0.0
  }

  ghost function Gain(net: Net, p: Partition, u: Node, c: Node): real
  {
    Sum(net.order, GainAt(net, p, u, c))
  }

  lemma ExcessSymmetric(net: Net, u: Node, v: Node)
    requires WellFormed(net)
    ensures Excess(net, u, v) == Excess(net, v, u)
  {
    if net.twoM > 0.0 && u in net.degree && v in net.degree {
      Commutes(net.degree[u], net.degree[v], net.twoM);
    }
  }

  lemma Commutes(a: real, b: real, m: real)
    requires m > 0.0
    ensures Times(a, b / m) == Times(b, a / m)
  {
  }

  // A node's row is its gain in its own community, and its excess with itself.
  lemma RowIsGain(net: Net, p: Partition, u: Node)
    requires WellFormed(net) && Partitions(net, p) && u in p
    ensures Row(net, p, u) == Gain(net, p, u, p[u]) + Excess(net, u, u)
  {
    hide Excess;
    SumDiffersAt(net.order, GainAt(net, p, u, p[u]), TogetherWith(net, p, u), u);
  }

  // What the move of u does to the row of another node.
  ghost function Change(net: Net, p: Partition, u: Node, c: Node): Node -> real
    requires u in p
  {
    (v: Node) => if v == u then 0.0 else GainAt(net, p, u, c)(v) - GainAt(net, p, u, p[u])(v)
  }

  lemma OtherRow(net: Net, p: Partition, u: Node, c: Node, v: Node)
    requires WellFormed(net) && Partitions(net, p) && u in p && c in net.adj && v in net.order && v != u
    ensures Row(net, p[u := c], v) == Row(net, p, v) + Change(net, p, u, c)(v)
  {
    hide Excess, Sum;
    var q := p[u := c];
    ExcessSymmetric(net, u, v);
    assert v in p && u in p && q[v] == p[v];
    assert Excess(net, u, v) == Excess(net, v, u);
    assert TogetherWith(net, q, v)(u) == if p[v] == c then Excess(net, v, u) else 0.0;
    assert TogetherWith(net, p, v)(u) == if p[v] == p[u] then Excess(net, v, u) else 0.0;
    assert GainAt(net, p, u, c)(v) == if p[v] == c then Excess(net, u, v) else 0.0;
    assert GainAt(net, p, u, p[u])(v) == if p[v] == p[u] then Excess(net, u, v) else 0.0;
    assert Change(net, p, u, c)(v) == GainAt(net, p, u, c)(v) - GainAt(net, p, u, p[u])(v);
    SumDiffersAt(net.order, TogetherWith(net, p, v), TogetherWith(net, q, v), u);
  }

  // Moving one node changes the score by twice the difference of its gains.
  lemma MoveChangesScore(net: Net, p: Partition, u: Node, c: Node)
    requires WellFormed(net) && Partitions(net, p) && u in p && c in net.adj
    ensures Score(net, p[u := c]) == Score(net, p) + 2.0 * (Gain(net, p, u, c) - Gain(net, p, u, p[u]))
  {
    hide Excess, Sum, Row;
    var q := p[u := c];
    var change := Change(net, p, u, c);
    var moved := (v: Node) => Row(net, p, v) + change(v);
    forall v | v in net.order && v != u
      ensures Row(net, q, v) == moved(v)
    {
      OtherRow(net, p, u, c, v);
    }
    RowIsGain(net, p, u);
    RowIsGain(net, q, u);
    SumSame(net.order, GainAt(net, q, u, c), GainAt(net, p, u, c));
    SumAdds(net.order, change, GainAt(net, p, u, p[u]), GainAt(net, p, u, c));
    SumAdds(net.order, RowOf(net, p), change, moved);
    SumDiffersAt(net.order, moved, RowOf(net, q), u);
  }
}
