/** The start of collect_modularity in tools/code_health.py: the undirected weighted graph of the includes and its
    degrees. */
module Coupling {
  import opened Lists
  import opened Louvain
  import opened Modularity
  import opened ModularityScore
  import opened Reachability

  type Includes = seq<(Node, Node)>

  predicate Joins(e: (Node, Node), u: Node, v: Node)
  {
    u != v && (e == (u, v) || e == (v, u))
  }

  // How many includes there are between two files, in either direction; a file is not coupled to itself.
  function Crossings(edges: Includes, u: Node, v: Node): nat
  {
    if edges == [] then 0
    else Crossings(edges[..|edges| - 1], u, v) + (if Joins(edges[|edges| - 1], u, v) then 1 else 0)
  }

  function CrossFile(edges: Includes): nat
  {
    if edges == [] then 0
    else CrossFile(edges[..|edges| - 1]) + (if edges[|edges| - 1].0 != edges[|edges| - 1].1 then 1 else 0)
  }

  ghost function CrossingsAt(edges: Includes, u: Node): Node -> real
  {
    (v: Node) => Crossings(edges, u, v) as real
  }

  ghost function RowCount(edges: Includes, xs: seq<Node>): Node -> real
  {
    (u: Node) => Sum(xs, CrossingsAt(edges, u))
  }

  // The net holds exactly the coupling of the includes, each row sums to the degree and the degrees to two_m.
  ghost predicate Couples(net: Net, edges: Includes)
  {
    && WellFormed(net)
    && (forall u, v :: Link(net, u, v) == Crossings(edges, u, v) as real)
    && (forall u :: u in net.degree ==> net.degree[u] == Sum(net.order, CrossingsAt(edges, u)))
    && net.twoM == 2.0 * CrossFile(edges) as real
  }

  // -------------------------------------------------------------------------
  // Each include between two files counts twice in the degrees
  // -------------------------------------------------------------------------

  ghost predicate Covers(xs: seq<Node>, edges: Includes)
  {
    Distinct(xs) && forall e :: e in edges && e.0 != e.1 ==> e.0 in xs && e.1 in xs
  }

  // One more include between a and b adds one to the row of either and nothing to the others.
  lemma RowGrows(init: Includes, e: (Node, Node), xs: seq<Node>, u: Node)
    requires Covers(xs, init + [e])
    ensures Sum(xs, CrossingsAt(init + [e], u)) ==
            Sum(xs, CrossingsAt(init, u)) + (if e.0 != e.1 && (u == e.0 || u == e.1) then 1.0 else 0.0)
  {
    hide Sum;
    var (a, b) := e;
    assert (init + [e])[..|init + [e]| - 1] == init;
    assert forall v :: Crossings(init + [e], u, v) == Crossings(init, u, v) + (if Joins(e, u, v) then 1 else 0);
    if a != b && (u == a || u == b) {
      var v := if u == a then b else a;
      assert e in init + [e];
      SumDiffersAt(xs, CrossingsAt(init, u), CrossingsAt(init + [e], u), v);
    } else {
      SumSame(xs, CrossingsAt(init, u), CrossingsAt(init + [e], u));
    }
  }

  lemma {:induction false} DegreesCountTwice(edges: Includes, xs: seq<Node>)
    requires Covers(xs, edges)
    ensures Sum(xs, RowCount(edges, xs)) == 2.0 * CrossFile(edges) as real
  {
    hide Sum;
    if edges == [] {
      forall u
        ensures RowCount(edges, xs)(u) == 0.0
      {
        SumZero(xs, CrossingsAt(edges, u));
      }
      SumZero(xs, RowCount(edges, xs));
    } else {
      var init, e := edges[..|edges| - 1], edges[|edges| - 1];
      assert edges == init + [e];
      DegreesCountTwice(init, xs);
      TwoRowsGrow(init, e, xs);
    }
  }

  lemma TwoRowsGrow(init: Includes, e: (Node, Node), xs: seq<Node>)
    requires Covers(xs, init + [e])
    ensures Sum(xs, RowCount(init + [e], xs)) == Sum(xs, RowCount(init, xs)) + (if e.0 != e.1 then 2.0 else 0.0)
  {
    hide Sum, Crossings, CrossingsAt;
    var before, after := RowCount(init, xs), RowCount(init + [e], xs);
    forall u
      ensures after(u) == before(u) + (if e.0 != e.1 && (u == e.0 || u == e.1) then 1.0 else 0.0)
    {
      RowGrows(init, e, xs, u);
    }
    if e.0 == e.1 {
      SumSame(xs, before, after);
    } else {
      assert e in init + [e];
      var between := (u: Node) => if u == e.0 then after(u) else before(u);
      SumDiffersAt(xs, before, between, e.0);
      SumDiffersAt(xs, between, after, e.1);
    }
  }

  // -------------------------------------------------------------------------
  // Building the net
  // -------------------------------------------------------------------------

  type Rows = map<Node, map<Node, real>>

  function Row0(rows: Rows, u: Node): map<Node, real>
  {
    if u in rows then rows[u] else map[]
  }

  // Exactly the files with a crossing have a row, and exactly the crossings are in it.
  ghost predicate Tallies(rows: Rows, edges: Includes)
  {
    && (forall u, v :: TalliesAt(rows, edges, u, v))
    && (forall e :: e in edges && e.0 != e.1 ==> e.0 in rows && e.1 in rows)
    && (forall u :: u in rows ==> rows[u] != map[])
  }

  // One more include counted in the row of a.
  function Bump(rows: Rows, a: Node, b: Node): Rows
  {
    rows[a := Row0(rows, a)[b := Get(Row0(rows, a), b) + 1.0]]
  }

  lemma BumpedRows(rows: Rows, a: Node, b: Node, u: Node)
    requires a != b
    ensures var rows' := Bump(Bump(rows, a, b), b, a);
            && rows'.Keys == rows.Keys + {a, b}
            && Row0(rows', u) == if u == a then Row0(rows, a)[b := Get(Row0(rows, a), b) + 1.0]
                                 else if u == b then Row0(rows, b)[a := Get(Row0(rows, b), a) + 1.0]
                                 else Row0(rows, u)
    ensures (u == a || u == b) ==> Row0(Bump(Bump(rows, a, b), b, a), u) != map[]
  {
    var row := Row0(Bump(Bump(rows, a, b), b, a), u);
    assert u == a ==> b in row;
    assert u == b ==> a in row;
  }

  ghost predicate TalliesAt(rows: Rows, edges: Includes, u: Node, v: Node)
  {
    && (v in Row0(rows, u) <==> Crossings(edges, u, v) > 0)
    && (v in Row0(rows, u) ==> v in rows && Row0(rows, u)[v] == Crossings(edges, u, v) as real)
  }

  lemma BumpedTalliesAt(rows: Rows, init: Includes, a: Node, b: Node, u: Node, v: Node)
    requires a != b && TalliesAt(rows, init, u, v)
    ensures TalliesAt(Bump(Bump(rows, a, b), b, a), init + [(a, b)], u, v)
  {
    hide Crossings, Bump, Row0;
    BumpedRows(rows, a, b, u);
    OneMoreCrossing(init, (a, b), u, v);
  }

  lemma TalliesStep(rows: Rows, init: Includes, e: (Node, Node))
    requires Tallies(rows, init)
    ensures Tallies(if e.0 == e.1 then rows else Bump(Bump(rows, e.0, e.1), e.1, e.0), init + [e])
  {
    hide Crossings, Row0, Bump, TalliesAt;
    var (a, b) := e;
    var rows' := if a == b then rows else Bump(Bump(rows, a, b), b, a);
    forall u, v
      ensures TalliesAt(rows', init + [e], u, v)
    {
      if a == b {
        OneMoreCrossing(init, e, u, v);
        SameTally(rows, init, e, u, v);
      } else {
        BumpedTalliesAt(rows, init, a, b, u, v);
      }
    }
    assert forall x :: x in init + [e] <==> x in init || x == e;
    if a != b {
      BumpedRows(rows, a, b, a);
      forall u | u in rows'
        ensures rows'[u] != map[]
      {
        BumpedRows(rows, a, b, u);
        RowIs(rows, u);
        RowIs(rows', u);
      }
    }
  }

  lemma RowIs(rows: Rows, u: Node)
    ensures u in rows ==> Row0(rows, u) == rows[u]
  {
  }

  lemma SameTally(rows: Rows, init: Includes, e: (Node, Node), u: Node, v: Node)
    requires TalliesAt(rows, init, u, v) && Crossings(init + [e], u, v) == Crossings(init, u, v)
    ensures TalliesAt(rows, init + [e], u, v)
  {
  }

  lemma OneMoreCrossing(init: Includes, e: (Node, Node), u: Node, v: Node)
    ensures Crossings(init + [e], u, v) == Crossings(init, u, v) + (if Joins(e, u, v) then 1 else 0)
  {
    assert (init + [e])[..|init + [e]| - 1] == init;
  }

  method CountIncludes(edges: Includes) returns (rows: Rows)
    ensures Tallies(rows, edges)
  {
    rows := map[];
    assert edges[..0] == [];
    hide Crossings, Tallies;
    NothingTallied();
    for i := 0 to |edges|
      invariant Tallies(rows, edges[..i])
    {
      var (a, b) := edges[i];
      TalliesStep(rows, edges[..i], edges[i]);
      assert edges[..i + 1] == edges[..i] + [edges[i]];
      if a == b {
        continue;
      }
      rows := Bump(rows, a, b);
      rows := Bump(rows, b, a);
    }
    assert edges[..|edges|] == edges;
  }

  lemma NothingTallied()
    ensures Tallies(map[], [])
  {
  }

  ghost function Part(m: map<Node, real>, done: set<Node>): Node -> real
  {
    (v: Node) => if v in done && v in m then m[v] else 0.0
  }

  // sum(m.values())
  method SumValues(m: map<Node, real>, ghost xs: seq<Node>) returns (total: real)
    requires Distinct(xs) && forall v :: v in m ==> v in xs
    ensures total == Sum(xs, Part(m, m.Keys))
  {
    hide Sum;
    total := 0.0;
    var todo := m.Keys;
    SumZero(xs, Part(m, {}));
    assert m.Keys - todo == {};
    while todo != {}
      invariant todo <= m.Keys && total == Sum(xs, Part(m, m.Keys - todo))
      decreases todo
    {
      var v := First(todo);
      ghost var done := m.Keys - todo;
      assert m.Keys - (todo - {v}) == done + {v};
      SumDiffersAt(xs, Part(m, done), Part(m, done + {v}), v);
      todo := todo - {v};
      total := total + m[v];
    }
    assert m.Keys - todo == m.Keys;
  }

  method Listing(keys: set<Node>) returns (order: seq<Node>)
    ensures Distinct(order) && forall u :: u in order <==> u in keys
  {
    order := [];
    var todo := keys;
    while todo != {}
      invariant todo <= keys && Distinct(order) && forall u :: u in order <==> u in keys && u !in todo
      decreases todo
    {
      var u := First(todo);
      todo := todo - {u};
      order := order + [u];
    }
  }

  method Degrees(rows: Rows, order: seq<Node>, ghost edges: Includes) returns (degree: map<Node, real>)
    requires Tallies(rows, edges) && Distinct(order) && forall u :: u in order <==> u in rows
    ensures degree.Keys == rows.Keys
    ensures forall u :: u in degree ==> degree[u] == Sum(order, CrossingsAt(edges, u))
  {
    hide Crossings, Sum;
    degree := map[];
    var todo := rows.Keys;
    while todo != {}
      invariant todo <= rows.Keys && degree.Keys == rows.Keys - todo
      invariant forall u :: u in degree ==> degree[u] == Sum(order, CrossingsAt(edges, u))
      decreases todo
    {
      var u := First(todo);
      todo := todo - {u};
      assert forall v :: v in rows[u] ==> TalliesAt(rows, edges, u, v);
      var total := SumValues(rows[u], order);
      RowIsCrossings(rows, order, edges, u);
      degree := degree[u := total];
    }
  }

  lemma RowIsCrossings(rows: Rows, order: seq<Node>, edges: Includes, u: Node)
    requires Tallies(rows, edges) && u in rows
    ensures Sum(order, Part(rows[u], rows[u].Keys)) == Sum(order, CrossingsAt(edges, u))
  {
    hide Crossings, Sum;
    assert rows[u] == Row0(rows, u);
    forall v
      ensures Part(rows[u], rows[u].Keys)(v) == Crossings(edges, u, v) as real
    {
      assert TalliesAt(rows, edges, u, v);
    }
    SumSame(order, Part(rows[u], rows[u].Keys), CrossingsAt(edges, u));
  }

  method BuildNet(edges: Includes) returns (net: Net)
    ensures Couples(net, edges)
    ensures net.adj == map[] <==> CrossFile(edges) == 0
  {
    hide Crossings, Sum, Tallies, CrossFile, Couples, Distinct;
    var rows := CountIncludes(edges);
    var order := Listing(rows.Keys);
    var degree := Degrees(rows, order, edges);
    var twoM := SumValues(degree, order);
    net := Net(order, rows, degree, twoM);
    NetCouples(net, edges);
    EmptyIff(net, edges);
  }

  lemma NetCouples(net: Net, edges: Includes)
    requires Tallies(net.adj, edges) && Distinct(net.order) && forall u :: u in net.order <==> u in net.adj
    requires net.degree.Keys == net.adj.Keys && net.twoM == Sum(net.order, Part(net.degree, net.degree.Keys))
    requires forall u :: u in net.degree ==> net.degree[u] == Sum(net.order, CrossingsAt(edges, u))
    ensures Couples(net, edges)
  {
    hide Crossings, Sum, CrossFile, Distinct;
    forall u, v
      ensures Link(net, u, v) == Crossings(edges, u, v) as real
      ensures u in net.adj && v in net.adj[u] ==> v in net.adj && u in net.adj[v] && net.adj[u][v] == net.adj[v][u]
    {
      assert TalliesAt(net.adj, edges, u, v) && TalliesAt(net.adj, edges, v, u);
      CrossingsSymmetric(edges, u, v);
    }
    SumSame(net.order, Part(net.degree, net.degree.Keys), RowCount(edges, net.order));
    DegreesCountTwice(edges, net.order);
  }

  lemma {:induction false} CrossingsSymmetric(edges: Includes, u: Node, v: Node)
    ensures Crossings(edges, u, v) == Crossings(edges, v, u)
  {
    if edges != [] {
      CrossingsSymmetric(edges[..|edges| - 1], u, v);
    }
  }

  lemma EmptyIff(net: Net, edges: Includes)
    requires Tallies(net.adj, edges) && Couples(net, edges)
    ensures net.adj == map[] <==> CrossFile(edges) == 0
  {
    hide Crossings, Sum, Couples;
    NoCrossFile(edges);
    if net.adj != map[] {
      var u := AnyOf(net.adj.Keys);
      var v := AnyOf(net.adj[u].Keys);
      assert TalliesAt(net.adj, edges, u, v);
      assert Crossings(edges, u, v) > 0;
    }
  }

  lemma {:induction false} NoCrossFile(edges: Includes)
    ensures CrossFile(edges) > 0 <==> exists e :: e in edges && e.0 != e.1
    ensures CrossFile(edges) == 0 ==> forall u, v :: Crossings(edges, u, v) == 0
  {
    if edges != [] {
      var init, e := edges[..|edges| - 1], edges[|edges| - 1];
      assert edges == init + [e];
      NoCrossFile(init);
    }
  }
}
