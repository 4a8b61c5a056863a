/** collect_reach of tools/code_health.py: transitive closures in both directions, the cyclic groups they
    intersect to, and the core/shared/control/peripheral buckets. */
module CollectReach {
  import opened Lists
  import opened Reachability
  import T = Tarjan

  // A dictionary of successor sets, empty by default.
  type Adjacency = map<Node, set<Node>>

  function Next(adj: Adjacency, u: Node): set<Node>
  {
    if u in adj then adj[u] else {}
  }

  ghost predicate Represents(adj: Adjacency, arcs: set<(Node, Node)>)
  {
    forall u, v :: v in Next(adj, u) <==> (u, v) in arcs
  }

  // Everything start reaches, itself excluded.
  method Closure(adj: Adjacency, start: Node, ghost arcs: set<(Node, Node)>) returns (seen: set<Node>)
    requires Represents(adj, arcs)
    ensures forall v :: v in seen <==> v != start && Reaches(arcs, start, v)
  {
    hide Reaches;
    ghost var universe := set a | a in arcs :: a.1;
    seen := {};
    var stack := [start];
    ReachesSelf(arcs, start);
    while stack != []
      invariant seen <= universe
      invariant forall v :: v in seen ==> Reaches(arcs, start, v)
      invariant forall v :: v in stack ==> v == start || v in seen
      invariant forall u, v :: (u == start || u in seen) && u !in stack && (u, v) in arcs ==> v in seen
      decreases universe - seen, |stack|
    {
      var n := |stack| - 1;
      var u := stack[n];
      ghost var below := stack[..n];
      assert stack == below + [u];
      stack := stack[..n];
      ghost var before := seen;
      var todo := Next(adj, u);
      while todo != {}
        invariant before <= seen <= universe && todo <= Next(adj, u)
        invariant forall v :: v in seen ==> Reaches(arcs, start, v)
        invariant forall v :: v in stack ==> v == start || v in seen
        invariant forall v :: v in below ==> v in stack
        invariant forall v :: v in seen && v !in before ==> v in stack
        invariant forall v :: v in Next(adj, u) && v !in todo ==> v in seen
        invariant seen == before ==> stack == below
        decreases todo
      {
        var v := First(todo);
        todo := todo - {v};
        if v !in seen {
          assert (u, v) in arcs;
          ReachesArc(arcs, u, v);
          ReachesTrans(arcs, start, u, v);
          seen := seen + {v};
          ghost var old_stack := stack;
          stack := stack + [v];
          assert stack[|old_stack|] == v;
        }
      }
      assert forall w :: (u, w) in arcs ==> w in seen;
      assert seen != before ==> universe - seen < universe - before;
    }
    forall v | Reaches(arcs, start, v)
      ensures v in seen + {start}
    {
      ClosedContainsReach(arcs, seen + {start}, start, v);
    }
    seen := seen - {start};
  }

  // Successors, predecessors and nodes of a list of includes.
  method Adjacencies(edges: seq<(Node, Node)>) returns (succ: Adjacency, pred: Adjacency, nodes: set<Node>)
    ensures Represents(succ, ArcSet(edges)) && Represents(pred, Reversed(ArcSet(edges)))
    ensures nodes == NodeSet(ArcSet(edges))
  {
    hide Represents, ArcSet, NodeSet, Reversed;
    succ, pred, nodes := map[], map[], {};
    NoArcs(edges[..0]);
    for i := 0 to |edges|
      invariant Represents(succ, ArcSet(edges[..i])) && Represents(pred, Reversed(ArcSet(edges[..i])))
      invariant nodes == NodeSet(ArcSet(edges[..i]))
    {
      var (a, b) := edges[i];
      ArcSetStep(edges, i);
      RepresentsStep(succ, ArcSet(edges[..i]), a, b);
      RepresentsStep(pred, Reversed(ArcSet(edges[..i])), b, a);
      succ := succ[a := Next(succ, a) + {b}];
      pred := pred[b := Next(pred, b) + {a}];
      nodes := nodes + {a, b};
    }
    assert edges[..|edges|] == edges;
  }

  ghost function ArcSet(edges: seq<(Node, Node)>): set<(Node, Node)>
  {
    set e | e in edges
  }

  ghost function NodeSet(arcs: set<(Node, Node)>): set<Node>
  {
    (set a | a in arcs :: a.0) + (set a | a in arcs :: a.1)
  }

  lemma ArcSetStep(edges: seq<(Node, Node)>, i: nat)
    requires i < |edges|
    ensures ArcSet(edges[..i + 1]) == ArcSet(edges[..i]) + {edges[i]}
    ensures Reversed(ArcSet(edges[..i + 1])) == Reversed(ArcSet(edges[..i])) + {(edges[i].1, edges[i].0)}
    ensures NodeSet(ArcSet(edges[..i + 1])) == NodeSet(ArcSet(edges[..i])) + {edges[i].0, edges[i].1}
  {
    assert edges[..i + 1] == edges[..i] + [edges[i]];
  }

  lemma NoArcs(edges: seq<(Node, Node)>)
    requires edges == []
    ensures ArcSet(edges) == {} && Reversed(ArcSet(edges)) == {} && NodeSet(ArcSet(edges)) == {}
    ensures Represents(map[], ArcSet(edges)) && Represents(map[], Reversed(ArcSet(edges)))
  {
  }

  lemma RepresentsStep(adj: Adjacency, arcs: set<(Node, Node)>, a: Node, b: Node)
    requires Represents(adj, arcs)
    ensures Represents(adj[a := Next(adj, a) + {b}], arcs + {(a, b)})
  {
    var adj' := adj[a := Next(adj, a) + {b}];
    forall u, v
      ensures v in Next(adj', u) <==> (u, v) in arcs + {(a, b)}
    {
      assert v in Next(adj, u) <==> (u, v) in arcs;
    }
  }

  // -------------------------------------------------------------------------
  // Visibility, cyclic groups and buckets
  // -------------------------------------------------------------------------

  // Visibility fan-out and fan-in of a node, as sets.
  ghost function Seen(arcs: set<(Node, Node)>, n: Node): set<Node>
  {
    set v | v in NodeSet(arcs) && v != n && Reaches(arcs, n, v)
  }

  ghost function SeenBy(arcs: set<(Node, Node)>, n: Node): set<Node>
  {
    set v | v in NodeSet(arcs) && v != n && Reaches(arcs, v, n)
  }

  // The nodes n shares a cycle with, and n itself.
  ghost function Knot(arcs: set<(Node, Node)>, n: Node): set<Node>
  {
    set v | v in NodeSet(arcs) && Mutual(arcs, n, v)
  }

  datatype Bucket = Core | Shared | Control | Peripheral

  function Classify(core: set<Node>, coreIn: nat, coreOut: nat, fanIn: nat, fanOut: nat, n: Node): Bucket
  {
    if n in core then Core
    else if fanIn >= coreIn && fanOut < coreOut then Shared
    else if fanIn < coreIn && fanOut >= coreOut then Control
    else Peripheral
  }

  datatype Report = Report(out: map<Node, nat>, inn: map<Node, nat>, groups: map<set<Node>, seq<Node>>,
                           core: set<Node>, coreIn: nat, coreOut: nat, buckets: map<Bucket, nat>)
  {
    function BucketOf(n: Node): Bucket
      requires n in out && n in inn
    {
      Classify(core, coreIn, coreOut, inn[n], out[n], n)
    }
  }

  // Closures stay inside the graph.
  lemma ReachStaysInside(arcs: set<(Node, Node)>, u: Node, v: Node)
    requires Reaches(arcs, u, v) && u != v
    ensures u in NodeSet(arcs) && v in NodeSet(arcs)
  {
    hide Reaches;
    var w := ReachesFirst(arcs, u, v);
    assert (u, w).0 in NodeSet(arcs) && (u, w).1 in NodeSet(arcs);
    forall x, y | (x, y) in arcs && x in NodeSet(arcs)
      ensures y in NodeSet(arcs)
    {
      assert (x, y).1 in NodeSet(arcs);
    }
    ClosedContainsReach(arcs, NodeSet(arcs), u, v);
  }

  // Both closures of one node.
  method Visibility(succ: Adjacency, pred: Adjacency, n: Node, ghost arcs: set<(Node, Node)>)
    returns (fwd: set<Node>, bwd: set<Node>)
    requires Represents(succ, arcs) && Represents(pred, Reversed(arcs))
    ensures fwd == Seen(arcs, n) && bwd == SeenBy(arcs, n)
    ensures n in NodeSet(arcs) ==> fwd * bwd + {n} == Knot(arcs, n)
  {
    hide Reaches, NodeSet, Represents, Reversed;
    fwd := Closure(succ, n, arcs);
    bwd := Closure(pred, n, Reversed(arcs));
    forall v | v != n
      ensures Reaches(Reversed(arcs), n, v) <==> Reaches(arcs, v, n)
      ensures Reaches(arcs, n, v) || Reaches(arcs, v, n) ==> v in NodeSet(arcs)
    {
      ReachesReversedIff(arcs, v, n);
      if Reaches(arcs, n, v) {
        ReachStaysInside(arcs, n, v);
      }
      if Reaches(arcs, v, n) {
        ReachStaysInside(arcs, v, n);
      }
    }
    ReachesSelf(arcs, n);
    assert fwd == Seen(arcs, n) && bwd == SeenBy(arcs, n);
  }

  // -------------------------------------------------------------------------
  // What the report says
  // -------------------------------------------------------------------------

  ghost predicate CountsRight(arcs: set<(Node, Node)>, out: map<Node, nat>, inn: map<Node, nat>, s: set<Node>)
  {
    && out.Keys == inn.Keys == s
    && forall n :: n in s ==> out[n] == |Seen(arcs, n)| && inn[n] == |SeenBy(arcs, n)|
  }

  // Each group is a knot of more than one node, and lists its members.
  ghost predicate GroupsRight(arcs: set<(Node, Node)>, groups: map<set<Node>, seq<Node>>, s: set<Node>)
  {
    && (forall k :: k in groups ==> exists n :: n in s && k == Knot(arcs, n))
    && (forall n :: n in s && |Knot(arcs, n)| > 1 ==> Knot(arcs, n) in groups)
    && (forall k, n :: k in groups ==> (n in groups[k] <==> n in s && k == Knot(arcs, n)))
    && (forall k :: k in groups ==> |k| > 1)
  }

  ghost predicate CoreRight(groups: map<set<Node>, seq<Node>>, core: set<Node>)
  {
    if groups == map[] then core == {} else core in groups && forall k :: k in groups ==> |k| <= |core|
  }

  // v is the largest count over s, or 0.
  ghost predicate IsMax(counts: map<Node, nat>, s: set<Node>, v: nat)
    requires s <= counts.Keys
  {
    (forall n :: n in s ==> counts[n] <= v) && (v == 0 || exists n :: n in s && counts[n] == v)
  }

  // Everything but the bucket counts.
  ghost predicate IsBasis(arcs: set<(Node, Node)>, r: Report)
  {
    && CountsRight(arcs, r.out, r.inn, NodeSet(arcs))
    && GroupsRight(arcs, r.groups, NodeSet(arcs))
    && CoreRight(r.groups, r.core) && r.core <= NodeSet(arcs)
    && IsMax(r.inn, r.core, r.coreIn) && IsMax(r.out, r.core, r.coreOut)
  }

  ghost predicate IsReport(arcs: set<(Node, Node)>, r: Report)
  {
    && IsBasis(arcs, r)
    && forall b :: b in r.buckets && r.buckets[b] == |FiledAs(arcs, r.core, b)|
  }

  // Seen by no fewer files than the core is, while seeing fewer; and the other way round.
  ghost predicate AsWidelyUsed(arcs: set<(Node, Node)>, n: Node, c: Node)
  {
    |SeenBy(arcs, n)| >= |SeenBy(arcs, c)| && |Seen(arcs, n)| < |Seen(arcs, c)|
  }

  ghost predicate AsFarReaching(arcs: set<(Node, Node)>, n: Node, c: Node)
  {
    |SeenBy(arcs, n)| < |SeenBy(arcs, c)| && |Seen(arcs, n)| >= |Seen(arcs, c)|
  }

  // The files of a bucket, in terms of the graph and the core alone.
  ghost function FiledAs(arcs: set<(Node, Node)>, core: set<Node>, b: Bucket): set<Node>
    decreases b == Peripheral
  {
    match b
    case Core => core
    case Shared => set n | n in NodeSet(arcs) && n !in core && exists c :: c in core && AsWidelyUsed(arcs, n, c)
    case Control => set n | n in NodeSet(arcs) && n !in core && exists c :: c in core && AsFarReaching(arcs, n, c)
    case Peripheral => NodeSet(arcs) - core - FiledAs(arcs, core, Shared) - FiledAs(arcs, core, Control)
  }

  // Every pair of different nodes of which the first reaches the second.
  ghost function ReachPairs(arcs: set<(Node, Node)>, s: set<Node>): set<(Node, Node)>
  {
    set u, v | u in s && v in Seen(arcs, u) :: (u, v)
  }

  lemma ReachPairsStep(arcs: set<(Node, Node)>, s: set<Node>, n: Node)
    requires n !in s
    ensures |ReachPairs(arcs, s + {n})| == |ReachPairs(arcs, s)| + |Seen(arcs, n)|
  {
    var row := set v | v in Seen(arcs, n) :: (n, v);
    assert ReachPairs(arcs, s + {n}) == ReachPairs(arcs, s) + row;
    RowSize(Seen(arcs, n), n);
  }

  lemma {:induction false} RowSize(s: set<Node>, n: Node)
    ensures |set v | v in s :: (n, v)| == |s|
  {
    if s != {} {
      var x := AnyOf(s);
      RowSize(s - {x}, n);
      assert (set v | v in s :: (n, v)) == (set v | v in s - {x} :: (n, v)) + {(n, x)};
    }
  }

  // vfo, vfi and the sum behind the propagation cost.
  method Fans(succ: Adjacency, pred: Adjacency, nodes: set<Node>, ghost arcs: set<(Node, Node)>)
    returns (out: map<Node, nat>, inn: map<Node, nat>, total: nat)
    requires Represents(succ, arcs) && Represents(pred, Reversed(arcs)) && nodes == NodeSet(arcs)
    ensures CountsRight(arcs, out, inn, nodes) && total == |ReachPairs(arcs, nodes)|
  {
    hide Represents, Reversed, Seen, SeenBy, NodeSet, Knot;
    out, inn, total := map[], map[], 0;
    var todo := nodes;
    assert nodes - todo == {} && ReachPairs(arcs, {}) == {};
    while todo != {}
      invariant todo <= nodes && CountsRight(arcs, out, inn, nodes - todo) && total == |ReachPairs(arcs, nodes - todo)|
      decreases todo
    {
      var n := First(todo);
      var fwd, bwd := Visibility(succ, pred, n, arcs);
      ReachPairsStep(arcs, nodes - todo, n);
      assert nodes - (todo - {n}) == (nodes - todo) + {n};
      todo := todo - {n};
      out, inn, total := out[n := |fwd|], inn[n := |bwd|], total + |fwd|;
    }
    assert nodes - todo == nodes;
  }

  // The loop that files each node under the set of nodes it shares a cycle with.
  method Groups(succ: Adjacency, pred: Adjacency, nodes: set<Node>, ghost arcs: set<(Node, Node)>)
    returns (groups: map<set<Node>, seq<Node>>)
    requires Represents(succ, arcs) && Represents(pred, Reversed(arcs)) && nodes == NodeSet(arcs)
    ensures GroupsRight(arcs, groups, nodes)
  {
    hide Represents, Reversed, Seen, SeenBy, NodeSet, Knot;
    groups := map[];
    var todo := nodes;
    while todo != {}
      invariant todo <= nodes && GroupsRight(arcs, groups, nodes - todo)
      decreases todo
    {
      var n := First(todo);
      ghost var done := nodes - todo;
      todo := todo - {n};
      assert nodes - todo == done + {n};
      var fwd, bwd := Visibility(succ, pred, n, arcs);
      var both := fwd * bwd;
      assert n !in both by { NotSeen(arcs, n); }
      assert |both + {n}| == |both| + 1;
      if both != {} {
        var key := both + {n};
        GroupsStep(arcs, groups, done, n);
        groups := groups[key := (if key in groups then groups[key] else []) + [n]];
      } else {
        LonerStep(arcs, groups, done, n);
      }
    }
    assert nodes - todo == nodes;
  }

  lemma NotSeen(arcs: set<(Node, Node)>, n: Node)
    ensures n !in Seen(arcs, n)
  {
  }

  lemma GroupsStep(arcs: set<(Node, Node)>, groups: map<set<Node>, seq<Node>>, s: set<Node>, n: Node)
    requires GroupsRight(arcs, groups, s) && n !in s && |Knot(arcs, n)| > 1
    ensures var key := Knot(arcs, n);
            GroupsRight(arcs, groups[key := (if key in groups then groups[key] else []) + [n]], s + {n})
  {
    hide Knot;
    var key := Knot(arcs, n);
    var groups' := groups[key := (if key in groups then groups[key] else []) + [n]];
    assert groups'[key][|groups'[key]| - 1] == n;
    forall k, m | k in groups'
      ensures m in groups'[k] <==> m in s + {n} && k == Knot(arcs, m)
    {
      if k == key && k !in groups {
        assert m in s ==> Knot(arcs, m) != key;
      }
    }
  }

  lemma LonerStep(arcs: set<(Node, Node)>, groups: map<set<Node>, seq<Node>>, s: set<Node>, n: Node)
    requires GroupsRight(arcs, groups, s) && n !in s && |Knot(arcs, n)| <= 1
    ensures GroupsRight(arcs, groups, s + {n})
  {
    hide Knot;
  }

  // The largest group, or nothing when there is none.
  method LargestGroup(groups: map<set<Node>, seq<Node>>) returns (core: set<Node>)
    ensures CoreRight(groups, core)
  {
    core := {};
    var todo := groups.Keys;
    if todo == {} {
      return;
    }
    core := First(todo);
    todo := todo - {core};
    while todo != {}
      invariant todo <= groups.Keys && core in groups
      invariant forall k :: k in groups && k !in todo ==> |k| <= |core|
      decreases todo
    {
      var k := First(todo);
      todo := todo - {k};
      if |k| > |core| {
        core := k;
      }
    }
  }

  // The largest count over s, 0 when s is empty.
  method MaxOver(counts: map<Node, nat>, s: set<Node>) returns (v: nat)
    requires s <= counts.Keys
    ensures IsMax(counts, s, v)
  {
    v := 0;
    var todo := s;
    while todo != {}
      invariant todo <= s && IsMax(counts, s - todo, v)
      decreases todo
    {
      var n := First(todo);
      todo := todo - {n};
      if counts[n] > v {
        v := counts[n];
      }
    }
    assert s - todo == s;
  }

  ghost function InBucket(r: Report, s: set<Node>, b: Bucket): set<Node>
    requires s <= r.out.Keys && s <= r.inn.Keys
  {
    set n | n in s && r.BucketOf(n) == b
  }

  lemma BucketStep(r: Report, s: set<Node>, n: Node)
    requires s + {n} <= r.out.Keys && s + {n} <= r.inn.Keys && n !in s
    ensures forall b :: |InBucket(r, s + {n}, b)| == |InBucket(r, s, b)| + (if b == r.BucketOf(n) then 1 else 0)
  {
    forall b
      ensures |InBucket(r, s + {n}, b)| == |InBucket(r, s, b)| + (if b == r.BucketOf(n) then 1 else 0)
    {
      assert InBucket(r, s + {n}, b) == InBucket(r, s, b) + (if b == r.BucketOf(n) then {n} else {});
    }
  }

  // The loop that counts each node in its bucket.
  method CountBuckets(r: Report, nodes: set<Node>, ghost arcs: set<(Node, Node)>) returns (buckets: map<Bucket, nat>)
    requires nodes == NodeSet(arcs) && IsBasis(arcs, r)
    ensures forall b :: b in buckets && buckets[b] == |FiledAs(arcs, r.core, b)|
  {
    hide IsBasis, NodeSet, FiledAs;
    BasisCounts(arcs, r);
    buckets := map[Core := 0, Shared := 0, Control := 0, Peripheral := 0];
    var todo := nodes;
    forall b: Bucket
      ensures b in buckets && buckets[b] == |InBucket(r, nodes - todo, b)|
    {
      assert b.Core? || b.Shared? || b.Control? || b.Peripheral?;
      assert InBucket(r, nodes - todo, b) == {};
    }
    while todo != {}
      invariant todo <= nodes
      invariant forall b :: b in buckets && buckets[b] == |InBucket(r, nodes - todo, b)|
      decreases todo
    {
      var n := First(todo);
      var b := r.BucketOf(n);
      BucketStep(r, nodes - todo, n);
      assert nodes - (todo - {n}) == (nodes - todo) + {n};
      todo := todo - {n};
      buckets := buckets[b := buckets[b] + 1];
    }
    assert nodes - todo == nodes;
    BucketsAreFiled(arcs, r);
  }

  lemma BasisCounts(arcs: set<(Node, Node)>, r: Report)
    requires IsBasis(arcs, r)
    ensures r.out.Keys == r.inn.Keys == NodeSet(arcs)
  {
  }

  method Collect(edges: seq<(Node, Node)>) returns (r: Report, total: nat)
    ensures IsReport(ArcSet(edges), r) && total == |ReachPairs(ArcSet(edges), NodeSet(ArcSet(edges)))|
  {
    hide NodeSet, ArcSet, Reversed, Represents, Seen, SeenBy, ReachPairs, Knot;
    ghost var arcs := ArcSet(edges);
    var succ, pred, nodes := Adjacencies(edges);
    var out, inn;
    out, inn, total := Fans(succ, pred, nodes, arcs);
    var groups := Groups(succ, pred, nodes, arcs);
    var core := LargestGroup(groups);
    KnotsInside(arcs);
    var coreIn := MaxOver(inn, core);
    var coreOut := MaxOver(out, core);
    r := Report(out, inn, groups, core, coreIn, coreOut, map[]);
    var buckets := CountBuckets(r, nodes, arcs);
    r := r.(buckets := buckets);
  }

  lemma KnotsInside(arcs: set<(Node, Node)>)
    ensures forall n :: Knot(arcs, n) <= NodeSet(arcs)
  {
  }

  // -------------------------------------------------------------------------
  // What follows from it
  // -------------------------------------------------------------------------

  // Members of one knot see equally many nodes, and are seen by equally many.
  lemma KnotSeesAlike(arcs: set<(Node, Node)>, u: Node, v: Node)
    requires u in NodeSet(arcs) && v in Knot(arcs, u)
    ensures |Seen(arcs, u)| == |Seen(arcs, v)| && |SeenBy(arcs, u)| == |SeenBy(arcs, v)|
  {
    hide Reaches, NodeSet;
    ReachesThrough(arcs, u, v);
    ReachesThrough(arcs, v, u);
    ReachesSelf(arcs, u);
    ReachesSelf(arcs, v);
    assert Seen(arcs, u) + {u} == Seen(arcs, v) + {v};
    assert SeenBy(arcs, u) + {u} == SeenBy(arcs, v) + {v};
  }

  // Whoever reaches a node sees at least as much as it does.
  lemma ReachSeesMore(arcs: set<(Node, Node)>, u: Node, v: Node)
    requires u in NodeSet(arcs) && v in NodeSet(arcs) && Reaches(arcs, u, v)
    ensures |Seen(arcs, u)| >= |Seen(arcs, v)| && |SeenBy(arcs, v)| >= |SeenBy(arcs, u)|
  {
    hide Reaches, NodeSet;
    ReachesThrough(arcs, u, v);
    ReachesSelf(arcs, u);
    ReachesSelf(arcs, v);
    SubsetSize(Seen(arcs, v) + {v}, Seen(arcs, u) + {u});
    SubsetSize(SeenBy(arcs, u) + {u}, SeenBy(arcs, v) + {v});
  }

  // The core's thresholds are the counts of every one of its members.
  lemma CoreThresholds(arcs: set<(Node, Node)>, r: Report, c: Node)
    requires IsBasis(arcs, r) && c in r.core
    ensures r.out[c] == r.coreOut && r.inn[c] == r.coreIn
  {
    hide Seen, SeenBy, Knot, NodeSet;
    assert r.core in r.groups;
    var n :| n in NodeSet(arcs) && r.core == Knot(arcs, n);
    forall m | m in r.core
      ensures r.out[m] == r.out[n] && r.inn[m] == r.inn[n]
    {
      KnotSeesAlike(arcs, n, m);
    }
  }

  // The classification of the tool, in terms of reachability.
  lemma BucketByReach(arcs: set<(Node, Node)>, r: Report, n: Node, c: Node)
    requires IsBasis(arcs, r) && n in NodeSet(arcs) && n !in r.core && c in r.core
    ensures n in r.out && n in r.inn
    ensures r.BucketOf(n) == Shared <==> AsWidelyUsed(arcs, n, c)
    ensures r.BucketOf(n) == Control <==> AsFarReaching(arcs, n, c)
    ensures r.BucketOf(n) != Core
  {
    hide Seen, SeenBy, GroupsRight, CoreRight, NodeSet, Reaches;
    CoreThresholds(arcs, r, c);
    assert c in NodeSet(arcs);
  }

  lemma BucketIsFiled(arcs: set<(Node, Node)>, r: Report, n: Node)
    requires IsBasis(arcs, r) && n in NodeSet(arcs)
    ensures n in r.out && n in r.inn
    ensures forall b :: r.BucketOf(n) == b <==> n in FiledAs(arcs, r.core, b)
  {
    hide Seen, SeenBy, GroupsRight, NodeSet, Reaches, AsWidelyUsed, AsFarReaching;
    if n !in r.core {
      if r.core == {} {
        assert r.coreIn == 0 && r.coreOut == 0;
      } else {
        forall c | c in r.core
          ensures r.BucketOf(n) == Shared <==> AsWidelyUsed(arcs, n, c)
          ensures r.BucketOf(n) == Control <==> AsFarReaching(arcs, n, c)
        {
          BucketByReach(arcs, r, n, c);
        }
        var c := AnyOf(r.core);
        BucketByReach(arcs, r, n, c);
      }
    }
  }

  lemma BucketsAreFiled(arcs: set<(Node, Node)>, r: Report)
    requires IsBasis(arcs, r)
    ensures r.out.Keys == r.inn.Keys == NodeSet(arcs)
    ensures forall b :: InBucket(r, NodeSet(arcs), b) == FiledAs(arcs, r.core, b)
  {
    hide IsBasis, FiledAs, NodeSet;
    BasisCounts(arcs, r);
    forall b
      ensures InBucket(r, NodeSet(arcs), b) == FiledAs(arcs, r.core, b)
    {
      FiledInside(arcs, r, b);
      forall n | n in NodeSet(arcs)
        ensures n in InBucket(r, NodeSet(arcs), b) <==> n in FiledAs(arcs, r.core, b)
      {
        BucketIsFiled(arcs, r, n);
      }
      var counted, filed := InBucket(r, NodeSet(arcs), b), FiledAs(arcs, r.core, b);
      assert forall n :: n in counted <==> n in filed;
      assert counted == filed;
    }
  }

  lemma FiledInside(arcs: set<(Node, Node)>, r: Report, b: Bucket)
    requires IsBasis(arcs, r)
    ensures forall n :: n in FiledAs(arcs, r.core, b) ==> n in NodeSet(arcs)
  {
    hide NodeSet, CountsRight, GroupsRight, CoreRight, AsWidelyUsed, AsFarReaching;
  }

  // A shared file cannot reach the core, and a control file cannot be reached from it.
  lemma SharedAndControlAreApart(arcs: set<(Node, Node)>, r: Report, n: Node, c: Node)
    requires IsReport(arcs, r) && n in NodeSet(arcs) && c in r.core
    ensures n in FiledAs(arcs, r.core, Shared) ==> !Reaches(arcs, n, c)
    ensures n in FiledAs(arcs, r.core, Control) ==> !Reaches(arcs, c, n)
  {
    hide Seen, SeenBy, GroupsRight, CoreRight, NodeSet, Reaches, FiledAs;
    BucketIsFiled(arcs, r, n);
    if n !in r.core {
      BucketByReach(arcs, r, n, c);
    }
    if Reaches(arcs, n, c) {
      ReachSeesMore(arcs, n, c);
    }
    if Reaches(arcs, c, n) {
      ReachSeesMore(arcs, c, n);
    }
  }

  // Every file outside the core that the core reaches is shared, and every one that reaches the core is control.
  lemma AroundTheCore(arcs: set<(Node, Node)>, r: Report, n: Node, c: Node)
    requires IsReport(arcs, r) && n in NodeSet(arcs) && n !in r.core && c in r.core
    ensures Reaches(arcs, c, n) ==> n in FiledAs(arcs, r.core, Shared)
    ensures Reaches(arcs, n, c) ==> n in FiledAs(arcs, r.core, Control)
  {
    hide Seen, SeenBy, GroupsRight, CoreRight, NodeSet, Reaches, FiledAs;
    BucketIsFiled(arcs, r, n);
    BucketByReach(arcs, r, n, c);
    if Reaches(arcs, c, n) {
      OutsideSeesLess(arcs, r, n, c);
    }
    if Reaches(arcs, n, c) {
      OutsideSeesLess(arcs, r, n, c);
    }
  }

  lemma OutsideSeesLess(arcs: set<(Node, Node)>, r: Report, n: Node, c: Node)
    requires IsBasis(arcs, r) && n in NodeSet(arcs) && n !in r.core && c in r.core
    ensures Reaches(arcs, c, n) ==> |Seen(arcs, n)| < |Seen(arcs, c)| && |SeenBy(arcs, c)| <= |SeenBy(arcs, n)|
    ensures Reaches(arcs, n, c) ==> |SeenBy(arcs, n)| < |SeenBy(arcs, c)| && |Seen(arcs, c)| <= |Seen(arcs, n)|
  {
    hide Reaches, NodeSet, IsBasis, Seen, SeenBy;
    CoreIsKnot(arcs, r, c);
    NotInKnot(arcs, c, n);
    if Reaches(arcs, c, n) {
      ReachSeesMore(arcs, c, n);
      OneWayReach(arcs, c, n);
    }
    if Reaches(arcs, n, c) {
      ReachSeesMore(arcs, n, c);
      OneWayReach(arcs, n, c);
    }
  }

  lemma NotInKnot(arcs: set<(Node, Node)>, c: Node, n: Node)
    requires n in NodeSet(arcs) && n !in Knot(arcs, c)
    ensures !(Reaches(arcs, c, n) && Reaches(arcs, n, c))
  {
    hide Reaches, NodeSet;
  }

  // Who reaches a node that does not reach back sees more, and is seen by fewer.
  lemma OneWayReach(arcs: set<(Node, Node)>, u: Node, v: Node)
    requires u in NodeSet(arcs) && v in NodeSet(arcs) && Reaches(arcs, u, v) && !Reaches(arcs, v, u)
    ensures |Seen(arcs, v)| < |Seen(arcs, u)| && |SeenBy(arcs, u)| < |SeenBy(arcs, v)|
  {
    hide Reaches, NodeSet;
    ReachesThrough(arcs, u, v);
    ReachesSelf(arcs, u);
    ReachesSelf(arcs, v);
    StrictlyFewer(Seen(arcs, v) + {v}, Seen(arcs, u) + {u}, u);
    StrictlyFewer(SeenBy(arcs, u) + {u}, SeenBy(arcs, v) + {v}, v);
  }

  lemma StrictlyFewer(a: set<Node>, b: set<Node>, x: Node)
    requires x in b && x !in a && forall y :: y in a ==> y in b
    ensures |a| < |b|
  {
    assert forall y :: y in a + {x} ==> y in b;
    SubsetSize(a + {x}, b);
  }

  lemma CoreIsKnot(arcs: set<(Node, Node)>, r: Report, c: Node)
    requires IsBasis(arcs, r) && c in r.core
    ensures r.core == Knot(arcs, c) && c in NodeSet(arcs)
  {
    hide Reaches, NodeSet, CountsRight;
    assert r.core in r.groups;
    var n :| n in NodeSet(arcs) && r.core == Knot(arcs, n);
    ReachesThrough(arcs, n, c);
    ReachesThrough(arcs, c, n);
    assert forall v :: v in Knot(arcs, n) <==> v in Knot(arcs, c);
  }

  // Without a cyclic group there is nothing to be shared with and nothing to control.
  lemma NoCoreAllPeripheral(arcs: set<(Node, Node)>, r: Report)
    requires IsReport(arcs, r) && r.groups == map[]
    ensures r.buckets[Peripheral] == |NodeSet(arcs)| && r.buckets[Core] == r.buckets[Shared] == r.buckets[Control] == 0
  {
    hide Seen, SeenBy, GroupsRight, NodeSet;
    assert r.core == {};
    assert FiledAs(arcs, r.core, Shared) == {} && FiledAs(arcs, r.core, Control) == {};
    assert FiledAs(arcs, r.core, Peripheral) == NodeSet(arcs);
  }

  ghost function Sum(order: seq<Node>, counts: map<Node, nat>): nat
    requires forall n :: n in order ==> n in counts
  {
    if order == [] then 0
    else
      var last := order[|order| - 1];
      assert last in order;
      Sum(order[..|order| - 1], counts) + counts[last]
  }

  lemma {:induction false} SumOut(arcs: set<(Node, Node)>, out: map<Node, nat>, order: seq<Node>)
    requires Distinct(order) && forall n :: n in order ==> n in out && out[n] == |Seen(arcs, n)|
    ensures Sum(order, out) == |ReachPairs(arcs, (set n | n in order))|
  {
    hide Seen;
    if order == [] {
      assert ReachPairs(arcs, (set n | n in order)) == {};
    } else {
      var init, last := order[..|order| - 1], order[|order| - 1];
      assert order == init + [last];
      SumOut(arcs, out, init);
      ReachPairsStep(arcs, (set n | n in init), last);
      assert (set n | n in order) == (set n | n in init) + {last};
    }
  }

  lemma SeenReversed(arcs: set<(Node, Node)>, n: Node)
    ensures Seen(Reversed(arcs), n) == SeenBy(arcs, n)
  {
    hide Reaches, NodeSet;
    ReversedNodes(arcs);
    forall v
      ensures Reaches(Reversed(arcs), n, v) <==> Reaches(arcs, v, n)
    {
      ReachesReversedIff(arcs, v, n);
    }
  }

  lemma ReversedNodes(arcs: set<(Node, Node)>)
    ensures NodeSet(Reversed(arcs)) == NodeSet(arcs)
  {
    forall a | a in arcs
      ensures (a.1, a.0) in Reversed(arcs)
    {
    }
    forall x
      ensures x in NodeSet(Reversed(arcs)) <==> x in NodeSet(arcs)
    {
      if x in NodeSet(arcs) {
        var a :| a in arcs && (a.0 == x || a.1 == x);
        assert (a.1, a.0) in Reversed(arcs) && (a.1, a.0).0 == a.1 && (a.1, a.0).1 == a.0;
      }
    }
  }

  // The sum of all fan-outs is the sum of all fan-ins: both count the pairs of which one reaches the other.
  lemma FanSumsAgree(arcs: set<(Node, Node)>, r: Report, order: seq<Node>)
    requires IsReport(arcs, r) && Distinct(order) && forall n :: n in order <==> n in NodeSet(arcs)
    ensures Sum(order, r.out) == Sum(order, r.inn) == |ReachPairs(arcs, NodeSet(arcs))|
  {
    hide Seen, SeenBy, NodeSet, GroupsRight, CoreRight, IsMax, Reversed, Distinct;
    var nodes := set n | n in order;
    assert forall n :: n in nodes <==> n in NodeSet(arcs);
    assert nodes == NodeSet(arcs);
    SumOut(arcs, r.out, order);
    forall n | n in order
      ensures r.inn[n] == |Seen(Reversed(arcs), n)|
    {
      SeenReversed(arcs, n);
    }
    SumOut(Reversed(arcs), r.inn, order);
    PairsReversed(arcs, nodes);
  }

  lemma PairsReversed(arcs: set<(Node, Node)>, nodes: set<Node>)
    requires nodes == NodeSet(arcs)
    ensures |ReachPairs(Reversed(arcs), nodes)| == |ReachPairs(arcs, nodes)|
  {
    hide Reaches, NodeSet;
    var there, back := ReachPairs(arcs, nodes), ReachPairs(Reversed(arcs), nodes);
    forall n
      ensures Seen(Reversed(arcs), n) == SeenBy(arcs, n)
    {
      SeenReversed(arcs, n);
    }
    hide Reversed;
    assert forall u, v :: (u, v) in there <==> (v, u) in back;
    assert back == Reversed(there) by { SwapIs(there, back); }
    ReversedSize(there);
  }

  lemma SwapIs(there: set<(Node, Node)>, back: set<(Node, Node)>)
    requires forall u, v :: (u, v) in there <==> (v, u) in back
    ensures back == Reversed(there)
  {
    forall a
      ensures a in back <==> a in Reversed(there)
    {
      var (u, v) := a;
      assert (v, u) in there <==> (u, v) in back;
      if a in Reversed(there) {
        var b :| b in there && (b.1, b.0) == a;
        assert b == (v, u);
      }
    }
  }

  lemma {:induction false} ReversedSize(arcs: set<(Node, Node)>)
    ensures |Reversed(arcs)| == |arcs|
    decreases arcs
  {
    if arcs != {} {
      var a := AnyOf(arcs);
      ReversedSize(arcs - {a});
      assert Reversed(arcs) == Reversed(arcs - {a}) + {(a.1, a.0)};
    } else {
      assert Reversed(arcs) == {};
    }
  }

  // The groups found by intersecting closures are Tarjan's components of more than one node.
  lemma GroupsAreComponents(g: T.Graph, roots: seq<Node>, comps: seq<seq<Node>>, r: Report)
    requires IsReport(T.Arcs(g), r) && T.IsComponentListing(g, roots, comps)
    requires forall n :: n in NodeSet(T.Arcs(g)) ==> n in roots
    ensures r.groups.Keys == set c | c in comps && |c| > 1 :: Elems(c)
  {
    hide Reaches, Seen, SeenBy, NodeSet, CoreRight, IsMax, CountsRight;
    var arcs := T.Arcs(g);
    forall k | k in r.groups
      ensures exists c :: c in comps && |c| > 1 && k == Elems(c)
    {
      var n :| n in NodeSet(arcs) && k == Knot(arcs, n);
      var c := ComponentOf(g, roots, comps, n);
      KnotIsComponent(g, c, n);
    }
    forall c | c in comps && |c| > 1
      ensures Elems(c) in r.groups
    {
      var i :| 0 <= i < |comps| && comps[i] == c;
      assert T.IsClass(g, comps[i]);
      assert c[0] in c && c[1] in c && Mutual(arcs, c[0], c[1]);
      ReachStaysInside(arcs, c[0], c[1]);
      KnotIsComponent(g, c, c[0]);
    }
  }

  lemma ComponentOf(g: T.Graph, roots: seq<Node>, comps: seq<seq<Node>>, n: Node) returns (c: seq<Node>)
    requires T.IsComponentListing(g, roots, comps) && n in roots
    ensures c in comps && n in c && T.IsClass(g, c)
  {
    hide Reaches;
    ReachesSelf(T.Arcs(g), n);
    assert T.ReachableFrom(g, roots, n);
    assert n in T.Members(comps);
    c :| c in comps && n in c;
    var i :| 0 <= i < |comps| && comps[i] == c;
    assert T.IsClass(g, comps[i]);
  }

  lemma KnotIsComponent(g: T.Graph, c: seq<Node>, n: Node)
    requires T.IsClass(g, c) && n in c && n in NodeSet(T.Arcs(g))
    ensures Knot(T.Arcs(g), n) == Elems(c) && |Elems(c)| == |c|
  {
    hide Reaches, NodeSet;
    forall v | v in c
      ensures v in NodeSet(T.Arcs(g))
    {
      if v != n {
        ReachStaysInside(T.Arcs(g), n, v);
      }
    }
    assert forall v :: v in Knot(T.Arcs(g), n) <==> v in Elems(c);
    DistinctSize(c);
  }
}
