/** The transitive closures and fan-in of tools/include_graph.py. Unlike the closures of collect_reach they keep the
    start when a cycle leads back to it. */
module IncludeFanIn {
  import opened Lists
  import opened Reachability
  import opened CollectReach

  // A walk of at least one include leads from n to v.
  ghost predicate Includes(arcs: set<(Node, Node)>, n: Node, v: Node)
  {
    exists w :: (n, w) in arcs && Reaches(arcs, w, v)
  }

  lemma IncludesArc(arcs: set<(Node, Node)>, n: Node, v: Node)
    requires (n, v) in arcs
    ensures Includes(arcs, n, v)
  {
    hide Reaches;
    ReachesSelf(arcs, v);
  }

  lemma IncludesMore(arcs: set<(Node, Node)>, n: Node, u: Node, v: Node)
    requires Includes(arcs, n, u) && (u, v) in arcs
    ensures Includes(arcs, n, v)
  {
    hide Reaches;
    var w :| (n, w) in arcs && Reaches(arcs, w, u);
    ReachesArc(arcs, u, v);
    ReachesTrans(arcs, w, u, v);
  }

  lemma IncludesClosed(arcs: set<(Node, Node)>, s: set<Node>, n: Node, v: Node)
    requires Closed(arcs, s) && (forall w :: (n, w) in arcs ==> w in s) && Includes(arcs, n, v)
    ensures v in s
  {
    hide Reaches;
    var w :| (n, w) in arcs && Reaches(arcs, w, v);
    ClosedContainsReach(arcs, s, w, v);
  }

  method IncludeClosure(graph: Adjacency, n: Node, ghost arcs: set<(Node, Node)>) returns (out: set<Node>)
    requires Represents(graph, arcs)
    ensures forall v :: v in out <==> Includes(arcs, n, v)
  {
    hide Includes;
    ghost var universe := set a | a in arcs :: a.1;
    out := {};
    var stack := [n];
    while stack != []
      invariant out <= universe
      invariant forall v :: v in out ==> Includes(arcs, n, v)
      invariant forall v :: v in stack ==> v == n || v in out
      invariant forall u, v :: (u == n || u in out) && u !in stack && (u, v) in arcs ==> v in out
      decreases universe - out, |stack|
    {
      var top := |stack| - 1;
      var u := stack[top];
      ghost var below := stack[..top];
      assert stack == below + [u];
      stack := stack[..top];
      ghost var before := out;
      var todo := Next(graph, u);
      while todo != {}
        invariant before <= out <= universe && todo <= Next(graph, u)
        invariant forall v :: v in out ==> Includes(arcs, n, v)
        invariant forall v :: v in stack ==> v == n || v in out
        invariant forall v :: v in below ==> v in stack
        invariant forall v :: v in out && v !in before ==> v in stack
        invariant forall v :: v in Next(graph, u) && v !in todo ==> v in out
        invariant out == before ==> stack == below
        decreases todo
      {
        var w := First(todo);
        todo := todo - {w};
        if w !in out {
          assert (u, w) in arcs && (u, w).1 in universe;
          if u in out {
            IncludesMore(arcs, n, u, w);
          } else {
            IncludesArc(arcs, n, w);
          }
          out := out + {w};
          stack := stack + [w];
        }
      }
    }
    assert forall w :: (n, w) in arcs ==> w in out;
    forall u, v | (u, v) in arcs && u in out
      ensures v in out
    {
    }
    forall v | Includes(arcs, n, v)
      ensures v in out
    {
      IncludesClosed(arcs, out, n, v);
    }
  }

  // The files of s that end up including h.
  ghost function Includers(arcs: set<(Node, Node)>, s: set<Node>, h: Node): set<Node>
  {
    set f | f in s && Includes(arcs, f, h)
  }

  ghost predicate Counted(arcs: set<(Node, Node)>, s: set<Node>, fanIn: map<Node, nat>)
  {
    forall h :: Count(fanIn, h) == |Includers(arcs, s, h)|
  }

  // A defaultdict(int).
  function Count(counts: map<Node, nat>, h: Node): nat
  {
    if h in counts then counts[h] else 0
  }

  lemma CountedStep(arcs: set<(Node, Node)>, s: set<Node>, f: Node, before: map<Node, nat>, after: map<Node, nat>)
    requires Counted(arcs, s, before) && f !in s
    requires forall h :: Count(after, h) == Count(before, h) + (if Includes(arcs, f, h) then 1 else 0)
    ensures Counted(arcs, s + {f}, after)
  {
    hide Includes, Count, Includers;
    forall h
      ensures Count(after, h) == |Includers(arcs, s + {f}, h)|
    {
      OneMoreIncluder(arcs, s, f, h);
    }
  }

  lemma OneMoreIncluder(arcs: set<(Node, Node)>, s: set<Node>, f: Node, h: Node)
    requires f !in s
    ensures |Includers(arcs, s + {f}, h)| == |Includers(arcs, s, h)| + (if Includes(arcs, f, h) then 1 else 0)
  {
    hide Includes;
    assert Includers(arcs, s + {f}, h) == Includers(arcs, s, h) + (if Includes(arcs, f, h) then {f} else {});
  }

  method FanIn(graph: Adjacency, files: set<Node>, ghost arcs: set<(Node, Node)>) returns (fanIn: map<Node, nat>)
    requires Represents(graph, arcs)
    ensures Counted(arcs, files, fanIn)
  {
    hide Includes, Counted, Represents;
    fanIn := map[];
    NothingCounted(arcs);
    var todo := files;
    assert files - todo == {};
    while todo != {}
      invariant todo <= files && Counted(arcs, files - todo, fanIn)
      decreases todo
    {
      var f := First(todo);
      ghost var before := fanIn;
      var reached := IncludeClosure(graph, f, arcs);
      var left := reached;
      while left != {}
        invariant left <= reached
        invariant forall h :: Count(fanIn, h) == Count(before, h) + (if h in reached - left then 1 else 0)
        decreases left
      {
        var h := First(left);
        left := left - {h};
        fanIn := fanIn[h := Count(fanIn, h) + 1];
      }
      CountedStep(arcs, files - todo, f, before, fanIn);
      assert files - (todo - {f}) == files - todo + {f};
      todo := todo - {f};
    }
    assert files - todo == files;
  }

  lemma NothingCounted(arcs: set<(Node, Node)>)
    ensures Counted(arcs, {}, map[])
  {
    hide Includes;
    assert forall h :: Includers(arcs, {}, h) == {};
  }

  lemma IncludesIsReaches(arcs: set<(Node, Node)>, u: Node, v: Node)
    requires u != v
    ensures Includes(arcs, u, v) <==> Reaches(arcs, u, v)
  {
    hide Reaches;
    if Reaches(arcs, u, v) {
      var w := ReachesFirst(arcs, u, v);
    }
    if Includes(arcs, u, v) {
      var w :| (u, w) in arcs && Reaches(arcs, w, v);
      ReachesArc(arcs, u, w);
      ReachesTrans(arcs, u, w, v);
    }
  }

  // A file includes itself, in a roundabout way, exactly when it is in a cyclic group.
  lemma IncludesItselfIff(arcs: set<(Node, Node)>, h: Node)
    requires h in NodeSet(arcs) && (h, h) !in arcs
    ensures Includes(arcs, h, h) <==> |Knot(arcs, h)| > 1
  {
    hide Reaches, NodeSet;
    ReachesSelf(arcs, h);
    assert h in Knot(arcs, h);
    if Includes(arcs, h, h) {
      var w :| (h, w) in arcs && Reaches(arcs, w, h);
      ReachesArc(arcs, h, w);
      ReachStaysInside(arcs, h, w);
      SubsetSize({h, w}, Knot(arcs, h));
    }
    if |Knot(arcs, h)| > 1 {
      var rest := Knot(arcs, h) - {h};
      assert |rest| > 0;
      var v := AnyOf(rest);
      var w := ReachesFirst(arcs, h, v);
      ReachesTrans(arcs, w, v, h);
    }
  }

  // The two tools count alike: this fan-in is the other's visibility fan-in, one more for a file in a cyclic group.
  lemma FanInsAgree(arcs: set<(Node, Node)>, r: Report, files: set<Node>, fanIn: map<Node, nat>, h: Node)
    requires IsReport(arcs, r) && Counted(arcs, files, fanIn)
    requires NodeSet(arcs) <= files && h in NodeSet(arcs) && (h, h) !in arcs
    ensures Count(fanIn, h) == r.inn[h] + (if |Knot(arcs, h)| > 1 then 1 else 0)
  {
    hide Reaches, NodeSet, Knot, GroupsRight, CoreRight, IsMax, Includes;
    IncludesItselfIff(arcs, h);
    forall f
      ensures f in Includers(arcs, files, h) <==> f in SeenBy(arcs, h) || (f == h && Includes(arcs, h, h))
    {
      if f != h {
        IncludesIsReaches(arcs, f, h);
        if Reaches(arcs, f, h) {
          ReachStaysInside(arcs, f, h);
        }
      }
    }
    assert Includers(arcs, files, h) == SeenBy(arcs, h) + (if Includes(arcs, h, h) then {h} else {});
    assert h !in SeenBy(arcs, h);
  }
}
