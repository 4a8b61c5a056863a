/** tarjan of tools/include_graph.py: the same search over (node, resume position) pairs. A node is
    numbered when its frame is first popped up for work, not when the frame is pushed. */
module IncludeGraphTarjan {
  import opened Lists
  import opened Reachability
  import opened Tarjan

  // A node and the position in its successor list to resume from; 0 until the node is numbered.
  datatype Frame = Frame(node: Node, pos: nat)

  // Every frame is open in the search state. Those below the top have saved their position; the one
  // on top has handed out i successors.
  ghost predicate Resumed(g: Graph, s: State, work: seq<Frame>, i: nat)
    requires Framed(g, s)
  {
    && |work| == |s.path| > 0
    && (forall p :: 0 <= p < |work| ==> work[p].node == s.path[p] && s.path[p] in s.index)
    && (forall p :: 0 <= p < |work| - 1 ==> work[p].pos == s.taken[s.path[p]] > 0)
    && s.taken[s.path[|work| - 1]] == i
  }

  // The frame on top waits to be numbered. Its parent has saved the position after it.
  ghost predicate Pending(g: Graph, s: State, work: seq<Frame>)
    requires Framed(g, s)
  {
    && work != []
    && work[|work| - 1].pos == 0
    && CanDiscover(g, s, work[|work| - 1].node)
    && |s.path| == |work| - 1
    && (|work| > 1 ==> work[|work| - 2].pos > 0 && Resumed(g, s, work[..|work| - 1], work[|work| - 2].pos - 1))
  }

  // The states in which the outer loop can find its work stack.
  ghost predicate AtLoopHead(g: Graph, s: State, work: seq<Frame>)
    requires Framed(g, s)
  {
    || (work == [] && s.path == [])
    || Pending(g, s, work)
    || (work != [] && work[|work| - 1].pos > 0 && Resumed(g, s, work, work[|work| - 1].pos))
  }

  lemma TopFrame(g: Graph, s: State, work: seq<Frame>, i: nat)
    requires Framed(g, s) && Resumed(g, s, work, i)
    ensures |s.path| == |work| && (|work| > 1 ==> s.path[|work| - 2] == work[|work| - 2].node)
    ensures Top(s) == work[|work| - 1].node && Top(s) in s.index && Top(s) in s.low
    ensures i <= |Succ(g, Top(s))| && (i == |Succ(g, Top(s))| ==> AllTaken(g, s))
    ensures i < |Succ(g, Top(s))| ==> CanTake(g, s) && Next(g, s) == Succ(g, Top(s))[i]
  {
    hide Increasing, Elems;
  }

  lemma NumberPending(g: Graph, s: State, work: seq<Frame>)
    requires Framed(g, s) && Pending(g, s, work) && Framed(g, Discover(g, s, work[|work| - 1].node))
    ensures Resumed(g, Discover(g, s, work[|work| - 1].node), work, 0)
  {
    hide Framed, Discover, Handed, CanDiscover, CanTake, Succ;
    var n, v := |work| - 1, work[|work| - 1].node;
    NotNumbered(g, s, v);
    NewOnPath(g, s, v);
    DiscoverFields(g, s, v);
    if n > 0 {
      TopFrame(g, s, work[..n], work[n - 1].pos - 1);
      HandedOne(g, s);
    }
    forall p | 0 <= p < n
      ensures work[p].node == s.path[p] && s.path[p] in s.index && s.path[p] != v
      ensures s.path[p] in Handed(g, s) && work[p].pos == Handed(g, s)[s.path[p]] > 0
    {
      assert work[..n][p] == work[p] && s.path[p] in s.path;
      PathNode(g, s, p);
    }
  }

  lemma NotNumbered(g: Graph, s: State, v: Node)
    requires Framed(g, s) && CanDiscover(g, s, v)
    ensures v !in s.index && (s.path != [] ==> CanTake(g, s))
  {
  }

  lemma LookOn(g: Graph, s: State, work: seq<Frame>, i: nat, v: Node)
    requires Framed(g, s) && Resumed(g, s, work, i) && CanTake(g, s) && v in s.index && Framed(g, Look(g, s, v))
    ensures Resumed(g, Look(g, s, v), work, i + 1)
  {
    hide Elems;
    TopFrame(g, s, work, i);
  }

  lemma PushChild(g: Graph, s: State, work: seq<Frame>, i: nat)
    requires Framed(g, s) && Resumed(g, s, work, i) && CanTake(g, s) && Next(g, s) !in s.index
    ensures Pending(g, s, work[..|work| - 1] + [Frame(work[|work| - 1].node, i + 1), Frame(Next(g, s), 0)])
  {
    hide Elems, Increasing, Next;
    var child := work[..|work| - 1] + [Frame(work[|work| - 1].node, i + 1), Frame(Next(g, s), 0)];
    assert child[..|child| - 1] == work[..|work| - 1] + [Frame(work[|work| - 1].node, i + 1)];
  }

  lemma PopFrame(g: Graph, s: State, work: seq<Frame>, i: nat, j: nat)
    requires Framed(g, s) && Resumed(g, s, work, i) && AllTaken(g, s) && Top(s) in s.index && j <= |s.stack|
    requires Framed(g, Finish(g, s, j))
    ensures AtLoopHead(g, Finish(g, s, j), work[..|work| - 1])
  {
    hide Elems, Increasing, Framed, Finish;
    var r := Finish(g, s, j);
    assert forall p :: 0 <= p < |r.path| ==> r.path[p] == s.path[p];
  }

  lemma FirstFrame(g: Graph, s: State, v: Node)
    requires Framed(g, s) && s.path == [] && v !in s.index
    ensures AtLoopHead(g, s, [Frame(v, 0)])
  {
  }

  // What the top of the work stack can be, and that an empty one leaves nothing open.
  lemma HeadCases(g: Graph, s: State, work: seq<Frame>)
    requires Framed(g, s) && AtLoopHead(g, s, work)
    ensures work == [] ==> s.path == []
    ensures work != [] && work[|work| - 1].pos == 0 ==>
              && Pending(g, s, work) && CanDiscover(g, s, work[|work| - 1].node)
              && work[|work| - 1].node !in s.index && (s.path == [] ==> |work| == 1)
    ensures work != [] && work[|work| - 1].pos > 0 ==> Resumed(g, s, work, work[|work| - 1].pos)
  {
    hide Resumed;
  }

  lemma PendingIsHead(g: Graph, s: State, work: seq<Frame>)
    requires Framed(g, s) && Pending(g, s, work)
    ensures AtLoopHead(g, s, work)
  {
  }

  // The loop over the successors still to be looked at: stop at the first one that has no number.
  method ScanSuccessors(graph: Graph, work0: seq<Frame>, index: map<Node, nat>, low0: map<Node, nat>, on: set<Node>,
                        ghost nodes: seq<Node>, ghost s0: State)
    returns (work: seq<Frame>, low: map<Node, nat>, recurse: bool, ghost s: State)
    requires Running(graph, nodes, s0) && work0 != [] && Resumed(graph, s0, work0, work0[|work0| - 1].pos)
    requires s0.index == index && s0.low == low0 && s0.onStack == on
    ensures Running(graph, nodes, s) && s == s0.(low := low, taken := s.taken)
    ensures recurse ==> Pending(graph, s, work) && |work| == |work0| + 1 && work[|work| - 1].pos == 0
    ensures recurse ==> work[0].node == work0[0].node
    ensures !recurse ==> work == work0 && Resumed(graph, s, work, |Succ(graph, work0[|work0| - 1].node)|)
  {
    hide Running, Framed, Resumed, CanTake, AllTaken, Next, Handed, Pending;
    work, low, recurse, s := work0, low0, false, s0;
    var Frame(node, pi) := work[|work| - 1];
    var succs := Succ(graph, node);
    var i := pi;
    TopFrame(graph, s, work, i);
    while i < |succs|
      invariant Running(graph, nodes, s) && s == s0.(low := low, taken := s.taken)
      invariant pi <= i <= |succs| && Resumed(graph, s, work, i)
    {
      var w := succs[i];
      TopFrame(graph, s, work, i);
      if w !in index {
        PushChild(graph, s, work, i);
        work := work[..|work| - 1] + [Frame(node, i + 1), Frame(w, 0)];
        recurse := true;
        break;
      } else if w in on {
        low := low[node := Min(low[node], index[w])];
      }
      RunLook(graph, nodes, s, w);
      LookOn(graph, s, work, i, w);
      s := Look(graph, s, w);
      i := i + 1;
    }
  }

  // The node on top gets its number unless it has one.
  method NumberTop(graph: Graph, work: seq<Frame>, index0: map<Node, nat>, low0: map<Node, nat>, on0: set<Node>,
                   stack0: seq<Node>, counter0: nat, ghost nodes: seq<Node>, ghost s0: State)
    returns (index: map<Node, nat>, low: map<Node, nat>, on: set<Node>, stack: seq<Node>, counter: nat, ghost s: State)
    requires Running(graph, nodes, s0) && work != [] && AtLoopHead(graph, s0, work)
    requires work[|work| - 1].pos == 0 && s0.path == [] ==> work[|work| - 1].node in nodes
    requires s0 == State(index0, low0, on0, stack0, s0.comps, counter0, s0.path, s0.taken)
    ensures Running(graph, nodes, s) && Resumed(graph, s, work, work[|work| - 1].pos)
    ensures s == State(index, low, on, stack, s0.comps, counter, s.path, s.taken)
    ensures var Frame(node, pi) := work[|work| - 1];
            if pi == 0 then index.Keys == index0.Keys + {node} && node in Universe(graph, nodes) - index0.Keys
            else index == index0
  {
    hide Running, Framed, Resumed, CanDiscover, CanTake, Next, Universe, Elems, Handed, AtLoopHead, Pending;
    index, low, on, stack, counter, s := index0, low0, on0, stack0, counter0, s0;
    HeadCases(graph, s, work);
    var Frame(node, pi) := work[|work| - 1];
    if pi == 0 {
      RunDiscover(graph, nodes, s, node);
      NumberPending(graph, s, work);
      index, low := index[node := counter], low[node := counter];
      counter := counter + 1;
      stack := stack + [node];
      on := on + {node};
      s := Discover(graph, s, node);
    }
  }

  // The node on top has no successor left: its component leaves the stack if it opened one, and its frame goes.
  method FinishTop(graph: Graph, work0: seq<Frame>, index: map<Node, nat>, low0: map<Node, nat>, on0: set<Node>,
                   stack0: seq<Node>, out0: seq<seq<Node>>, ghost nodes: seq<Node>, ghost s0: State)
    returns (work: seq<Frame>, low: map<Node, nat>, on: set<Node>, stack: seq<Node>, out: seq<seq<Node>>, ghost s: State)
    requires Running(graph, nodes, s0) && work0 != [] && Resumed(graph, s0, work0, |Succ(graph, work0[|work0| - 1].node)|)
    requires s0 == State(index, low0, on0, stack0, out0, s0.counter, s0.path, s0.taken)
    ensures Running(graph, nodes, s) && AtLoopHead(graph, s, work) && work == work0[..|work0| - 1]
    ensures s == State(index, low, on, stack, out, s0.counter, s.path, s.taken)
  {
    hide Running, Framed, Resumed, Finish, AllTaken, CanTake, Next, Universe, Elems, AtLoopHead, Pending;
    work, low, on, stack, out, s := work0, low0, on0, stack0, out0, s0;
    var node := work[|work| - 1].node;
    TopFrame(graph, s, work, |Succ(graph, node)|);
    ghost var j := TopPlace(graph, nodes, s);
    RunFinish(graph, nodes, s, j);
    PopFrame(graph, s, work, |Succ(graph, node)|, j);
    FinishFields(graph, s, j);
    s := Finish(graph, s, j);
    if low[node] == index[node] {
      var comp;
      comp, stack, on := PopComponent(stack, on, node, j);
      out := out + [comp];
    }
    work := work[..|work| - 1];
    if work != [] {
      var parent := work[|work| - 1].node;
      low := low[parent := Min(low[parent], low[node])];
    }
  }

  method FindComponents(graph: Graph, nodes: seq<Node>) returns (out: seq<seq<Node>>)
    ensures IsComponentListing(graph, nodes, out)
  {
    hide Running, Framed, Resumed, CanTake, Universe, Elems, AtLoopHead, Pending, IsComponentListing;
    var index: map<Node, nat>, low: map<Node, nat>, on: set<Node>, stack: seq<Node> := map[], map[], {}, [];
    var counter: nat := 0;
    out := [];
    ghost var s := Initial();
    RunInitial(graph, nodes);
    for n := 0 to |nodes|
      invariant Running(graph, nodes, s) && s.path == []
      invariant forall k :: 0 <= k < n ==> nodes[k] in index
      invariant s == State(index, low, on, stack, out, counter, s.path, s.taken)
    {
      if nodes[n] in index {
        continue;
      }
      var work := [Frame(nodes[n], 0)];
      FirstFrame(graph, s, nodes[n]);
      while work != []
        invariant Running(graph, nodes, s) && AtLoopHead(graph, s, work)
        invariant forall k :: 0 <= k < n ==> nodes[k] in index
        invariant nodes[n] in index || work == [Frame(nodes[n], 0)]
        invariant work != [] ==> work[0].node == nodes[n]
        invariant s == State(index, low, on, stack, out, counter, s.path, s.taken)
        decreases Universe(graph, nodes) - index.Keys, if work != [] && work[|work| - 1].pos == 0 then 0 else 1 + |work|
      {
        HeadCases(graph, s, work);
        ghost var Frame(node, pi) := work[|work| - 1];
        ghost var unnumbered := Universe(graph, nodes) - index.Keys;
        index, low, on, stack, counter, s := NumberTop(graph, work, index, low, on, stack, counter, nodes, s);
        assert pi == 0 ==> Universe(graph, nodes) - index.Keys == unnumbered - {node};
        var recurse;
        work, low, recurse, s := ScanSuccessors(graph, work, index, low, on, nodes, s);
        if recurse {
          PendingIsHead(graph, s, work);
          continue;
        }
        work, low, on, stack, out, s := FinishTop(graph, work, index, low, on, stack, out, nodes, s);
      }
      HeadCases(graph, s, []);
    }
    assert forall r :: r in nodes ==> r in s.index;
    RunFinished(graph, nodes, s);
  }
}
