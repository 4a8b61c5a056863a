/** strongly_connected of tools/code_health.py: Tarjan's algorithm over a stack of live iterators. */
module StronglyConnected {
  import opened Lists
  import opened Reachability
  import opened Tarjan

  // A node and what its successor iterator has not produced yet.
  datatype Iter = Iter(node: Node, rest: seq<Node>)

  // An iterator that has handed out the first so many successors.
  ghost predicate At(g: Graph, it: Iter, node: Node, taken: map<Node, nat>)
  {
    it.node == node && node in taken && taken[node] <= |Succ(g, node)| && it.rest == Succ(g, node)[taken[node]..]
  }

  // The iterators on the work stack are where the search state says they are.
  ghost predicate Iterating(g: Graph, path: seq<Node>, taken: map<Node, nat>, work: seq<Iter>)
  {
    |work| == |path| && forall p :: 0 <= p < |work| ==> At(g, work[p], path[p], taken)
  }

  // The iterator on top produces its next successor.
  function Advance(work: seq<Iter>): seq<Iter>
  {
    if work == [] || work[|work| - 1].rest == [] then work
    else work[..|work| - 1] + [Iter(work[|work| - 1].node, work[|work| - 1].rest[1..])]
  }

  ghost predicate TopOnce(path: seq<Node>)
  {
    forall p :: 0 <= p < |path| - 1 ==> path[p] != path[|path| - 1]
  }

  lemma AdvanceOne(g: Graph, path: seq<Node>, taken: map<Node, nat>, work: seq<Iter>)
    requires Iterating(g, path, taken, work) && work != [] && work[|work| - 1].rest != [] && TopOnce(path)
    ensures var u := path[|path| - 1]; u in taken && Iterating(g, path, taken[u := taken[u] + 1], Advance(work))
  {
    hide Succ;
    var u, n, next := path[|path| - 1], |work| - 1, Advance(work);
    assert At(g, work[n], u, taken);
    var taken' := taken[u := taken[u] + 1];
    forall p | 0 <= p < |next|
      ensures At(g, next[p], path[p], taken')
    {
      assert At(g, work[p], path[p], taken);
    }
  }

  lemma IterateMore(g: Graph, path: seq<Node>, taken: map<Node, nat>, work: seq<Iter>, v: Node)
    requires Iterating(g, path, taken, work) && v !in path
    ensures Iterating(g, path + [v], taken[v := 0], work + [Iter(v, Succ(g, v))])
  {
    hide Succ;
    var more, path' := work + [Iter(v, Succ(g, v))], path + [v];
    forall p | 0 <= p < |more|
      ensures At(g, more[p], path'[p], taken[v := 0])
    {
      if p < |work| {
        assert At(g, work[p], path[p], taken) && path[p] in path;
      }
    }
  }

  lemma IterateLess(g: Graph, path: seq<Node>, taken: map<Node, nat>, work: seq<Iter>)
    requires Iterating(g, path, taken, work) && work != []
    ensures Iterating(g, path[..|path| - 1], taken, work[..|work| - 1])
  {
    hide At;
  }

  // What the iterator on top says about the search.
  lemma TopIterator(g: Graph, s: State, work: seq<Iter>)
    requires Framed(g, s) && Iterating(g, s.path, s.taken, work) && work != []
    ensures |s.path| == |work| && TopOnce(s.path) && (|work| > 1 ==> s.path[|work| - 2] == work[|work| - 2].node)
    ensures Top(s) == work[|work| - 1].node && Top(s) in s.index && Top(s) in s.low
    ensures work[|work| - 1].rest == [] ==> AllTaken(g, s)
    ensures work[|work| - 1].rest != [] ==> CanTake(g, s) && Next(g, s) == work[|work| - 1].rest[0]
  {
    hide Elems, Succ;
    var n := |work| - 1;
    assert At(g, work[n], s.path[n], s.taken) && (n > 0 ==> At(g, work[n - 1], s.path[n - 1], s.taken));
  }

  // The next successors of the node on top: until one has no number yet, which is then numbered.
  method AdvanceTop(succ: Graph, work0: seq<Iter>, index0: map<Node, nat>, low0: map<Node, nat>, onStack0: set<Node>,
                    stack0: seq<Node>, counter0: nat, ghost nodes: seq<Node>, ghost s0: State)
    returns (work: seq<Iter>, index: map<Node, nat>, low: map<Node, nat>, onStack: set<Node>, stack: seq<Node>,
             counter: nat, advanced: bool, ghost s: State)
    requires Running(succ, nodes, s0) && work0 != [] && Iterating(succ, s0.path, s0.taken, work0)
    requires s0 == State(index0, low0, onStack0, stack0, s0.comps, counter0, s0.path, s0.taken)
    ensures Running(succ, nodes, s) && work != [] && Iterating(succ, s.path, s.taken, work)
    ensures s == State(index, low, onStack, stack, s0.comps, counter, s.path, s.taken)
    ensures advanced ==> index0.Keys < index.Keys <= Universe(succ, nodes)
    ensures !advanced ==> index == index0 && |work| == |work0| && work[|work| - 1].rest == []
  {
    hide Running, Framed, Iterating, AllTaken, CanTake, Next, Universe, Succ, TopOnce, Look, Discover, Handed;
    work, index, low, onStack, stack, counter, s := work0, index0, low0, onStack0, stack0, counter0, s0;
    var node := work[|work| - 1].node;
    advanced := false;
    while !advanced && work[|work| - 1].rest != []
      invariant Running(succ, nodes, s) && work != [] && Iterating(succ, s.path, s.taken, work)
      invariant s == State(index, low, onStack, stack, s0.comps, counter, s.path, s.taken)
      invariant advanced ==> index0.Keys < index.Keys <= Universe(succ, nodes)
      invariant !advanced ==> index == index0 && |work| == |work0| && work[|work| - 1].node == node
      decreases !advanced, |work[|work| - 1].rest|
    {
      var nxt := work[|work| - 1].rest[0];
      TopIterator(succ, s, work);
      AdvanceOne(succ, s.path, s.taken, work);
      work := Advance(work);
      HandedOne(succ, s);
      if nxt !in index {
        NewOnPath(succ, s, nxt);
        IterateMore(succ, s.path, Handed(succ, s), work, nxt);
        RunDiscover(succ, nodes, s, nxt);
        DiscoverFields(succ, s, nxt);
        index, low := index[nxt := counter], low[nxt := counter];
        counter := counter + 1;
        stack := stack + [nxt];
        onStack := onStack + {nxt};
        work := work + [Iter(nxt, Succ(succ, nxt))];
        s := Discover(succ, s, nxt);
        RunBound(succ, nodes, s);
        advanced := true;
      } else {
        RunLook(succ, nodes, s, nxt);
        LookFields(succ, s, nxt);
        if nxt in onStack {
          low := low[node := Min(low[node], index[nxt])];
        }
        s := Look(succ, s, nxt);
      }
    }
  }

  // The node on top has no successor left: its frame goes, and its component leaves the stack if it opened one.
  method FinishTop(succ: Graph, work0: seq<Iter>, index: map<Node, nat>, low0: map<Node, nat>, onStack0: set<Node>,
                   stack0: seq<Node>, comps0: seq<seq<Node>>, ghost nodes: seq<Node>, ghost s0: State)
    returns (work: seq<Iter>, low: map<Node, nat>, onStack: set<Node>, stack: seq<Node>, comps: seq<seq<Node>>, ghost s: State)
    requires Running(succ, nodes, s0) && Iterating(succ, s0.path, s0.taken, work0) && work0 != [] && work0[|work0| - 1].rest == []
    requires s0 == State(index, low0, onStack0, stack0, comps0, s0.counter, s0.path, s0.taken)
    ensures Running(succ, nodes, s) && Iterating(succ, s.path, s.taken, work) && |work| < |work0|
    ensures s == State(index, low, onStack, stack, comps, s0.counter, s.path, s.taken)
  {
    hide Running, Framed, Iterating, AllTaken, CanTake, Next, Universe, Elems, Succ, Finish, TopOnce;
    work, low, onStack, stack, comps, s := work0, low0, onStack0, stack0, comps0, s0;
    var node := work[|work| - 1].node;
    TopIterator(succ, s, work);
    ghost var j := TopPlace(succ, nodes, s);
    RunFinish(succ, nodes, s, j);
    IterateLess(succ, s.path, s.taken, work);
    FinishFields(succ, s, j);
    s := Finish(succ, s, j);
    work := work[..|work| - 1];
    if work != [] {
      var parent := work[|work| - 1].node;
      low := low[parent := Min(low[parent], low[node])];
    }
    if low[node] == index[node] {
      var comp;
      comp, stack, onStack := PopComponent(stack, onStack, node, j);
      comps := comps + [comp];
    }
  }

  method StronglyConnected(nodes: seq<Node>, succ: Graph) returns (comps: seq<seq<Node>>)
    ensures IsComponentListing(succ, nodes, comps)
  {
    hide Running, Framed, Iterating, IsComponentListing, Universe, Succ, CanDiscover, Discover;
    var index: map<Node, nat>, low: map<Node, nat>, onStack: set<Node>, stack: seq<Node> := map[], map[], {}, [];
    var counter: nat := 0;
    comps := [];
    ghost var s := Initial();
    RunInitial(succ, nodes);
    for i := 0 to |nodes|
      invariant Running(succ, nodes, s) && s.path == []
      invariant forall k :: 0 <= k < i ==> nodes[k] in index
      invariant s == State(index, low, onStack, stack, comps, counter, s.path, s.taken)
    {
      var root := nodes[i];
      if root in index {
        continue;
      }
      var work := [Iter(root, Succ(succ, root))];
      StartRoot(succ, s, root);
      RunDiscover(succ, nodes, s, root);
      DiscoverFields(succ, s, root);
      index, low := index[root := counter], low[root := counter];
      counter := counter + 1;
      stack := stack + [root];
      onStack := onStack + {root};
      s := Discover(succ, s, root);
      while work != []
        invariant Running(succ, nodes, s) && Iterating(succ, s.path, s.taken, work)
        invariant forall k :: 0 <= k <= i ==> nodes[k] in index
        invariant s == State(index, low, onStack, stack, comps, counter, s.path, s.taken)
        decreases Universe(succ, nodes) - index.Keys, |work|
      {
        ghost var before := index.Keys;
        var advanced;
        work, index, low, onStack, stack, counter, advanced, s :=
          AdvanceTop(succ, work, index, low, onStack, stack, counter, nodes, s);
        assert before <= index.Keys;
        if !advanced {
          work, low, onStack, stack, comps, s := FinishTop(succ, work, index, low, onStack, stack, comps, nodes, s);
        }
      }
      NoIterators(succ, s.path, s.taken);
    }
    assert forall r :: r in nodes ==> r in s.index;
    RunFinished(succ, nodes, s);
  }

  lemma StartRoot(g: Graph, s: State, v: Node)
    requires Framed(g, s) && s.path == [] && v !in s.index
    ensures CanDiscover(g, s, v) && Iterating(g, s.path + [v], Handed(g, s)[v := 0], [Iter(v, Succ(g, v))])
  {
    hide Elems, Increasing;
  }

  lemma NoIterators(g: Graph, path: seq<Node>, taken: map<Node, nat>)
    ensures Iterating(g, path, taken, []) ==> path == []
  {
  }
}
