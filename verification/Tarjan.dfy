/** The depth-first state shared by the two iterative Tarjan implementations, the invariant that
    every step of either one keeps, and what the invariant says once the search is over. */
module Tarjan {
  import opened Lists
  import opened Reachability

  // Successor lists, in the order the dictionary's values are iterated.
  type Graph = map<Node, seq<Node>>

  function Succ(g: Graph, u: Node): seq<Node>
  {
    if u in g then g[u] else []
  }

  ghost function Arcs(g: Graph): (r: set<(Node, Node)>)
    ensures forall u, v :: (u, v) in r <==> v in Succ(g, u)
  {
    set u, v | u in g && v in g[u] :: (u, v)
  }

  ghost function Members(comps: seq<seq<Node>>): set<Node>
  {
    set c, u | c in comps && u in c :: u
  }

  // -------------------------------------------------------------------------
  // What a strongly-connected-component listing promises
  // -------------------------------------------------------------------------

  // c is one whole mutual-reachability class, listed without repetition.
  ghost predicate IsClass(g: Graph, c: seq<Node>)
  {
    c != [] && Distinct(c) && forall u, v :: u in c ==> (v in c <==> Mutual(Arcs(g), u, v))
  }

  // Every arc out of a component lands in the same component or in an earlier one.
  ghost predicate ReverseTopological(g: Graph, comps: seq<seq<Node>>)
  {
    forall i, u, v :: 0 <= i < |comps| && u in comps[i] && v in Succ(g, u) ==> v in Members(comps[..i + 1])
  }

  ghost predicate Disjoint(comps: seq<seq<Node>>)
  {
    forall i, j, u :: 0 <= i < j < |comps| && u in comps[i] ==> u !in comps[j]
  }

  ghost predicate ClassesListed(g: Graph, comps: seq<seq<Node>>)
  {
    && (forall i :: 0 <= i < |comps| ==> IsClass(g, comps[i]))
    && Disjoint(comps)
    && ReverseTopological(g, comps)
  }

  ghost predicate ReachableFrom(g: Graph, roots: seq<Node>, u: Node)
  {
    exists r :: r in roots && Reaches(Arcs(g), r, u)
  }

  ghost predicate IsComponentListing(g: Graph, roots: seq<Node>, comps: seq<seq<Node>>)
  {
    && ClassesListed(g, comps)
    && (forall u :: u in Members(comps) <==> ReachableFrom(g, roots, u))
  }

  // -------------------------------------------------------------------------
  // The search state
  // -------------------------------------------------------------------------

  // `path` holds the nodes on the work stack; `taken` says how many successors of a numbered node its
  // iterator has handed out.
  datatype State = State(
    index: map<Node, nat>,
    low: map<Node, nat>,
    onStack: set<Node>,
    stack: seq<Node>,
    comps: seq<seq<Node>>,
    counter: nat,
    path: seq<Node>,
    taken: map<Node, nat>)

  // xs lists numbered nodes in the order they were numbered.
  ghost predicate Increasing(index: map<Node, nat>, xs: seq<Node>)
  {
    && (forall i :: 0 <= i < |xs| ==> xs[i] in index)
    && (forall i, j :: 0 <= i < j < |xs| ==> index[xs[i]] < index[xs[j]])
  }

  // A numbered node is on the node stack or in a component, never both.
  ghost predicate Placed(s: State)
  {
    && s.onStack == Elems(s.stack)
    && s.index.Keys == s.onStack + Members(s.comps)
    && s.onStack !! Members(s.comps)
  }

  // Numbering, iterators and the work stack agree with each other.
  ghost predicate Framed(g: Graph, s: State)
  {
    && s.low.Keys == s.index.Keys == s.taken.Keys
    && Elems(s.path) <= s.onStack <= s.index.Keys
    && (forall u :: u in s.index ==> s.index[u] < s.counter && s.taken[u] <= |Succ(g, u)|)
    && Increasing(s.index, s.stack)
    && Increasing(s.index, s.path)
  }

  // Successors handed out are numbered, and a node off the work stack has handed out all of them.
  ghost predicate Explored(g: Graph, s: State)
    requires Framed(g, s)
  {
    && (forall u :: u in s.index && u !in s.path ==> s.taken[u] == |Succ(g, u)|)
    && (forall u, k :: u in s.index && 0 <= k < s.taken[u] ==> Succ(g, u)[k] in s.index)
  }

  // On the node stack, earlier nodes reach later ones.
  ghost predicate ReachesUp(g: Graph, s: State)
    requires Framed(g, s)
  {
    forall u, v :: u in s.onStack && v in s.onStack && s.index[u] <= s.index[v] ==> Reaches(Arcs(g), u, v)
  }

  // x is open, and no later than u, which reaches it.
  ghost predicate GetsBack(g: Graph, s: State, u: Node, x: Node)
    requires Framed(g, s) && u in s.index
  {
    x in s.path && s.index[x] <= s.index[u] && Reaches(Arcs(g), u, x)
  }

  // Every stacked node gets back to an open node that is no later than itself.
  ghost predicate ReachesBack(g: Graph, s: State)
    requires Framed(g, s)
  {
    forall u :: u in s.onStack ==> exists x :: GetsBack(g, s, u, x)
  }

  // low[u] is the number of some stacked node that u reaches.
  ghost predicate LowReached(g: Graph, s: State, u: Node, b: Node)
    requires Framed(g, s) && u in s.index
  {
    b in s.onStack && s.index[b] == s.low[u] <= s.index[u] && Reaches(Arcs(g), u, b)
  }

  // u is stacked in the part of the node stack that path[p] opened.
  ghost predicate InSegment(g: Graph, s: State, p: nat, u: Node)
    requires Framed(g, s) && p < |s.path|
  {
    u in s.onStack && s.index[s.path[p]] <= s.index[u] && (p + 1 < |s.path| ==> s.index[u] < s.index[s.path[p + 1]])
  }

  // low bounds, from below, every arc handed out in the segment of path[p] that ends on the stack.
  ghost predicate LowBounds(g: Graph, s: State, p: nat)
    requires Framed(g, s) && p < |s.path|
  {
    forall u, k :: InSegment(g, s, p, u) && 0 <= k < s.taken[u] && Succ(g, u)[k] in s.onStack
      ==> s.low[s.path[p]] <= s.index[Succ(g, u)[k]]
  }

  ghost predicate Lows(g: Graph, s: State)
    requires Framed(g, s)
  {
    && (forall u :: u in s.path ==> exists b :: LowReached(g, s, u, b))
    && (forall p :: 0 <= p < |s.path| ==> LowBounds(g, s, p))
  }

  // The invariant of both searches.
  ghost predicate Inv(g: Graph, s: State)
  {
    && Placed(s)
    && Framed(g, s)
    && Explored(g, s)
    && ReachesUp(g, s)
    && ReachesBack(g, s)
    && Lows(g, s)
    && ClassesListed(g, s.comps)
  }

  // -------------------------------------------------------------------------
  // The steps
  // -------------------------------------------------------------------------

  function Initial(): State
  {
    State(map[], map[], {}, [], [], 0, [], map[])
  }

  ghost function Top(s: State): Node
    requires s.path != []
  {
    s.path[|s.path| - 1]
  }

  // The open node on top still has a successor to hand out.
  ghost predicate CanTake(g: Graph, s: State)
    requires Framed(g, s)
  {
    s.path != [] && s.taken[Top(s)] < |Succ(g, Top(s))|
  }

  ghost function Next(g: Graph, s: State): Node
    requires Framed(g, s) && CanTake(g, s)
  {
    Succ(g, Top(s))[s.taken[Top(s)]]
  }

  // v is about to be numbered: as a fresh root, or as the next successor of the node on top.
  ghost predicate CanDiscover(g: Graph, s: State, v: Node)
    requires Framed(g, s)
  {
    v !in s.index && (s.path != [] ==> CanTake(g, s) && v == Next(g, s))
  }

  // Hand out one successor of the node on top, if there is one.
  ghost function Handed(g: Graph, s: State): (r: map<Node, nat>)
    requires Framed(g, s) && (s.path != [] ==> CanTake(g, s))
    ensures r.Keys == s.taken.Keys && forall u :: u in r ==> r[u] <= |Succ(g, u)|
  {
    if s.path == [] then s.taken else s.taken[Top(s) := s.taken[Top(s)] + 1]
  }

  ghost function Discover(g: Graph, s: State, v: Node): State
    requires Framed(g, s) && CanDiscover(g, s, v)
  {
    State(s.index[v := s.counter], s.low[v := s.counter], s.onStack + {v}, s.stack + [v], s.comps, s.counter + 1,
          s.path + [v], Handed(g, s)[v := 0])
  }

  function Min(a: nat, b: nat): nat
  {
    if a <= b then a else b
  }

  // The node on top looks at a successor that is already numbered.
  ghost function Look(g: Graph, s: State, v: Node): State
    requires Framed(g, s) && CanTake(g, s) && v in s.index
  {
    var u := Top(s);
    s.(taken := Handed(g, s), low := if v in s.onStack then s.low[u := Min(s.low[u], s.index[v])] else s.low)
  }

  ghost predicate AllTaken(g: Graph, s: State)
    requires Framed(g, s)
  {
    s.path != [] && s.taken[Top(s)] == |Succ(g, Top(s))|
  }

  // The node on top is finished: it leaves the work stack and hands its low to its parent.
  ghost function Retreat(g: Graph, s: State): (r: State)
    requires Framed(g, s) && s.path != []
    ensures r.path == s.path[..|s.path| - 1] && r.index == s.index && r.taken == s.taken && r.onStack == s.onStack
  {
    var rest := s.path[..|s.path| - 1];
    if rest == [] then s.(path := rest)
    else
      var parent := rest[|rest| - 1];
      s.(path := rest, low := s.low[parent := Min(s.low[parent], s.low[Top(s)])])
  }

  // The stack from position j up leaves as one component, last pushed first.
  function Cut(s: State, j: nat): State
    requires j <= |s.stack|
  {
    s.(stack := s.stack[..j], onStack := s.onStack - (set u | u in s.stack[j..]),
       comps := s.comps + [Backwards(s.stack[j..])])
  }

  // -------------------------------------------------------------------------
  // Every step keeps the invariant
  // -------------------------------------------------------------------------

  lemma InitialInv(g: Graph)
    ensures Inv(g, Initial())
  {
  }

  lemma IncreasingPush(index: map<Node, nat>, xs: seq<Node>, v: Node, n: nat)
    requires Increasing(index, xs) && v !in index && forall u :: u in index ==> index[u] < n
    ensures Increasing(index[v := n], xs + [v])
  {
    var ys := xs + [v];
    forall i | 0 <= i < |xs|
      ensures ys[i] == xs[i] && xs[i] in index && index[xs[i]] < n && xs[i] != v
    {
      var u := xs[i];
      assert u in index;
    }
  }

  lemma ElemsPush(xs: seq<Node>, v: Node)
    ensures Elems(xs + [v]) == Elems(xs) + {v}
  {
  }

  lemma DiscoverFramed(g: Graph, s: State, v: Node)
    requires Placed(s) && Framed(g, s) && CanDiscover(g, s, v)
    ensures Placed(Discover(g, s, v)) && Framed(g, Discover(g, s, v))
  {
    hide Members, Increasing, Handed, Elems, Succ;
    var s' := Discover(g, s, v);
    ElemsPush(s.stack, v);
    ElemsPush(s.path, v);
    IncreasingPush(s.index, s.stack, v, s.counter);
    IncreasingPush(s.index, s.path, v, s.counter);
    assert s'.low.Keys == s'.index.Keys == s'.taken.Keys;
    assert s'.index.Keys == s'.onStack + Members(s'.comps);
  }

  lemma DiscoverExplored(g: Graph, s: State, v: Node)
    requires Framed(g, s) && CanDiscover(g, s, v) && Explored(g, s) && Framed(g, Discover(g, s, v))
    ensures Explored(g, Discover(g, s, v))
  {
    hide Increasing, Elems;
    var s' := Discover(g, s, v);
    assert s'.path[|s.path|] == v;
    forall u | u in s'.index && u !in s'.path
      ensures s'.taken[u] == |Succ(g, u)|
    {
      assert forall i :: 0 <= i < |s.path| ==> s'.path[i] == s.path[i];
      assert u in s.index && u !in s.path;
    }
  }

  lemma DiscoverReaches(g: Graph, s: State, v: Node)
    requires Framed(g, s) && CanDiscover(g, s, v) && ReachesUp(g, s) && ReachesBack(g, s)
    requires Framed(g, Discover(g, s, v))
    ensures ReachesUp(g, Discover(g, s, v)) && ReachesBack(g, Discover(g, s, v))
  {
    hide Reaches, Arcs, Handed, Elems;
    var s' := Discover(g, s, v);
    ReachesSelf(Arcs(g), v);
    assert s'.path[|s.path|] == v;
    assert GetsBack(g, s', v, v);
    forall u | u in s.onStack
      ensures Reaches(Arcs(g), u, v) && exists x :: GetsBack(g, s', u, x)
    {
      var x :| GetsBack(g, s, u, x);
      var p :| 0 <= p < |s.path| && s.path[p] == x;
      assert s'.path[p] == x;
      assert GetsBack(g, s', u, x);
      TopIsLast(g, s, x);
      ReachesArc(Arcs(g), Top(s), v);
      ReachesTrans(Arcs(g), x, Top(s), v);
      ReachesTrans(Arcs(g), u, x, v);
    }
  }

  lemma TopIsLast(g: Graph, s: State, x: Node)
    requires Framed(g, s) && x in s.path
    ensures Top(s) in s.onStack && x in s.onStack && s.index[x] <= s.index[Top(s)]
  {
    assert Top(s) in Elems(s.path) && x in Elems(s.path);
  }

  lemma DiscoverLows(g: Graph, s: State, v: Node)
    requires Framed(g, s) && CanDiscover(g, s, v) && Lows(g, s) && Framed(g, Discover(g, s, v))
    ensures Lows(g, Discover(g, s, v))
  {
    hide Reaches, Arcs, Elems;
    var s' := Discover(g, s, v);
    ReachesSelf(Arcs(g), v);
    assert LowReached(g, s', v, v);
    forall u | u in s.path
      ensures exists b :: LowReached(g, s', u, b)
    {
      var b :| LowReached(g, s, u, b);
      assert LowReached(g, s', u, b);
    }
    forall p | 0 <= p < |s.path|
      ensures LowBounds(g, s', p)
    {
      DiscoverLowBounds(g, s, v, p);
    }
  }

  lemma DiscoverLowBounds(g: Graph, s: State, v: Node, p: nat)
    requires Framed(g, s) && CanDiscover(g, s, v) && Lows(g, s) && Framed(g, Discover(g, s, v)) && p < |s.path|
    ensures LowBounds(g, Discover(g, s, v), p)
  {
    hide Reaches, Arcs, Elems;
    var s' := Discover(g, s, v);
    var x := s.path[p];
    assert s'.path[p] == x && (p + 1 == |s.path| ==> s'.path[p + 1] == v);
    assert x in s.path && LowBounds(g, s, p);
    var b :| LowReached(g, s, x, b);
    forall u, k | InSegment(g, s', p, u) && 0 <= k < s'.taken[u] && Succ(g, u)[k] in s'.onStack
      ensures s'.low[x] <= s'.index[Succ(g, u)[k]]
    {
      assert InSegment(g, s, p, u);
    }
  }

  lemma DiscoverKeeps(g: Graph, s: State, v: Node)
    requires Inv(g, s) && CanDiscover(g, s, v)
    ensures Inv(g, Discover(g, s, v))
  {
    hide Placed, Framed, Explored, ReachesUp, ReachesBack, Lows, ClassesListed;
    DiscoverFramed(g, s, v);
    DiscoverExplored(g, s, v);
    DiscoverReaches(g, s, v);
    DiscoverLows(g, s, v);
  }

  lemma LookFramed(g: Graph, s: State, v: Node)
    requires Placed(s) && Framed(g, s) && CanTake(g, s) && v == Next(g, s) && v in s.index && Explored(g, s)
    ensures Placed(Look(g, s, v)) && Framed(g, Look(g, s, v)) && Explored(g, Look(g, s, v))
  {
    hide Increasing, Elems, Members;
    assert s.path[|s.path| - 1] in s.path;
  }

  lemma LookReaches(g: Graph, s: State, v: Node)
    requires Framed(g, s) && CanTake(g, s) && v in s.index && ReachesUp(g, s) && ReachesBack(g, s)
    requires Framed(g, Look(g, s, v))
    ensures ReachesUp(g, Look(g, s, v)) && ReachesBack(g, Look(g, s, v))
  {
    hide Reaches, Arcs, Handed, Elems, Increasing;
    var s' := Look(g, s, v);
    forall u | u in s.onStack
      ensures exists x :: GetsBack(g, s', u, x)
    {
      var x :| GetsBack(g, s, u, x);
      assert GetsBack(g, s', u, x);
    }
  }

  lemma LookLows(g: Graph, s: State, v: Node)
    requires Framed(g, s) && CanTake(g, s) && v == Next(g, s) && v in s.index && Lows(g, s)
    requires Framed(g, Look(g, s, v))
    ensures Lows(g, Look(g, s, v))
  {
    hide Reaches, Arcs, Elems;
    var s' := Look(g, s, v);
    ReachesArc(Arcs(g), Top(s), v);
    forall u | u in s.path
      ensures exists b :: LowReached(g, s', u, b)
    {
      var b :| LowReached(g, s, u, b);
      assert LowReached(g, s', u, b) || LowReached(g, s', u, v);
    }
    forall p | 0 <= p < |s.path|
      ensures LowBounds(g, s', p)
    {
      LookLowBounds(g, s, v, p);
    }
  }

  lemma LookLowBounds(g: Graph, s: State, v: Node, p: nat)
    requires Framed(g, s) && CanTake(g, s) && v == Next(g, s) && v in s.index && Lows(g, s)
    requires Framed(g, Look(g, s, v)) && p < |s.path|
    ensures LowBounds(g, Look(g, s, v), p)
  {
    hide Reaches, Arcs, Elems;
    var s' := Look(g, s, v);
    var x := s.path[p];
    assert LowBounds(g, s, p);
    TopIsLast(g, s, x);
    forall u, k | InSegment(g, s', p, u) && 0 <= k < s'.taken[u] && Succ(g, u)[k] in s'.onStack
      ensures s'.low[x] <= s'.index[Succ(g, u)[k]]
    {
      assert InSegment(g, s, p, u);
    }
  }

  lemma LookKeeps(g: Graph, s: State, v: Node)
    requires Inv(g, s) && CanTake(g, s) && v == Next(g, s) && v in s.index
    ensures Inv(g, Look(g, s, v))
  {
    hide Placed, Framed, Explored, ReachesUp, ReachesBack, Lows, ClassesListed;
    LookFramed(g, s, v);
    LookReaches(g, s, v);
    LookLows(g, s, v);
  }

  lemma IncreasingPrefix(index: map<Node, nat>, xs: seq<Node>, n: nat)
    requires Increasing(index, xs) && n <= |xs|
    ensures Increasing(index, xs[..n])
    ensures forall x :: x in xs[..n] ==> x in xs && (n < |xs| ==> x in index && index[x] < index[xs[n]])
    ensures forall x :: x in xs[n..] ==> x in xs && x in index && index[xs[n]] <= index[x]
  {
    var ys := xs[..n];
    assert forall i :: 0 <= i < n ==> ys[i] == xs[i];
  }

  lemma RetreatPath(g: Graph, s: State)
    requires Framed(g, s) && s.path != []
    ensures forall x :: x in Retreat(g, s).path <==> x in s.path && x != Top(s)
    ensures forall x :: x in Retreat(g, s).path ==> x in s.index && s.index[x] < s.index[Top(s)]
    ensures Increasing(s.index, Retreat(g, s).path) && Elems(Retreat(g, s).path) <= Elems(s.path)
  {
    hide Increasing;
    var n := |s.path| - 1;
    IncreasingPrefix(s.index, s.path, n);
    assert s.path == s.path[..n] + [Top(s)];
  }

  lemma RetreatFramed(g: Graph, s: State)
    requires Framed(g, s) && AllTaken(g, s)
    ensures Framed(g, Retreat(g, s))
  {
    hide Increasing, Elems, Succ;
    RetreatPath(g, s);
  }

  lemma RetreatExplored(g: Graph, s: State)
    requires Framed(g, s) && Explored(g, s) && AllTaken(g, s) && Framed(g, Retreat(g, s))
    ensures Explored(g, Retreat(g, s))
  {
    hide Increasing, Elems;
    RetreatPath(g, s);
  }

  // A finished node whose low is smaller stays stacked: it gets back beyond itself ...
  lemma TopGetsBack(g: Graph, s: State) returns (y: Node)
    requires Framed(g, s) && AllTaken(g, s) && ReachesBack(g, s) && Lows(g, s)
    requires Top(s) in s.index && s.low[Top(s)] < s.index[Top(s)]
    ensures y != Top(s) && GetsBack(g, s, Top(s), y)
  {
    hide Reaches, Arcs, Elems, Increasing, LowBounds;
    var t := Top(s);
    assert t in s.path;
    var b :| LowReached(g, s, t, b);
    y :| GetsBack(g, s, b, y);
    ReachesTrans(Arcs(g), t, b, y);
  }

  // ... and so does everything that got back to it.
  lemma RetreatReachesBack(g: Graph, s: State)
    requires Framed(g, s) && AllTaken(g, s) && ReachesBack(g, s) && Lows(g, s)
    requires Top(s) in s.index && s.low[Top(s)] < s.index[Top(s)] && Framed(g, Retreat(g, s))
    requires forall x :: x in Retreat(g, s).path <==> x in s.path && x != Top(s)
    ensures ReachesBack(g, Retreat(g, s))
  {
    var y := TopGetsBack(g, s);
    hide Reaches, Arcs, Framed, Lows, Retreat;
    var s' := Retreat(g, s);
    forall u | u in s.onStack
      ensures exists x :: GetsBack(g, s', u, x)
    {
      var x :| GetsBack(g, s, u, x);
      if x == Top(s) {
        ReachesTrans(Arcs(g), u, x, y);
        assert GetsBack(g, s', u, y);
      } else {
        assert GetsBack(g, s', u, x);
      }
    }
  }

  lemma RetreatLowReached(g: Graph, s: State, u: Node)
    requires Framed(g, s) && AllTaken(g, s) && ReachesUp(g, s) && Lows(g, s) && Framed(g, Retreat(g, s))
    requires u in Retreat(g, s).path && u in s.path && s.index[u] < s.index[Top(s)]
    ensures exists b :: LowReached(g, Retreat(g, s), u, b)
  {
    hide Reaches, Arcs, Increasing, LowBounds;
    var s' := Retreat(g, s);
    var t := Top(s);
    assert t in Elems(s.path) && u in Elems(s.path);
    var b :| LowReached(g, s, u, b);
    var c :| LowReached(g, s, t, c);
    ReachesTrans(Arcs(g), u, t, c);
    assert LowReached(g, s', u, b) || LowReached(g, s', u, c);
  }

  lemma RetreatLowBounds(g: Graph, s: State, p: nat)
    requires Framed(g, s) && AllTaken(g, s) && Lows(g, s) && Framed(g, Retreat(g, s)) && p < |s.path| - 1
    ensures LowBounds(g, Retreat(g, s), p)
  {
    hide Reaches, Arcs, Elems;
    var s' := Retreat(g, s);
    var top := |s.path| - 1;
    assert LowBounds(g, s, p) && LowBounds(g, s, top);
    assert s'.path[p] == s.path[p];
    assert p < top - 1 ==> s.path[p] != s.path[top - 1] && s'.path[p + 1] == s.path[p + 1];
    forall u, k | InSegment(g, s', p, u) && 0 <= k < s'.taken[u] && Succ(g, u)[k] in s'.onStack
      ensures s'.low[s'.path[p]] <= s'.index[Succ(g, u)[k]]
    {
      assert InSegment(g, s, p, u) || (p == top - 1 && InSegment(g, s, top, u));
    }
  }

  lemma RetreatLows(g: Graph, s: State)
    requires Framed(g, s) && AllTaken(g, s) && ReachesUp(g, s) && Lows(g, s) && Framed(g, Retreat(g, s))
    requires forall x :: x in Retreat(g, s).path ==> x in s.path && x in s.index && s.index[x] < s.index[Top(s)]
    ensures Lows(g, Retreat(g, s))
  {
    hide LowReached, LowBounds, ReachesUp, Framed;
    var s' := Retreat(g, s);
    forall u | u in s'.path
      ensures exists b :: LowReached(g, s', u, b)
    {
      RetreatLowReached(g, s, u);
    }
    forall p | 0 <= p < |s'.path|
      ensures LowBounds(g, s', p)
    {
      RetreatLowBounds(g, s, p);
    }
  }

  lemma RetreatKeeps(g: Graph, s: State)
    requires Inv(g, s) && AllTaken(g, s) && s.low[Top(s)] < s.index[Top(s)]
    ensures Inv(g, Retreat(g, s))
  {
    hide Framed, Explored, ReachesBack, Lows, ClassesListed, Increasing, Reaches, Members, Elems;
    RetreatPath(g, s);
    TopIsLast(g, s, Top(s));
    RetreatFramed(g, s);
    RetreatExplored(g, s);
    RetreatReachesBack(g, s);
    RetreatLows(g, s);
  }

  // The finished node on top is the first of its component: j is its place on the node stack.
  ghost predicate CanCut(g: Graph, s: State, j: nat)
    requires Framed(g, s)
  {
    AllTaken(g, s) && j < |s.stack| && s.stack[j] == Top(s) && Top(s) in s.index && s.low[Top(s)] == s.index[Top(s)]
  }

  lemma CutSplits(g: Graph, s: State, j: nat)
    requires Placed(s) && Framed(g, s) && CanCut(g, s, j)
    ensures Elems(s.stack[..j]) + Elems(s.stack[j..]) == s.onStack && Elems(s.stack[..j]) !! Elems(s.stack[j..])
    ensures forall u :: u in s.stack[..j] ==> u in s.index && s.index[u] < s.index[Top(s)]
    ensures forall u :: u in s.stack[j..] ==> u in s.index && s.index[u] >= s.index[Top(s)]
  {
    hide Increasing, Members;
    IncreasingPrefix(s.index, s.stack, j);
    assert s.stack == s.stack[..j] + s.stack[j..];
    forall x | x in s.stack[..j]
      ensures x !in s.stack[j..]
    {
    }
  }

  // Every arc out of the segment stays in it or ends in a finished component.
  lemma ArcsOutOfCut(g: Graph, s: State, j: nat, u: Node, v: Node)
    requires Placed(s) && Framed(g, s) && Explored(g, s) && Lows(g, s) && CanCut(g, s, j)
    requires u in s.stack[j..] && v in Succ(g, u)
    ensures v in s.stack[j..] || v in Members(s.comps)
  {
    hide Members, Reaches, Arcs, LowReached;
    CutSplits(g, s, j);
    RetreatPath(g, s);
    assert u in s.path ==> u == Top(s);
    var k :| 0 <= k < |Succ(g, u)| && Succ(g, u)[k] == v;
    assert v in s.index;
    if v in s.onStack {
      assert LowBounds(g, s, |s.path| - 1);
      assert InSegment(g, s, |s.path| - 1, u);
      assert s.index[Top(s)] <= s.index[v];
      assert v in Elems(s.stack[..j]) || v in Elems(s.stack[j..]);
    }
  }

  lemma MembersClosed(g: Graph, comps: seq<seq<Node>>)
    requires ReverseTopological(g, comps)
    ensures Closed(Arcs(g), Members(comps))
  {
    forall u, v | (u, v) in Arcs(g) && u in Members(comps)
      ensures v in Members(comps)
    {
      var i :| 0 <= i < |comps| && u in comps[i];
      assert v in Succ(g, u);
      assert v in Members(comps[..i + 1]);
    }
  }

  // Everything in the segment and its opening node reach each other.
  lemma CutMutual(g: Graph, s: State, j: nat, u: Node)
    requires Placed(s) && Framed(g, s) && CanCut(g, s, j) && ReachesUp(g, s) && ReachesBack(g, s) && u in s.stack[j..]
    ensures Reaches(Arcs(g), Top(s), u) && Reaches(Arcs(g), u, Top(s))
  {
    hide Reaches, Arcs, Increasing;
    CutSplits(g, s, j);
    TopIsLast(g, s, Top(s));
    assert u in Elems(s.stack[j..]);
    var x :| GetsBack(g, s, u, x);
    TopIsLast(g, s, x);
    ReachesTrans(Arcs(g), u, x, Top(s));
  }

  lemma CutClosed(g: Graph, s: State, j: nat)
    requires Placed(s) && Framed(g, s) && Explored(g, s) && Lows(g, s) && CanCut(g, s, j) && ReverseTopological(g, s.comps)
    ensures Closed(Arcs(g), Elems(s.stack[j..]) + Members(s.comps))
  {
    MembersClosed(g, s.comps);
    hide Members, Lows, Explored, Framed, Placed, ReverseTopological;
    forall u, v | (u, v) in Arcs(g) && u in Elems(s.stack[j..]) + Members(s.comps)
      ensures v in Elems(s.stack[j..]) + Members(s.comps)
    {
      if u in s.stack[j..] {
        ArcsOutOfCut(g, s, j, u, v);
      }
    }
  }

  lemma CutClass(g: Graph, s: State, j: nat)
    requires Inv(g, s) && CanCut(g, s, j)
    ensures forall u, v :: u in s.stack[j..] ==> (v in s.stack[j..] <==> Mutual(Arcs(g), u, v))
  {
    CutSplits(g, s, j);
    CutClosed(g, s, j);
    MembersClosed(g, s.comps);
    hide Framed, Explored, Lows, ReachesUp, ReachesBack, Reaches, Arcs, Members, ClassesListed, CanCut;
    forall u, v | u in s.stack[j..]
      ensures v in s.stack[j..] <==> Mutual(Arcs(g), u, v)
    {
      CutMutual(g, s, j, u);
      if v in s.stack[j..] {
        CutMutual(g, s, j, v);
        ReachesTrans(Arcs(g), u, Top(s), v);
        ReachesTrans(Arcs(g), v, Top(s), u);
      }
      if Mutual(Arcs(g), u, v) {
        ClosedContainsReach(Arcs(g), Elems(s.stack[j..]) + Members(s.comps), u, v);
        if v in Members(s.comps) {
          ClosedContainsReach(Arcs(g), Members(s.comps), v, u);
          assert u in Elems(s.stack[j..]);
        }
      }
    }
  }

  lemma BackwardsMembers(xs: seq<Node>)
    ensures forall x :: x in Backwards(xs) <==> x in xs
    ensures Elems(Backwards(xs)) == Elems(xs)
  {
    var r := Backwards(xs);
    forall x | x in xs
      ensures x in r
    {
      var i :| 0 <= i < |xs| && xs[i] == x;
      assert r[|xs| - 1 - i] == x;
    }
  }

  lemma MembersSnoc(comps: seq<seq<Node>>, c: seq<Node>)
    ensures Members(comps + [c]) == Members(comps) + Elems(c)
  {
    var all := comps + [c];
    assert all[|comps|] == c;
    forall u | u in Members(comps) + Elems(c)
      ensures u in Members(all)
    {
      if u in Members(comps) {
        var i :| 0 <= i < |comps| && u in comps[i];
        assert all[i] == comps[i];
      }
    }
  }

  // A new component whose arcs end in itself or in what is already listed keeps the listing in order.
  lemma ClassesListedSnoc(g: Graph, comps: seq<seq<Node>>, c: seq<Node>)
    requires ClassesListed(g, comps) && IsClass(g, c)
    requires forall u :: u in c ==> u !in Members(comps)
    requires forall u, v :: u in c && v in Succ(g, u) ==> v in c || v in Members(comps)
    ensures ClassesListed(g, comps + [c])
  {
    hide IsClass, Succ;
    var all := comps + [c];
    MembersSnoc(comps, c);
    assert all[..|all|] == all;
    forall i, u, v | 0 <= i < |all| && u in all[i] && v in Succ(g, u)
      ensures v in Members(all[..i + 1])
    {
      if i < |comps| {
        assert all[..i + 1] == comps[..i + 1];
        assert u in comps[i];
      }
    }
    forall i, j, u | 0 <= i < j < |all| && u in all[i]
      ensures u !in all[j]
    {
      if j == |comps| {
        assert u in comps[i];
      }
    }
  }

  lemma BackwardsDistinct(index: map<Node, nat>, xs: seq<Node>)
    requires Increasing(index, xs)
    ensures Distinct(Backwards(xs))
  {
  }

  lemma CutClasses(g: Graph, s: State, j: nat)
    requires Inv(g, s) && CanCut(g, s, j)
    ensures ClassesListed(g, Cut(Retreat(g, s), j).comps)
  {
    hide Mutual, Explored, Lows, ReachesUp, ReachesBack, Backwards, Members, ClassesListed, Succ, Increasing, Distinct;
    var seg := s.stack[j..];
    var c := Backwards(seg);
    CutClass(g, s, j);
    CutSplits(g, s, j);
    BackwardsMembers(seg);
    IncreasingSuffix(s.index, s.stack, j);
    BackwardsDistinct(s.index, seg);
    hide Framed, CanCut;
    assert seg[0] in c;
    assert IsClass(g, c);
    CutDisjoint(g, s, j);
    ClassesListedSnoc(g, s.comps, c);
  }

  lemma CutDisjoint(g: Graph, s: State, j: nat)
    requires Placed(s) && Framed(g, s) && Explored(g, s) && Lows(g, s) && CanCut(g, s, j)
    ensures forall u :: u in Backwards(s.stack[j..]) ==> u !in Members(s.comps)
    ensures forall u, v :: u in Backwards(s.stack[j..]) && v in Succ(g, u) ==> v in Backwards(s.stack[j..]) || v in Members(s.comps)
  {
    BackwardsMembers(s.stack[j..]);
    CutSplits(g, s, j);
    hide Framed, Explored, Lows, CanCut, Backwards, Members, Succ;
    forall u, v | u in Backwards(s.stack[j..]) && v in Succ(g, u)
      ensures v in Backwards(s.stack[j..]) || v in Members(s.comps)
    {
      ArcsOutOfCut(g, s, j, u, v);
    }
    forall u | u in Backwards(s.stack[j..])
      ensures u !in Members(s.comps)
    {
      assert u in Elems(s.stack[j..]);
    }
  }

  lemma IncreasingSuffix(index: map<Node, nat>, xs: seq<Node>, n: nat)
    requires Increasing(index, xs) && n <= |xs|
    ensures Increasing(index, xs[n..])
  {
  }

  lemma CutPlaced(g: Graph, s: State, j: nat)
    requires Placed(s) && Framed(g, s) && CanCut(g, s, j)
    ensures Placed(Cut(Retreat(g, s), j))
  {
    hide Framed, Members, Backwards;
    CutSplits(g, s, j);
    BackwardsMembers(s.stack[j..]);
    MembersSnoc(s.comps, Backwards(s.stack[j..]));
    hide CanCut;
  }

  lemma CutFramed(g: Graph, s: State, j: nat)
    requires Placed(s) && Framed(g, s) && CanCut(g, s, j)
    ensures Framed(g, Cut(Retreat(g, s), j))
  {
    hide Members, Backwards, Increasing, Succ;
    var s' := Cut(Retreat(g, s), j);
    CutSplits(g, s, j);
    IncreasingPrefix(s.index, s.stack, j);
    RetreatPath(g, s);
    RetreatFramed(g, s);
    CutPathStacked(g, s, j);
  }

  lemma CutPathStacked(g: Graph, s: State, j: nat)
    requires Placed(s) && Framed(g, s) && CanCut(g, s, j)
    ensures Elems(Retreat(g, s).path) <= Elems(s.stack[..j])
  {
    CutSplits(g, s, j);
    RetreatPath(g, s);
    hide Members, Increasing, Succ, Retreat;
    forall x | x in Elems(Retreat(g, s).path)
      ensures x in Elems(s.stack[..j])
    {
      assert x in Elems(s.path);
      assert x !in s.stack[j..];
    }
  }

  lemma CutReachesBack(g: Graph, s: State, j: nat)
    requires Placed(s) && Framed(g, s) && CanCut(g, s, j) && ReachesUp(g, s) && ReachesBack(g, s)
    requires Framed(g, Cut(Retreat(g, s), j))
    ensures ReachesUp(g, Cut(Retreat(g, s), j)) && ReachesBack(g, Cut(Retreat(g, s), j))
  {
    var s' := Cut(Retreat(g, s), j);
    CutSplits(g, s, j);
    RetreatPath(g, s);
    hide Reaches, Arcs, Backwards, Framed, Members, Placed, CanCut;
    forall u | u in s'.onStack
      ensures exists x :: GetsBack(g, s', u, x)
    {
      var x :| GetsBack(g, s, u, x);
      assert u in Elems(s.stack[..j]);
      assert GetsBack(g, s', u, x);
    }
  }

  // Lows only speaks of what is stacked, so it survives taking later nodes off the stack.
  lemma LowsShrink(g: Graph, r: State, s: State)
    requires Framed(g, r) && Framed(g, s) && Lows(g, r)
    requires s.path == r.path && s.index == r.index && s.low == r.low && s.taken == r.taken && s.onStack <= r.onStack
    requires forall u, b :: u in r.path && u in r.index && b in r.onStack && b in r.index && r.index[b] <= r.index[u] ==> b in s.onStack
    ensures Lows(g, s)
  {
    hide Reaches, Arcs, Increasing, Succ;
    forall u | u in s.path
      ensures exists b :: LowReached(g, s, u, b)
    {
      var b :| LowReached(g, r, u, b);
      assert LowReached(g, s, u, b);
    }
    forall p | 0 <= p < |s.path|
      ensures LowBounds(g, s, p)
    {
      assert LowBounds(g, r, p);
      assert forall u :: InSegment(g, s, p, u) ==> InSegment(g, r, p, u);
    }
  }

  lemma CutLows(g: Graph, s: State, j: nat)
    requires Placed(s) && Framed(g, s) && CanCut(g, s, j) && ReachesUp(g, s) && Lows(g, s)
    requires Framed(g, Retreat(g, s)) && Framed(g, Cut(Retreat(g, s), j))
    ensures Lows(g, Cut(Retreat(g, s), j))
  {
    hide Backwards, Framed, Placed, Lows, ReachesUp;
    CutSplits(g, s, j);
    RetreatPath(g, s);
    RetreatLows(g, s);
    LowsShrink(g, Retreat(g, s), Cut(Retreat(g, s), j));
  }

  lemma CutKeeps(g: Graph, s: State, j: nat)
    requires Inv(g, s) && CanCut(g, s, j)
    ensures Inv(g, Cut(Retreat(g, s), j))
  {
    CutClasses(g, s, j);
    CutPlaced(g, s, j);
    CutFramed(g, s, j);
    RetreatFramed(g, s);
    RetreatExplored(g, s);
    CutReachesBack(g, s, j);
    CutLows(g, s, j);
    hide Framed, ReachesUp, ReachesBack, Lows, ClassesListed, Members, Backwards;
  }

  // -------------------------------------------------------------------------
  // What both searches deliver, and that the answer is unique
  // -------------------------------------------------------------------------

  ghost predicate AllReachable(g: Graph, roots: seq<Node>, s: State)
  {
    forall u :: u in s.index ==> ReachableFrom(g, roots, u)
  }

  lemma DiscoverReachable(g: Graph, roots: seq<Node>, s: State, v: Node)
    requires Framed(g, s) && CanDiscover(g, s, v) && AllReachable(g, roots, s) && (s.path == [] ==> v in roots)
    ensures AllReachable(g, roots, Discover(g, s, v))
  {
    hide Reaches, Arcs, Increasing;
    if s.path == [] {
      ReachesSelf(Arcs(g), v);
    } else {
      TopIsLast(g, s, Top(s));
      var r :| r in roots && Reaches(Arcs(g), r, Top(s));
      ReachesArc(Arcs(g), Top(s), v);
      ReachesTrans(Arcs(g), r, Top(s), v);
    }
  }

  // With no frame left, every numbered node is in a component.
  lemma IdleStackEmpty(g: Graph, s: State)
    requires Inv(g, s) && s.path == []
    ensures forall u :: u in s.index <==> u in Members(s.comps)
  {
    hide Explored, ReachesUp, Lows, ClassesListed, Reaches, Increasing, Members, Elems;
    assert forall u, x :: u in s.index ==> !GetsBack(g, s, u, x);
  }

  lemma FinishedListing(g: Graph, roots: seq<Node>, s: State)
    requires Inv(g, s) && s.path == [] && AllReachable(g, roots, s) && forall r :: r in roots ==> r in s.index
    ensures IsComponentListing(g, roots, s.comps)
  {
    hide Reaches, Arcs, Members, Placed, Framed, Explored, ReachesUp, ReachesBack, Lows, IsClass, Disjoint, ReverseTopological, Closed;
    IdleStackEmpty(g, s);
    MembersClosed(g, s.comps);
    forall u | ReachableFrom(g, roots, u)
      ensures u in Members(s.comps)
    {
      var r :| r in roots && Reaches(Arcs(g), r, u);
      ClosedContainsReach(Arcs(g), Members(s.comps), r, u);
    }
  }

  // Every node there is to number.
  ghost function Universe(g: Graph, nodes: seq<Node>): set<Node>
  {
    Elems(nodes) + set u, v | u in g && v in g[u] :: v
  }

  // A search for the components of what `roots` reach is under way.
  ghost predicate Running(g: Graph, roots: seq<Node>, s: State)
    ensures Running(g, roots, s) ==> Framed(g, s)
  {
    Inv(g, s) && AllReachable(g, roots, s) && s.index.Keys <= Universe(g, roots)
  }

  lemma RunInitial(g: Graph, roots: seq<Node>)
    ensures Running(g, roots, Initial())
  {
    InitialInv(g);
  }

  lemma RunDiscover(g: Graph, roots: seq<Node>, s: State, v: Node)
    requires Running(g, roots, s) && CanDiscover(g, s, v) && (s.path == [] ==> v in roots)
    ensures Running(g, roots, Discover(g, s, v)) && v in Universe(g, roots)
  {
    hide Inv, AllReachable;
    DiscoverKeeps(g, s, v);
    DiscoverReachable(g, roots, s, v);
    if s.path != [] {
      TopIsLast(g, s, Top(s));
      assert Top(s) in g && v in g[Top(s)];
    }
  }

  lemma RunBound(g: Graph, roots: seq<Node>, s: State)
    requires Running(g, roots, s)
    ensures s.index.Keys <= Universe(g, roots)
  {
  }

  lemma RunLook(g: Graph, roots: seq<Node>, s: State, v: Node)
    requires Running(g, roots, s) && CanTake(g, s) && v == Next(g, s) && v in s.index
    ensures Running(g, roots, Look(g, s, v))
  {
    hide Inv, Universe, Framed;
    LookKeeps(g, s, v);
  }

  lemma RunFinished(g: Graph, roots: seq<Node>, s: State)
    requires Running(g, roots, s) && s.path == [] && forall r :: r in roots ==> r in s.index
    ensures IsComponentListing(g, roots, s.comps)
  {
    hide Inv;
    FinishedListing(g, roots, s);
  }

  // The node on top is finished; if it opened its component, the component leaves the stack.
  ghost function Finish(g: Graph, s: State, j: nat): (r: State)
    requires Framed(g, s) && AllTaken(g, s) && Top(s) in s.index && j <= |s.stack|
    ensures r.path == s.path[..|s.path| - 1] && r.index == s.index && r.taken == s.taken
  {
    if s.low[Top(s)] == s.index[Top(s)] then Cut(Retreat(g, s), j) else Retreat(g, s)
  }

  lemma RunFinish(g: Graph, roots: seq<Node>, s: State, j: nat)
    requires Running(g, roots, s) && AllTaken(g, s) && Top(s) in s.index && j < |s.stack| && s.stack[j] == Top(s)
    ensures Running(g, roots, Finish(g, s, j))
  {
    TopLow(g, s);
    hide Inv, Universe, Framed, Retreat;
    if s.low[Top(s)] == s.index[Top(s)] {
      CutKeeps(g, s, j);
    } else {
      RetreatKeeps(g, s);
    }
  }

  // What finishing the node on top does to each variable of the search.
  lemma FinishFields(g: Graph, s: State, j: nat)
    requires Framed(g, s) && AllTaken(g, s) && Top(s) in s.index && Top(s) in s.low && j <= |s.stack|
    ensures Finish(g, s, j).counter == s.counter
    ensures |s.path| == 1 ==> Finish(g, s, j).low == s.low
    ensures |s.path| > 1 ==> var p := s.path[|s.path| - 2];
                             p in s.low && p != Top(s) && Finish(g, s, j).low == s.low[p := Min(s.low[p], s.low[Top(s)])]
    ensures s.low[Top(s)] != s.index[Top(s)] ==>
              Finish(g, s, j).stack == s.stack && Finish(g, s, j).onStack == s.onStack && Finish(g, s, j).comps == s.comps
    ensures s.low[Top(s)] == s.index[Top(s)] ==>
              && Finish(g, s, j).stack == s.stack[..j] && Finish(g, s, j).onStack == s.onStack - Elems(s.stack[j..])
              && Finish(g, s, j).comps == s.comps + [Backwards(s.stack[j..])]
  {
    var n := |s.path| - 1;
    if n > 0 {
      assert s.path[n - 1] in Elems(s.path) && s.index[s.path[n - 1]] < s.index[s.path[n]];
      assert s.path[..n][n - 1] == s.path[n - 1];
    }
    hide Framed;
  }

  lemma TopLow(g: Graph, s: State)
    requires Framed(g, s) && Lows(g, s) && s.path != []
    ensures Top(s) in s.index && s.low[Top(s)] <= s.index[Top(s)]
  {
    hide Reaches, Arcs, LowBounds, Increasing;
    TopIsLast(g, s, Top(s));
    assert Top(s) in s.path;
    var b :| LowReached(g, s, Top(s), b);
  }

  lemma TopPlace(g: Graph, roots: seq<Node>, s: State) returns (j: nat)
    requires Running(g, roots, s) && s.path != []
    ensures j < |s.stack| && s.stack[j] == Top(s) && (forall k :: j < k < |s.stack| ==> s.stack[k] != Top(s))
    ensures Top(s) in s.index && Top(s) in s.low
  {
    hide Explored, ReachesUp, ReachesBack, Lows, ClassesListed, Members, Succ, AllReachable, Universe;
    TopIsLast(g, s, Top(s));
    assert Top(s) in Elems(s.stack);
    j :| 0 <= j < |s.stack| && s.stack[j] == Top(s);
  }

  // What the steps do to each variable of the search.
  lemma NewOnPath(g: Graph, s: State, v: Node)
    requires Framed(g, s) && v !in s.index
    ensures v !in s.path
  {
    hide Increasing, Succ;
    assert v !in Elems(s.path);
  }

  lemma DiscoverFields(g: Graph, s: State, v: Node)
    requires Framed(g, s) && CanDiscover(g, s, v)
    ensures var r := Discover(g, s, v);
            && r.index == s.index[v := s.counter] && r.low == s.low[v := s.counter] && r.onStack == s.onStack + {v}
            && r.stack == s.stack + [v] && r.comps == s.comps && r.counter == s.counter + 1
            && r.path == s.path + [v] && r.taken == Handed(g, s)[v := 0]
  {
  }

  lemma HandedOne(g: Graph, s: State)
    requires Framed(g, s) && CanTake(g, s)
    ensures Handed(g, s) == s.taken[Top(s) := s.taken[Top(s)] + 1]
    ensures CanDiscover(g, s, Next(g, s)) <==> Next(g, s) !in s.index
  {
    hide Elems, Increasing, Succ;
  }

  lemma LookFields(g: Graph, s: State, v: Node)
    requires Framed(g, s) && CanTake(g, s) && v in s.index && Top(s) in s.low
    ensures Look(g, s, v) == s.(taken := Handed(g, s),
                                low := if v in s.onStack then s.low[Top(s) := Min(s.low[Top(s)], s.index[v])] else s.low)
  {
    hide Elems, Increasing, Succ, Handed;
  }

  lemma PathNode(g: Graph, s: State, p: nat)
    requires Framed(g, s) && p < |s.path|
    ensures s.path[p] in s.index && s.path[p] in s.taken && (p < |s.path| - 1 ==> s.path[p] != Top(s))
  {
    hide Elems, Succ;
  }

  // Two listings of the same graph from the same roots contain the same classes.
  lemma ListingsAgree(g: Graph, roots: seq<Node>, a: seq<seq<Node>>, b: seq<seq<Node>>)
    requires IsComponentListing(g, roots, a) && IsComponentListing(g, roots, b)
    ensures (set c | c in a :: Elems(c)) == (set c | c in b :: Elems(c))
  {
    ListingIncluded(g, roots, a, b);
    ListingIncluded(g, roots, b, a);
  }

  lemma SameClass(g: Graph, c: seq<Node>, d: seq<Node>, u: Node)
    requires IsClass(g, c) && IsClass(g, d) && u in c && u in d
    ensures Elems(c) == Elems(d)
  {
    hide Mutual, Distinct;
    assert forall v :: v in c <==> Mutual(Arcs(g), u, v);
    assert forall v :: v in d <==> Mutual(Arcs(g), u, v);
  }

  lemma ListingIncluded(g: Graph, roots: seq<Node>, a: seq<seq<Node>>, b: seq<seq<Node>>)
    requires IsComponentListing(g, roots, a) && IsComponentListing(g, roots, b)
    ensures (set c | c in a :: Elems(c)) <= (set c | c in b :: Elems(c))
  {
    hide Reaches, Arcs;
    forall c | c in a
      ensures Elems(c) in (set d | d in b :: Elems(d))
    {
      var i :| 0 <= i < |a| && a[i] == c;
      assert IsClass(g, a[i]);
      var u := c[0];
      assert u in c && u in Members(a);
      assert ReachableFrom(g, roots, u) && u in Members(b);
      var d :| d in b && u in d;
      var k :| 0 <= k < |b| && b[k] == d;
      assert IsClass(g, b[k]);
      SameClass(g, c, d, u);
    }
  }

  lemma PopNone(stack: seq<Node>)
    ensures Backwards(stack[|stack|..]) == [] && Elems(stack[|stack|..]) == {}
  {
  }

  lemma PopOne(stack: seq<Node>, n: nat)
    requires n < |stack|
    ensures Backwards(stack[n..]) == Backwards(stack[n + 1..]) + [stack[n]]
    ensures Elems(stack[n..]) == Elems(stack[n + 1..]) + {stack[n]}
  {
    var more, fewer := stack[n..], stack[n + 1..];
    assert more == [stack[n]] + fewer;
    hide Backwards;
    assert Backwards(more) == Backwards(fewer) + [stack[n]];
    assert forall x :: x in Elems(more) <==> x == stack[n] || x in Elems(fewer);
  }

  // Take the stack down to and including `node`, as one component.
  method PopComponent(stack: seq<Node>, onStack: set<Node>, node: Node, ghost j: nat)
    returns (comp: seq<Node>, rest: seq<Node>, left: set<Node>)
    requires j < |stack| && stack[j] == node && forall k :: j < k < |stack| ==> stack[k] != node
    ensures rest == stack[..j] && comp == Backwards(stack[j..]) && left == onStack - Elems(stack[j..])
  {
    hide Backwards, Elems;
    comp, rest, left := [], stack, onStack;
    PopNone(stack);
    while true
      invariant j < |rest| <= |stack| && rest == stack[..|rest|]
      invariant comp == Backwards(stack[|rest|..]) && left == onStack - Elems(stack[|rest|..])
      decreases |rest|
    {
      var n := |rest| - 1;
      var w := rest[n];
      rest := rest[..n];
      left := left - {w};
      comp := comp + [w];
      PopOne(stack, n);
      if w == node {
        break;
      }
    }
  }
}
