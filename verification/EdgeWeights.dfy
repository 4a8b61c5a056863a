/** Sums of edge weights: the bookkeeping behind feedback_arc_order. */
module EdgeWeights {
  import opened Reachability

  // "a depends on b", n times.
  datatype Edge = Edge(a: Node, b: Node, n: nat)

  ghost predicate Positive(es: seq<Edge>)
  {
    forall e :: e in es ==> e.n > 0
  }

  ghost function Weight(es: seq<Edge>, p: Edge -> bool): nat
  {
    if es == [] then 0 else Weight(es[..|es| - 1], p) + (if p(es[|es| - 1]) then es[|es| - 1].n else 0)
  }

  function Select(es: seq<Edge>, p: Edge -> bool): seq<Edge>
  {
    if es == [] then [] else Select(es[..|es| - 1], p) + (if p(es[|es| - 1]) then [es[|es| - 1]] else [])
  }

  ghost function ArcsOf(es: seq<Edge>): set<(Node, Node)>
  {
    set e | e in es :: (e.a, e.b)
  }

  lemma {:induction false} WeightSplits(es: seq<Edge>, p: Edge -> bool, q: Edge -> bool, r: Edge -> bool)
    requires forall e :: e in es ==> (p(e) <==> q(e) || r(e)) && !(q(e) && r(e))
    ensures Weight(es, p) == Weight(es, q) + Weight(es, r)
  {
    if es != [] {
      assert es[|es| - 1] in es;
      WeightSplits(es[..|es| - 1], p, q, r);
    }
  }

  lemma {:induction false} WeightMonotone(es: seq<Edge>, p: Edge -> bool, q: Edge -> bool)
    requires forall e :: e in es && p(e) ==> q(e)
    ensures Weight(es, p) <= Weight(es, q)
  {
    if es != [] {
      assert es[|es| - 1] in es;
      WeightMonotone(es[..|es| - 1], p, q);
    }
  }

  lemma WeightSame(es: seq<Edge>, p: Edge -> bool, q: Edge -> bool)
    requires forall e :: e in es ==> (p(e) <==> q(e))
    ensures Weight(es, p) == Weight(es, q)
  {
    WeightMonotone(es, p, q);
    WeightMonotone(es, q, p);
  }

  // With positive weights a sum is zero exactly when nothing is summed.
  lemma {:induction false} WeightZero(es: seq<Edge>, p: Edge -> bool)
    requires Positive(es)
    ensures Weight(es, p) == 0 <==> forall e :: e in es ==> !p(e)
  {
    if es != [] {
      var init, last := es[..|es| - 1], es[|es| - 1];
      assert es == init + [last];
      WeightZero(init, p);
    }
  }

  lemma {:induction false} WeightAtLeast(es: seq<Edge>, p: Edge -> bool, e: Edge)
    requires e in es && p(e)
    ensures Weight(es, p) >= e.n
  {
    var init, last := es[..|es| - 1], es[|es| - 1];
    assert es == init + [last];
    if e != last {
      WeightAtLeast(init, p, e);
    }
  }

  lemma {:induction false} WeightSelect(es: seq<Edge>, p: Edge -> bool, q: Edge -> bool)
    ensures Weight(Select(es, p), q) == Weight(es, e => p(e) && q(e))
    ensures forall e :: e in Select(es, p) <==> e in es && p(e)
  {
    if es != [] {
      var init, last := es[..|es| - 1], es[|es| - 1];
      assert es == init + [last];
      WeightSelect(init, p, q);
      WeightSame(init, e => p(e) && q(e), e => p(e) && q(e));
      if p(last) {
        var all := Select(es, p);
        assert all[..|all| - 1] == Select(init, p);
      } else {
        assert Select(es, p) == Select(init, p);
      }
    }
  }

  lemma {:induction false} WeightHead(es: seq<Edge>, p: Edge -> bool)
    requires es != []
    ensures Weight(es, p) == (if p(es[0]) then es[0].n else 0) + Weight(es[1..], p)
  {
    if |es| > 1 {
      WeightHead(es[..|es| - 1], p);
      assert es[..|es| - 1][1..] == es[1..][..|es| - 2];
    }
  }
}
