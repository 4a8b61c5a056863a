/** propagate of tools/statelessness_audit.py: which files own mutable state or reach a file that does, and
    through which chain of calls. */
module Statelessness {
  import opened Lists
  import opened Reachability

  type File = string
  type Symbol = string

  // defines: symbol -> defining file; calls: file -> symbols it needs. `owners` are the keys of state_syms.
  datatype Link = Link(defines: map<Symbol, File>, calls: map<File, set<Symbol>>, owners: set<File>)

  // One file needs a symbol that another file, with a name, defines.
  ghost predicate Calls(p: Link, src: File, owner: File)
  {
    src in p.calls && owner != "" && owner != src
    && exists sym :: sym in p.calls[src] && sym in p.defines && p.defines[sym] == owner
  }

  ghost function CallArcs(p: Link): set<(File, File)>
  {
    set src, sym | src in p.calls && sym in p.calls[src] && sym in p.defines && p.defines[sym] != "" && p.defines[sym] != src
      :: (src, p.defines[sym])
  }

  lemma CallArcsAreCalls(p: Link, src: File, owner: File)
    ensures (src, owner) in CallArcs(p) <==> Calls(p, src, owner)
  {
  }

  ghost predicate ReachesState(p: Link, f: File)
  {
    exists g :: g in p.owners && Reaches(CallArcs(p), f, g)
  }

  // A chain leads from f through real calls to a file with its own state, and never repeats a file.
  ghost predicate IsChain(p: Link, f: File, chain: seq<File>)
  {
    && IsPath(CallArcs(p), chain) && Distinct(chain)
    && chain[0] == f && chain[|chain| - 1] in p.owners
  }

  // Every recorded chain is one, made of recorded files only.
  ghost predicate ChainsRight(p: Link, stateful: map<File, seq<File>>)
  {
    && p.owners <= stateful.Keys
    && forall f :: f in stateful ==> IsChain(p, f, stateful[f]) && forall g :: g in stateful[f] ==> g in stateful
  }

  ghost predicate Finished(p: Link, stateful: map<File, seq<File>>, src: File)
  {
    src in stateful || forall owner :: Calls(p, src, owner) ==> owner !in stateful
  }

  lemma ChainExtends(p: Link, stateful: map<File, seq<File>>, src: File, owner: File)
    requires ChainsRight(p, stateful) && src !in stateful && owner in stateful && Calls(p, src, owner)
    ensures ChainsRight(p, stateful[src := [src] + stateful[owner]])
  {
    hide CallArcs, Calls;
    var old_chain := stateful[owner];
    var chain := [src] + old_chain;
    CallArcsAreCalls(p, src, owner);
    assert IsChain(p, owner, old_chain);
    forall i | 0 <= i < |chain| - 1
      ensures (chain[i], chain[i + 1]) in CallArcs(p)
    {
      if i > 0 {
        assert (old_chain[i - 1], old_chain[i]) in CallArcs(p);
      }
    }
    forall i, j | 0 <= i < j < |chain|
      ensures chain[i] != chain[j]
    {
      assert chain[j] == old_chain[j - 1] && old_chain[j - 1] in old_chain;
      if i > 0 {
        assert chain[i] == old_chain[i - 1];
      }
    }
    assert IsChain(p, src, chain);
    assert forall g :: g in chain <==> g == src || g in old_chain;
  }

  // The inner loop: the first symbol whose owner is already known to be stateful.
  method FindOwner(p: Link, src: File, stateful: map<File, seq<File>>) returns (found: bool, owner: File)
    requires src in p.calls
    ensures found ==> Calls(p, src, owner) && owner in stateful
    ensures !found ==> forall o :: Calls(p, src, o) ==> o !in stateful
  {
    found, owner := false, "";
    var todo := p.calls[src];
    while todo != {}
      invariant todo <= p.calls[src]
      invariant forall sym :: sym in p.calls[src] && sym !in todo && sym in p.defines ==>
                  p.defines[sym] == "" || p.defines[sym] == src || p.defines[sym] !in stateful
      decreases todo
    {
      var sym := First(todo);
      todo := todo - {sym};
      if sym in p.defines && p.defines[sym] != "" && p.defines[sym] in stateful && p.defines[sym] != src {
        return true, p.defines[sym];
      }
    }
  }

  method Propagate(p: Link) returns (stateful: map<File, seq<File>>)
    ensures forall f :: f in stateful <==> ReachesState(p, f)
    ensures forall f :: f in stateful ==> IsChain(p, f, stateful[f])
  {
    hide Calls, CallArcs, IsChain, ReachesState;
    stateful := map src | src in p.owners :: [src];
    OwnersAlone(p, stateful);
    var changed := true;
    while changed
      invariant ChainsRight(p, stateful)
      invariant !changed ==> forall src :: src in p.calls ==> Finished(p, stateful, src)
      decreases p.calls.Keys - stateful.Keys, changed
    {
      changed := false;
      ghost var before := stateful;
      var todo := p.calls.Keys;
      while todo != {}
        invariant todo <= p.calls.Keys && ChainsRight(p, stateful)
        invariant before.Keys <= stateful.Keys
        invariant if changed then p.calls.Keys - stateful.Keys < p.calls.Keys - before.Keys else stateful == before
        invariant !changed ==> forall src :: src in p.calls && src !in todo ==> Finished(p, stateful, src)
        decreases todo
      {
        var src := First(todo);
        todo := todo - {src};
        if src !in stateful {
          var found, owner := FindOwner(p, src, stateful);
          if found {
            ChainExtends(p, stateful, src, owner);
            assert src in p.calls.Keys - stateful.Keys;
            stateful := stateful[src := [src] + stateful[owner]];
            changed := true;
          }
        }
      }
    }
    KeysAreLeastFixpoint(p, stateful);
    forall f | f in stateful
      ensures IsChain(p, f, stateful[f])
    {
    }
  }

  lemma OwnersAlone(p: Link, stateful: map<File, seq<File>>)
    requires stateful == map src | src in p.owners :: [src]
    ensures ChainsRight(p, stateful)
  {
  }

  // A file with a chain reaches state.
  lemma ChainReachesState(p: Link, f: File, chain: seq<File>)
    requires IsChain(p, f, chain)
    ensures ReachesState(p, f)
  {
    hide CallArcs;
    assert Reaches(CallArcs(p), f, chain[|chain| - 1]);
  }

  // When nothing changes any more, the recorded files are exactly those that reach state.
  lemma KeysAreLeastFixpoint(p: Link, stateful: map<File, seq<File>>)
    requires ChainsRight(p, stateful) && forall src :: src in p.calls ==> Finished(p, stateful, src)
    ensures forall f :: f in stateful <==> ReachesState(p, f)
  {
    hide IsChain, ReachesState, CallArcs;
    forall f | f in stateful
      ensures ReachesState(p, f)
    {
      ChainReachesState(p, f, stateful[f]);
    }
    forall src, owner | Calls(p, src, owner) && owner in stateful
      ensures src in stateful
    {
      assert Finished(p, stateful, src);
    }
    forall f | ReachesState(p, f)
      ensures f in stateful
    {
      LeastStatefulSet(p, stateful.Keys, f);
    }
  }

  // It is the least set that holds the owners and every file that calls into it.
  lemma LeastStatefulSet(p: Link, s: set<File>, f: File)
    requires p.owners <= s && forall src, owner :: Calls(p, src, owner) && owner in s ==> src in s
    requires ReachesState(p, f)
    ensures f in s
  {
    var g :| g in p.owners && Reaches(CallArcs(p), f, g);
    var path :| IsPath(CallArcs(p), path) && path[0] == f && path[|path| - 1] == g;
    var i := |path| - 1;
    while i > 0
      invariant 0 <= i < |path| && path[i] in s
    {
      assert (path[i - 1], path[i]) in CallArcs(p);
      CallArcsAreCalls(p, path[i - 1], path[i]);
      i := i - 1;
    }
  }
}
