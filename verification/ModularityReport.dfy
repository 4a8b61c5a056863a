/** collect_modularity of tools/code_health.py: the two scores that are compared. */
module ModularityReport {
  import opened Coupling
  import opened LocalOptimum
  import opened Louvain
  import opened Modularity
  import opened ModularityScore
  import opened Reachability

  datatype Scores = NotMeasured | Scores(directories: real, derived: real)

  // The two numbers of which the gap is taken; dirs is the directory a file is in.
  method CollectModularity(edges: Includes, dirs: Node -> Node) returns (s: Scores, ghost net: Net, ghost derived: Partition)
    ensures Couples(net, edges) && (s.NotMeasured? <==> CrossFile(edges) == 0)
    ensures s.Scores? ==> net.twoM > 0.0 && Partitions(net, derived)
    ensures s.Scores? ==> s.directories == Newman(net, map u | u in net.adj :: dirs(u))
    ensures s.Scores? ==> s.derived == Newman(net, derived) && s.derived >= Newman(net, Singletons(net))
    ensures s.Scores? && CrossFile(edges) < 500000000000 ==> Improved(net, derived, 12)
  {
    hide Newman, Partitions, CrossFile, Crossings, WellFormed, Sum, Climbed, Settled, Score, Improved;
    var built := BuildNet(edges);
    net, derived := built, map[];
    if built.adj == map[] {
      return NotMeasured, net, derived;
    }
    var filed := map u | u in built.adj :: dirs(u);
    var qDir := ModularityOf(built, filed);
    var found := Louvain.Louvain(built);
    ClimbedGains(built, found, 12);
    if CrossFile(edges) < 500000000000 {
      ClimbedIsImproved(built, edges, found, 12);
    }
    LabelsAll(built, found);
    var qDerived := ModularityOf(built, found);
    s, derived := Scores(qDir, qDerived), found;
  }

  lemma LabelsAll(net: Net, p: Partition)
    requires Partitions(net, p)
    ensures p.Keys == net.adj.Keys
  {
  }
}
