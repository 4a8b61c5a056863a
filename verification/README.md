# A verified model of Ansel's code-analysis tools and self-contained kernels

Ansel keeps its architecture in check with Python tools that make global claims about the include graph, and it has
a few self-contained pieces of C whose correctness is arithmetic. This project models them in Dafny and proves what
they promise. Where the original updates state in loops, the model is a method with a loop, proved against a
specification that says what the result *is*; the promises are then proved of that specification.

| file | models |
|---|---|
| `Reachability`, `Tarjan` | directed graphs, and the search state and steps that both versions of Tarjan's algorithm share |
| `StronglyConnected`, `IncludeGraphTarjan` | the two iterative versions, one over live iterators, one over resume positions |
| `EdgeWeights`, `Peeling`, `FeedbackArc`, `FeedbackArcLimits`, `FeedbackArcSlack`, `Layering` | the feedback-arc ordering, its bounds and their limits, and the cuts reported for each cycle |
| `CollectReach`, `IncludeFanIn` | transitive closures, cyclic groups, core/shared/control buckets, fan-in |
| `Modularity`, `Louvain`, `ModularityScore`, `Coupling`, `LocalOptimum`, `ModularityReport` | Newman modularity, local moving, the score computed community by community, the network built from the includes, and what local moving reaches on it |
| `Winnowing` | rolling hashes, the monotonic deque, and the match guarantee |
| `Bisection` | halving a set of files against a build, with the stripped files on disk as state |
| `NoiseGenerator`, `SplitMix` | xoshiro128+, splitmix32 and uniform noise |
| `Statelessness` | the fixpoint that finds stateful files and the chains that explain them |
| `MemoryBudget`, `ArgvCompaction` | how memory is shared out at startup, and closing up `argv` in place |
| `CLexer`, `LexerSpans`, `HeaderConsumers`, `ReturnTypes` | the two comment strippers and the search for a function body |
| `LutLookup` | interpolated lookup in a table that is wrapped into image rows |

`Lists` holds a few facts that several of them need. File names and directories are integers in the graph modules;
the order of the integers stands for the order of the names. Python's iteration over sets and dictionaries is
modelled as any order, so results hold for every order. Floating-point weights, gains and table entries are reals.

## Where the code and its documentation differ

- `feedback_arc_order` documents at most |E|/2 - |V|/6 backward edges. Over all graphs with weights up to w and t
  two-cycles that holds if and only if w = 1 and t = 0 (`FeedbackArcSlack.DocumentedBoundIff`). With weights of 1 it
  holds with 2t/6 = t/3 edges more and with no less; with any larger weight no constant is enough
  (`FeedbackArcSlack.BoundKeptIff`). By weight instead of by number, every graph keeps half of the total, and
  total/2 - |V|/6 plus a third for every two-cycle (part of `FeedbackArc.FeedbackArcOrder`). The cycle detail has
  weights of 1, so each of its components keeps the bound by number (part of `Layering.CycleDetail`).
- The backward edges are called the minimum set that would have to go. They always break every cycle, but the greedy
  rule can end with two of them where one is enough (`FeedbackArcLimits.NotMinimum`). They are a minimum when the graph
  has no cycle: then there are none.
- With a self-loop, which the doxygen source of the file graph does not filter out, deleting the backward edges leaves
  that loop: what is left is acyclic if and only if there is no self-loop (part of `FeedbackArc.FeedbackArcOrder`).
- `_bisect_set` documents the largest subset that builds. If stripping less never breaks a build, the answer holds
  every subset that builds exactly when the removals are independent (`Bisection.LargestIffIndependent`). By the number
  of files, and however removals depend on each other, it is always a largest one for at most two files, and for no
  larger number of files (`Bisection.AlwaysLargestIff`).
- `clone_detect` reports k + w - 1 as the guaranteed match length. A shared run is always detected from k + max(w, 1) - 1
  tokens on and from no smaller length (`Winnowing.GuaranteedIff`), so for k > 0 the reported length is right if and only
  if w >= 1 (`Winnowing.ReportedLengthGuaranteedIff`). A negative k is not rejected and ends in an index error.
- The memory budget is commented as keeping the headroom between 1 GB and a third of the memory and the thumbnail
  cache between 256 MB and a sixth. `CLAMP` with a lower bound above its upper one breaks that below 3 GiB, and the
  thumbnail cache also gives way to the pixel pipe; `HeadroomBoundsIff` and `ThumbnailBoundsIff` say for each
  configuration when the bounds hold. The comment also describes a floor derived from the headroom; the code uses a fixed 200 MiB.
- A container limit of 0 bytes counts as unknown once taken over, so a host limit may then exceed it
  (`MemoryBudget.TotalIsLeastKnown`).

## Model

| member | source | states |
|---|---|---|
| Tarjan.DiscoverKeeps | tools/code_health.py:754-761 | numbering a node, as a root or as the next successor, keeps the search invariant: the stack is ordered by number, earlier stacked nodes reach later ones, every stacked node gets back to an open one, low is a reached number and bounds every explored arc of its segment, and what is already listed are classes |
| Tarjan.LookKeeps | tools/code_health.py:762-763 | looking at a numbered successor keeps the invariant, whether it lowers low or not |
| Tarjan.RetreatKeeps | tools/code_health.py:766-768 | a finished node that does not open a component leaves the work stack and hands its low to its parent; the invariant stays |
| Tarjan.CutClass | tools/code_health.py:769-777 | when low equals index, the stack from that node up is exactly one mutual-reachability class |
| Tarjan.CutKeeps | tools/code_health.py:766-777 | moving that class to the result keeps the invariant, including reverse topological order |
| Tarjan.PopComponent | tools/code_health.py:770-776 | the pop loop takes exactly the part of the stack from the node up, last pushed first |
| Tarjan.FinishedListing | tools/code_health.py:738-778 | with no work left, the components are the classes of exactly the nodes the roots reach, disjoint, each before those that depend on it |
| StronglyConnected.AdvanceTop | tools/code_health.py:751-765 | the iterator on top hands out successors until one is new and numbered, or is used up; the search state stays right |
| StronglyConnected.FinishTop | tools/code_health.py:766-777 | a node whose iterator is used up leaves the work stack, with its component if it opened one |
| StronglyConnected.StronglyConnected | tools/code_health.py:738-778 | the iterator version returns such a listing for every graph and every list of roots |
| IncludeGraphTarjan.ScanSuccessors | tools/include_graph.py:108-115 | the resumed scan stops at the first unnumbered successor with both frames in place, or has looked at all of them |
| IncludeGraphTarjan.NumberTop | tools/include_graph.py:104-107 | a frame at position 0 is numbered then and not before, and the search state stays right |
| IncludeGraphTarjan.FinishTop | tools/include_graph.py:118-127 | a frame without successors left goes, with its component if it opened one, and its parent takes over its low |
| IncludeGraphTarjan.FindComponents | tools/include_graph.py:99-131 | the resume-index version returns such a listing as well |
| Tarjan.ListingsAgree | tools/include_graph.py:99-131 | any two listings of one graph from the same roots hold the same set of components, so the two tools agree |
| FeedbackArc.Tabulate | tools/code_health.py:803-815 | the tables hold exactly the edges leaving and entering each node, and the counters their weights |
| FeedbackArc.Drop | tools/code_health.py:822-833 | taking a node out leaves the counters equal to the weights within what remains, and the worklists hold exactly the sinks and all sources that are not sinks |
| FeedbackArc.PickGreedy | tools/code_health.py:851-852 | reached only when every remaining node has edges in both directions; takes the largest outgoing-minus-incoming weight, by name among equals |
| FeedbackArc.StuckHasCycle | tools/code_health.py:793-794 | when neither a sink nor a source is left there is a cycle |
| FeedbackArc.KeptEnd | tools/code_health.py:836-850 | placing a sink or a source adds no backward weight and keeps the bounds |
| FeedbackArc.KeptPick | tools/code_health.py:851-854 | a greedy pick adds at most half of the weight it settles and keeps the bounds |
| Peeling.PayEnd | tools/code_health.py:795-796 | in the potential argument for the bound, a sink or source pays for itself, for every neighbour it isolates and for what is owed |
| Peeling.PayGreedy | tools/code_health.py:795-796 | a pick with a strict gain pays for itself, and the two-cycles it settles pay for the nodes it isolates, self-loops allowed |
| Peeling.PayBalanced | tools/code_health.py:795-796 | a pick without gain is paid for by a self-loop or a two-cycle it settles, or is owed for and leaves an unbalanced node behind that will pay |
| FeedbackArc.PickBack | tools/code_health.py:859-864 | back is exactly the edges whose source is placed before their target |
| FeedbackArc.CutsBreakCycles | tools/code_health.py:784-787 | without the edges that point up a complete order the graph is acyclic if and only if it has no self-loop |
| FeedbackArc.FeedbackArcOrder | tools/code_health.py:781-866 | every node once, each placed as the greedy rule allows with what was left then; back is exactly the edges pointing up the order; for every graph its weight is at most half of the total, and at most total/2 - nodes/6 plus a third per two-cycle; the graph is acyclic if and only if back is empty and there is no self-loop; deleting back leaves no cycle but self-loops |
| FeedbackArcLimits.EdgeCountBound | tools/code_health.py:795-796 | with edges of weight 1 the number of backward edges is at most edges/2 - nodes/6 plus a third per two-cycle, and at most half of the edges |
| FeedbackArc.ResultExists | tools/code_health.py:781-866 | every graph has a result that keeps all this, so what is said of every result is never empty |
| FeedbackArcSlack.FamilyCosts | tools/code_health.py:795-796 | on any number of disjoint two-cycles, and of knots of four nodes with one edge of weight 2, every result exceeds the documented bound by a third of an edge per two-cycle, and no more without knots, and a sixth per knot |
| FeedbackArcSlack.BoundKeptIff | tools/code_health.py:795-796 | for every weight limit, number of two-cycles and slack: all results on all such graphs keep the documented number of edges up to that slack if and only if all weights are 1 and the slack is at least a third of an edge per two-cycle |
| FeedbackArcSlack.DocumentedBoundIff | tools/code_health.py:795-796 | the documented bound itself holds for all such graphs if and only if all weights are 1 and there is no two-cycle |
| FeedbackArcLimits.NotMinimum | tools/code_health.py:785-787 | unit edges on which the greedy rule always ends with at least two backward edges although cutting one leaves a DAG |
| Layering.InnerEdges | tools/code_health.py:993-994 | the edges are exactly the arcs with both ends in the component, each once and of weight 1 |
| Layering.ComponentHasCycle | tools/code_health.py:984-990 | a component of more than one file has a cycle inside itself that is not a self-include |
| Layering.CutsAreCounted | tools/code_health.py:995-999 | internal_edges is the number of arcs inside the component, and cuts_to_break keeps both bounds |
| Layering.FeedbackBreaks | tools/code_health.py:995-1002 | the cuts reported for a component are never empty, lie inside it between different files, and break every cycle in it but self-includes |
| Layering.CutGraphAcyclic | tools/code_health.py:982-1002 | the whole file graph without the cuts of all components has no cycle but self-includes, and none at all if and only if no file includes itself |
| Layering.CycleDetail | tools/code_health.py:982-1002 | lists every mutual-reachability class of more than one file exactly once, with the number of its internal includes and cuts that break it: at most half of them, and at most includes/2 - files/6 plus a third per pair that include each other; all cuts together leave no cycle but self-includes; nothing is listed exactly when there is no other cycle to begin with |
| CollectReach.Closure | tools/code_health.py:317-326 | exactly the nodes the start reaches, itself excluded |
| CollectReach.Fans | tools/code_health.py:344-346 | fan-out and fan-in of every node count what it reaches and what reaches it; their sum counts the ordered pairs of which one reaches the other |
| CollectReach.Groups | tools/code_health.py:348-352 | the groups are the mutual-reachability knots of more than one node, all of them, each listing its members |
| CollectReach.LargestGroup | tools/code_health.py:353-353 | the core is a largest group, empty when there is none |
| CollectReach.CountBuckets | tools/code_health.py:356-365 | shared counts the files outside the core that as many files reach as reach a core file and that reach fewer, control the other way round, core and peripheral the core and the rest |
| CollectReach.Collect | tools/code_health.py:307-365 | the whole report in terms of reachability in the include graph |
| CollectReach.KnotSeesAlike | tools/code_health.py:344-352 | members of one group have the same fan-out and the same fan-in |
| CollectReach.CoreThresholds | tools/code_health.py:354-355 | the core's thresholds are the counts of each of its members |
| CollectReach.SharedAndControlAreApart | tools/code_health.py:338-365 | a shared file cannot reach the core, and a control file cannot be reached from it |
| CollectReach.BucketByReach | tools/code_health.py:358-365 | the test against the thresholds is the comparison with any one core file |
| CollectReach.AroundTheCore | tools/code_health.py:338-365 | every file outside the core that the core reaches is shared, and every file outside it that reaches the core is control |
| CollectReach.NoCoreAllPeripheral | tools/code_health.py:353-365 | without a cyclic group every file is counted as peripheral |
| CollectReach.FanSumsAgree | tools/code_health.py:344-346 | all fan-outs add up to what all fan-ins add up to |
| CollectReach.GroupsAreComponents | tools/code_health.py:348-352 | the groups found by intersecting closures are Tarjan's components of more than one node |
| IncludeFanIn.IncludeClosure | tools/include_graph.py:178-187 | exactly the files a walk of at least one include leads to, the start itself included if a cycle leads back |
| IncludeFanIn.FanIn | tools/include_graph.py:189-192 | the fan-in of a header counts the files whose closure holds it |
| IncludeFanIn.IncludesItselfIff | tools/include_graph.py:178-187 | a closure holds its own start exactly when the start is in a cyclic group |
| IncludeFanIn.FanInsAgree | tools/include_graph.py:189-192 | the two tools' fan-ins agree, but for one more on members of a cyclic group |
| Modularity.MoveChangesScore | tools/code_health.py:421-452 | moving one node changes 2m times Newman's modularity by twice the difference of its gains |
| Louvain.GainComputed | tools/code_health.py:441-443 | the gain in the loop is the excess weight, in Newman's sense, between the node and the community |
| Louvain.LinkWeights | tools/code_health.py:436-439 | the summed link weight to every neighbouring community, and to no other |
| Louvain.BestCommunity | tools/code_health.py:441-445 | stays, or takes a neighbouring community that gains more than the tolerance; no neighbouring community gains more than the tolerance over the one taken |
| Louvain.MoveNode | tools/code_health.py:433-449 | only this node moves; comm_deg stays the summed degree of every community; an accepted move raises the score by twice the difference of gains, which is more than twice the tolerance; otherwise no neighbouring community is better |
| Louvain.Louvain | tools/code_health.py:421-452 | the result is reached from the singletons by accepted single-node moves, each to a best neighbouring community and each raising the score; either no single-node move gains more than the tolerance any more, or there was a move for every pass |
| Louvain.ClimbedGains | tools/code_health.py:429-452 | such a result leaves nothing to improve or has gained twice the tolerance for every pass, and unless it is the singleton partition its modularity is strictly higher |
| Louvain.SingletonsClimbedIff | tools/code_health.py:429-452 | the singleton partition can be the result if and only if no node has a reason to move or no pass is made |
| ModularityScore.Tally | tools/code_health.py:411-417 | the counters hold the links inside and the summed degree of every community |
| ModularityScore.ModularityOf | tools/code_health.py:407-418 | the community-wise sum is Newman's sum over all pairs, and 0 without links |
| Coupling.BuildNet | tools/code_health.py:474-482 | the network holds exactly the includes between different files, either way round; rows are symmetric, sum to the degrees, and the degrees sum to twice the number of such includes; it is empty exactly when there is none |
| Coupling.DegreesCountTwice | tools/code_health.py:481-482 | every include between two files is counted twice in the summed degrees, whatever the include list |
| LocalOptimum.SettledIffLocallyBest | tools/code_health.py:441-451 | on the networks built from fewer than 5*10^11 includes, the search stops exactly where no node raises the modularity by joining a community it is linked to: the tolerance of 10^-12 makes no difference |
| LocalOptimum.ClimbedIsImproved | tools/code_health.py:429-452 | there the result is reached from singletons by moves of one node to the linked community that raises the modularity most, and either no such move is left or there was one for every pass |
| ModularityReport.CollectModularity | tools/code_health.py:455-490 | the two scores compared are Newman's for the directories and for such a result after 12 passes, never below the singletons |
| Winnowing.PolynomialRolls | tools/clone_detect.py:112-114 | dropping the leading and adding a trailing digit gives the next k-gram's polynomial |
| Winnowing.RollKeepsHash | tools/clone_detect.py:112-114 | the step may work on remainders only, negative differences included |
| Winnowing.RollingHashes | tools/clone_detect.py:107-114 | hash i is the modular polynomial hash of tokens i to i+k-1, for k = 0 too; a negative k runs into an index error |
| Winnowing.PopBack | tools/clone_detect.py:121-123 | after the push the deque is monotonic and still bounds every index of the window from below |
| Winnowing.PopFront | tools/clone_detect.py:124-125 | the deque is never empty when its front is read, and only indices outside the window leave |
| Winnowing.WindowMinima | tools/clone_detect.py:118-128 | picks exactly the minima of all windows of w hashes; popped indices and those still queued are together every index once, and still queued are those of the last window below every later hash |
| Winnowing.TokenIdsEach | tools/clone_detect.py:105-105 | each token gives one number of its own, the lower 32 bits of its hash |
| Winnowing.OneTokenChangesHash | tools/clone_detect.py:107-114 | k-grams that differ in a single token's number never hash alike |
| Winnowing.Fingerprints | tools/clone_detect.py:96-128 | exactly the naive fingerprints of the token numbers, for every k >= 0 and every w, too short lists included; an index error if and only if k is negative |
| Winnowing.FingerprintsSurvive | tools/clone_detect.py:17-19 | code before and after only adds fingerprints |
| Winnowing.SharedRunIsDetected | tools/clone_detect.py:19-21 | two lists of numbers that share a run of k + max(w, 1) - 1 share a fingerprint |
| Winnowing.ResultsGrow | tools/clone_detect.py:17-19 | for token lists: what is returned for a list is contained in what is returned for it with code around |
| Winnowing.SharedTokensAreReported | tools/clone_detect.py:160-167 | for token lists: a file that shares a run of k + max(w, 1) - 1 tokens with a file of the other tree hits its corpus |
| Winnowing.GuaranteedIff | tools/clone_detect.py:19-21 | for every n, k and w: all pairs of lists that share a run of n tokens share a fingerprint if and only if n is at least k + max(w, 1) - 1 |
| Winnowing.ReportedLengthGuaranteedIff | tools/clone_detect.py:206-207 | the reported length k + w - 1 is guaranteed if and only if w is at least 1, or k is 0 |
| Bisection.Workspace.ApplyOnly | tools/include_unused.py:383-389 | exactly the subset is stripped, whatever was before |
| Bisection.Workspace.BisectSet | tools/include_unused.py:392-413 | ties the answer, the files left stripped, the number of builds and whether halves interacted to functions of the build oracle |
| Bisection.BisectSound | tools/include_unused.py:392-413 | for any deterministic build the answer is an in-order subsequence, and it builds if it is not empty or the untouched tree builds |
| Bisection.InteractionKeepsLonger | tools/include_unused.py:409-412 | when halves interact the answer is one of their answers, the left one unless it is shorter |
| Bisection.BuildingBlocksAreNoLonger | tools/include_unused.py:397-413 | no part the search looks at that builds as a whole is longer than the answer |
| Bisection.DiskMatchesAnswer | tools/include_unused.py:392-413 | the disk holds exactly the answer stripped, if and only if it is not one of two corner cases: a single bad file, or no file at all on a disk that was not clean |
| Bisection.BisectFindsHarmless | tools/include_unused.py:393-394 | without interaction the answer is exactly the files that can be stripped alone, in order |
| Bisection.IndependentNeverInteracts | tools/include_unused.py:393-394 | independent removals never take the branch for interacting halves |
| Bisection.LargestIffIndependent | tools/include_unused.py:393-394 | if stripping less never breaks a build, the answer holds every subset that builds if and only if removals are independent |
| Bisection.AlwaysLargestIff | tools/include_unused.py:392-413 | for every n: on all n files and all builds that stripping less never breaks, no subset that builds has more files than the answer, if and only if n is at most 2 |
| Bisection.IndependentCost | tools/include_unused.py:446-449 | with b bad files among n and independent removals, at most 1 + 3 b ceil(log2 n) builds |
| Bisection.WorstCost | tools/include_unused.py:392-413 | at most 4 n - 3 builds whatever the build does |
| NoiseGenerator.StepBackUndoes | data/kernels/noise_generator.h:49-63 | a step of the generator can be undone, by an explicit inverse |
| NoiseGenerator.StepUndoes | data/kernels/noise_generator.h:49-63 | every state is reached by a step, so the step permutes the states |
| NoiseGenerator.NeverAllZero | data/kernels/noise_generator.h:49-63 | no run from a seed that is not zero ever reaches the all-zero state |
| NoiseGenerator.RunsNeverMeet | data/kernels/noise_generator.h:49-63 | runs from different seeds are in different states after every number of calls |
| NoiseGenerator.OutputInRange | data/kernels/noise_generator.h:64-65 | every output is between 0 and 1 - 2^-24 |
| NoiseGenerator.OutputIsUpperBits | data/kernels/noise_generator.h:53-64 | the output is the upper 24 bits of the wrapping sum of the first and last word, over 2^24 |
| NoiseGenerator.RotatesBits | data/kernels/noise_generator.h:43-46 | rotation by 11 moves each bit 11 places up and around |
| NoiseGenerator.ShiftsBits | data/kernels/noise_generator.h:54-54 | the shift moves each bit 9 places up or out |
| NoiseGenerator.Xoshiro128Plus | data/kernels/noise_generator.h:49-65 | the updates in place make one step and return the output of the state before |
| NoiseGenerator.SpreadStaysClose | data/kernels/noise_generator.h:68-72 | noise in the unit interval stays within sigma of mu |
| NoiseGenerator.SpreadIsEven | data/kernels/noise_generator.h:71-71 | noise 0 and 1 give mu - sigma and mu + sigma, and equal steps of noise equal steps between |
| NoiseGenerator.UniformNoise | data/kernels/noise_generator.h:68-72 | three consecutive outputs in order, within sigma of mu per colour; the fourth channel is mu - sigma and draws nothing |
| SplitMix.Fold28Undoes | data/kernels/noise_generator.h:37-37 | x ^ (x >> 28) on 64 bits is a bijection with an explicit inverse |
| SplitMix.XorBits | data/kernels/noise_generator.h:36-37 | each bit of the exclusive or says whether the operands' bits differ |
| SplitMix.MultipliersInvert | data/kernels/noise_generator.h:36-37 | both odd multipliers have an inverse modulo 2^64 |
| SplitMix.MixIsBijective | data/kernels/noise_generator.h:32-37 | the mixing before the final shift is a bijection on 64-bit words |
| SplitMix.EveryResultEquallyOften | data/kernels/noise_generator.h:32-39 | every 32-bit result has exactly 2^32 seeds |
| Statelessness.FindOwner | tools/statelessness_audit.py:188-193 | finds a called file already known to be stateful if there is one |
| Statelessness.ChainExtends | tools/statelessness_audit.py:191-191 | a chain put in front of a recorded one is still a path of real calls without a repeated file |
| Statelessness.KeysAreLeastFixpoint | tools/statelessness_audit.py:180-194 | once a pass changes nothing, the recorded files are exactly those that own state or reach an owner |
| Statelessness.LeastStatefulSet | tools/statelessness_audit.py:180-180 | that is the least set holding the owners and everything that calls into it |
| Statelessness.Propagate | tools/statelessness_audit.py:179-194 | terminates; keys are exactly the files that reach state, and every chain is a duplicate-free path of real calls to a file with its own state |
| MemoryBudget.Resources.ConfigureRuntimePerformance | src/darktable.c:2427-2546 | for all configured values and sizes: undefined exactly when a signed result overflows; otherwise the conversions between signed and unsigned and the nested clamps come out as the plan in plain integers, totals that read as negative included; below 2^63 all shares add up to max(total, headroom + 2304000000 + 128 MiB); the critical warning is given exactly when the total is below headroom + 2304000000 + 128 MiB |
| MemoryBudget.Resources.FitPipe | src/darktable.c:2504-2524 | the pixel pipe gets what headroom and thumbnails leave but never less than its least, and then the thumbnails what is left, but never less than theirs |
| MemoryBudget.ClampIsShare | src/darktable.c:2471-2473 | an unsigned clamp of a signed request, negative or with crossed bounds, is the share it stands for |
| MemoryBudget.PlanSpendsAll | src/darktable.c:2500-2524 | headroom, thumbnails and pixel pipe add up to max(total, headroom + 2304000000 + 128 MiB) |
| MemoryBudget.EveryPlanFitsIff | src/darktable.c:2543-2546 | no configuration overcommits the memory exactly from 3657326591 bytes on |
| MemoryBudget.HeadroomBoundsIff | src/darktable.c:2470-2473 | on every configuration the headroom is within its documented bounds if and only if there are 3 GiB |
| MemoryBudget.ThumbnailBoundsIff | src/darktable.c:2499-2524 | for each configuration, the thumbnail cache is within its documented bounds if and only if the headroom it leads to and the least pixel pipe leave 256 MiB |
| MemoryBudget.EveryThumbnailBoundsIff | src/darktable.c:2499-2524 | on every configuration it is exactly from 3858653183 bytes on |
| MemoryBudget.FloorInRange | src/darktable.c:2493-2497 | the pressure floor is within [0, total/4], 200 MiB by default when there is room, and what is asked for within a quarter |
| MemoryBudget.FloorWrapsAround | src/darktable.c:2497-2497 | the exact floor of totals that read as negative |
| MemoryBudget.AskedIsGranted | src/darktable.c:2470-2524 | headroom asked for within its bounds is granted, and so is the thumbnail cache when the pixel pipe has room |
| MemoryBudget.MoreMemoryKeepsPixelpipe | src/darktable.c:2507-2511 | with more memory the pixel pipe gets at most one byte less |
| MemoryBudget.MoreMemoryCanCostOneByte | src/darktable.c:2507-2511 | and that one byte is really lost on some configuration |
| MemoryBudget.TotalIsLeastKnown | src/darktable.c:2429-2468 | the total is the least of the known limits, unless the container reports a limit of 0 and the user sets one |
| ArgvCompaction.CloseGap | src/darktable.c:1287-1299 | the arguments after a run of NULLs move down over it in order, the vacated end is NULL, everything else stays |
| ArgvCompaction.RemoveNulls | src/darktable.c:1284-1301 | argv[0] stays, the arguments that are not NULL follow in order, argc counts them, the rest up to the old argc is NULL and nothing beyond changes |
| ArgvCompaction.KeptInOrder | src/darktable.c:1284-1301 | what is kept is read off at increasing places that are all the places of an argument |
| ArgvCompaction.KeptTwice | src/darktable.c:1284-1301 | doing it again changes nothing |
| CLexer.NewlinesKept | tools/header_consumers.py:87-88 | at every place of the text as many newlines have come out as have gone in, for both strippers |
| CLexer.CodeKeepsItsLine | tools/header_consumers.py:87-89 | every character of code survives on its own line |
| CLexer.KeptInPlace | tools/check_return_types.py:47-71 | with literals kept, nothing moves: comment characters are blanked, newlines stay, everything else is unchanged |
| CLexer.StrippedTwice | tools/header_consumers.py:91-122 | stripping twice changes nothing, unterminated comments and literals included, for both strippers |
| LexerSpans.WholeLiteral | tools/header_consumers.py:105-118 | a closed literal in double or single quotes becomes the empty pair, or stays whole where literals are kept |
| LexerSpans.WholeBlockComment | tools/header_consumers.py:95-99 | a block comment becomes spaces but for its newlines |
| LexerSpans.WholeLineComment | tools/header_consumers.py:100-104 | a line comment becomes spaces |
| LexerSpans.PlainStays | tools/header_consumers.py:119-121 | text without slashes and quotes stays as it is |
| CLexer.NoSlashPair | tools/header_consumers.py:91-122 | dropping literals and blanking comments never brings two characters together that open a comment |
| LexerSpans.BlockSpan | tools/header_consumers.py:95-99 | the jump to the first closing after the opening, or to the end, covers exactly the comment |
| HeaderConsumers.ScanLiteral | tools/header_consumers.py:106-115 | the loop over a literal ends past its quote, at an unescaped newline, or at the end of the text |
| HeaderConsumers.StripNoise | tools/header_consumers.py:73-122 | the scanner does what the character automaton does, on every text |
| ReturnTypes.StripComments | tools/check_return_types.py:38-71 | so does this one, with literals kept and allowed to span lines |
| ReturnTypes.BodyOf | tools/check_return_types.py:74-91 | returns the text up to the first brace that closes the one at the start, literals skipped, and nothing when there is none |
| ReturnTypes.BodyIsNestedIff | tools/check_return_types.py:74-91 | that brace is the one for which the text between has matching braces and never closes more than it opened, and no other |
| ReturnTypes.ScanFollowsSource | tools/check_return_types.py:105-124 | on stripped text the search counts exactly the braces that are code in the source, none in a comment or a literal |
| LutLookup.LinearOnRow | data/kernels/color_conversion.h:69-71 | at the middle of a row the linear filter mixes two neighbours of that row only |
| LutLookup.ReadsSegment | data/kernels/color_conversion.h:69-78 | the fast path and the seam fallback both interpolate between two consecutive entries of the flat table |
| LutLookup.LookupMixes | data/kernels/color_conversion.h:52-82 | below 1, where x falls a share t of the way from entry k to entry k + 1, the lookup is (1 - t) times the one plus t times the other |
| LutLookup.SharesOf | data/kernels/color_conversion.h:62-64 | every input from 0 on and below 1 falls so |
| LutLookup.LookupBelowZero | data/kernels/color_conversion.h:62-64 | inputs up to 0 give the first entry |
| LutLookup.ReadsItsRowsOnly | data/kernels/color_conversion.h:66-78 | only rows 256 n to 256 n + 255 matter |
| LutLookup.LookupRises | data/kernels/color_conversion.h:52-82 | a rising table gives a rising curve that stays within its ends |
| LutLookup.LookupAtGridPoint | data/kernels/color_conversion.h:62-78 | at a grid point the entry itself comes out |
| LutLookup.UnboundedParts | data/kernels/color_conversion.h:52-82 | a negative first coefficient returns the input, inputs up to 0 the first entry, and inputs below 1 the mix of the entries around them |

## Left out

- FeedbackArc.FeedbackArcOrder: which of several sinks or sources is taken first is left open, as it is in the source, where it depends on the order of a set; when the backward edges are a minimum feedback arc set of a cyclic graph is not characterised.
- FeedbackArc.PickBack: the final sort of the backward edges by weight, and the text and ranks shown for each, are not modelled.
- Layering.CycleDetail: the sorting of cycles by size and of files by name for display, and the directory cycles, which are the same calls on another graph.
- CollectReach.Collect: the rounding of the propagation cost (the exact sum behind it is proved), the tables of headers, burden and depth, and their means and medians.
- IncludeFanIn.IncludeClosure: the table that remembers closures already computed.
- Louvain.Louvain: floating-point rounding.
- LocalOptimum.SettledIffLocallyBest: networks of 5*10^11 includes and more, where the tolerance could matter.
- ModularityReport.CollectModularity: the counts and shares reported beside the two scores; the directory of a file is any function of it.
- Winnowing.Fingerprints: a negative exponent of `pow` is taken as in Python 3.8 and later; the tokenizer and the interpreter's string hash, which is any function of the token; the reading of files and the percentages.
- Bisection.Workspace.BisectSet: the build is any fixed function of the set of stripped files; a build whose result varies from run to run, the rewriting of file contents and the rounds of blame before the bisection are not modelled.
- Bisection.AlwaysLargestIff: for one given build and more than two files, whether the answer is a largest subset by number is not characterised; independent removals are sufficient.
- SplitMix.MixIsBijective: 64-bit words are the integers below 2^64, with exclusive or defined bit by bit.
- NoiseGenerator.SpreadStaysClose: rounding; the spread is over real numbers.
- NoiseGenerator.UniformNoise: over real numbers too; assumes that the three calls in the initialiser list are made from left to right, which C does not fix; Gaussian and Poissonian noise, which need logarithms, cosines and square roots.
- Statelessness.Propagate: how definitions, calls and state are read off object files.
- MemoryBudget.Resources.ConfigureRuntimePerformance: detecting memory and reading the configuration, which are parameters; conversions to signed numbers are taken to wrap around; log output other than the two warnings.
- ArgvCompaction.RemoveNulls: the parsing that sets consumed arguments to NULL.
- ReturnTypes.BodyOf: the regular expressions that find functions and judge their return statements.
- LutLookup.LookupMixes: rounding; the power function from 1.0 on is any function of two numbers; the nearest-entry lookups beside this one.
- `derive_layering`, `compute_stability` and the other summaries of `tools/code_health.py` would only add easy members.
- `src/caches/cache.h`: its implementation is not part of this model.
