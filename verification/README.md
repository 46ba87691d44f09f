# Circuit retiming, modelled in Dafny

This project models the retiming engine of circuit-retiming, a Python implementation of
Leiserson and Saxe's retiming of synchronous circuits. It also models the graph
transformations around the engine.

A circuit is a directed graph on the nodes 0..n-1. Each wire u -> v carries a register
count `w(u,v)` (the source's `wire_delay` attribute). Each node carries a component delay.
Retiming by a lag vector r turns every wire's count into `w + r(v) - r(u)`.

The model covers these parts of the source:

- **OPT engine (`OptEngine.Opt`, src/opt/opt.py).** The candidate clocks are the sorted,
  distinct entries of D. A binary search runs over them and records each verdict in a slot
  list that it updates in place. There are two feasibility oracles:
  - the difference-constraint graph with Bellman-Ford (`Constraints`, `ShortestPaths`);
  - FEAS, which re-applies the accumulated lags to one working copy in every round.

  The CP pass updates the shared delay array in place along a topological order of the
  zero-register wires (`CriticalPath`, `Topo`). Applying lags rewrites every wire.
  `Search` models the same binary search on a fixed table of verdicts. It is the
  reference for the `is` finding below. The class itself proves that its search finds the
  least feasible candidate through `Search.FoundIsLeast`.
- **OPT1 (`Opt1Engine.Opt1`, src/opt/opt1.py).** This is the older variant as written:
  - its dict-of-dicts constraint construction raises on a missing key or a `None` clock;
  - its search moves a slot's second field into its first;
  - it takes its retimings from a fixed check at clock 13;
  - it writes `W[u][v] + r(v) - r(u)` onto a copy of the circuit.
- **WD (`WD.Wd`, src/wd/wd.py).** Every wire is weighted with the pair (w, -d(u)).
  The model covers the scalar weight `_custom_weight` and `compute_w`. It also covers
  `compute_wd`, which fills W from the all-pairs paths and prepends each source to its path.
- **Register movers (`Utilities`, `Randomizer`).** `pick_from_back` and `pick_from_front`
  in two variants: the guarded one of src/utils/utilities.py and the unguarded one of
  src/utils/randomizer.py. Each pick is proved to be a retiming of a single node, so it
  keeps every cycle's register count and never makes a wire negative.
- **Graph builders (`Generator`, src/utils/generator.py).** These are the correlator
  construction and the ring of `performance_generator`.
  - The correlator has `nodes + 1` nodes, as its doc-comment says, only for odd `nodes`.
  - For even `nodes` it has `nodes + 2` (`Generator.CorrelatorNodeCount`).

Python's behaviour is written out wherever it matters:
- exceptions are `Failure` values (`CircuitGraph.Fault`);
- negative list indices count from the end;
- floor division is used;
- a later `add_weighted_edges_from` on the same arc replaces the earlier weight;
- `is` on ints compares object identity, which CPython shares only for -5..256;
- the recursion limit is 1000.

The shortest-path search that produces the all-pairs paths in wd.py is a parameter of
`WD.Wd`. The coin flips of `node_randomizer` are a sequence of choices.

## Model

| member | source | states |
|---|---|---|
| CircuitGraph.RetimeWalkSum | src/opt/opt.py:218-222 | retiming a walk changes its register total by r(end) - r(start) only |
| CircuitGraph.RetimeCycleSum | src/opt/opt.py:218-222 | retiming preserves the register total around every directed cycle |
| CircuitGraph.RetimeZeros | src/opt/opt.py:160-163 | retiming by the zero vector leaves every wire as it was |
| CircuitGraph.RetimeTwice | src/opt/opt.py:163-173 | retiming by a and then by b is retiming once by a + b |
| CircuitGraph.RetimeLegal | src/opt/opt.py:122-124 | a retiming leaves no negative wire exactly when r(u) - r(v) <= w(u,v) on every wire |
| CircuitGraph.RetimeKeepsWires | src/opt/opt.py:218-222 | retiming keeps every wire's endpoints, its length and well-formedness |
| Candidates.SortedDistinct | src/opt/opt.py:48-55 | the result is strictly increasing, has exactly the members of the set, and has one entry per member |
| Search.BinarySearch | src/opt/opt.py:87-111 | on a fixed verdict table the search returns a feasible index whose predecessor is infeasible (or index 0), or -1 only when the last entry is infeasible |
| Search.FoundIsLeast | src/opt/opt.py:105-107 | on a monotone table, a feasible entry whose predecessor is infeasible is the least feasible entry |
| Search.SearchFindsLeast | src/opt/opt.py:76-111 | with a monotone oracle the search returns the least feasible candidate, and returns -1 exactly when none is feasible |
| Search.Halves | src/opt/opt.py:87-111 | each recursive call works on at most half of the window |
| Search.StepLeft | src/opt/opt.py:105-109 | moving to the left half keeps the window invariant and needs one call fewer |
| Search.StepRight | src/opt/opt.py:110-111 | moving to the right half keeps the window invariant and needs one call fewer |
| Search.AllInfeasibleNeverEnds | src/opt/opt.py:97-98 | with more than 257 candidates, all infeasible, the `is` test never fires and the search only ends at the recursion limit |
| Topo.FirstSource | src/opt/opt.py:194 | finds the smallest remaining node without a zero-register predecessor, or shows there is none |
| Topo.TopoOrderIsClosed | src/opt/opt.py:194-196 | a topological order lists every zero-register predecessor of a node before the node |
| Topo.Kahn | src/opt/opt.py:194 | the emitted nodes are ordered with every zero-register arc between them pointing forward; the nodes left over form a blocked set, and no zero-register arc runs from them into an emitted node |
| Topo.PrependSource | src/opt/opt.py:194 | a source followed by an order of the rest orders the whole set |
| Topo.TopoSort | src/opt/opt.py:192-196 | the nodes the sort yields form a closed prefix; every other node is left over; it completes exactly when there is no cyclic core, and then its order is a topological order; otherwise the leftover is a cyclic core |
| Topo.SortedPrefix | src/opt/opt.py:194-196 | Kahn's run on all nodes yields a closed prefix and raises exactly on a cyclic core |
| Topo.BlockedIsLargest | src/opt/opt.py:194-196 | every blocked set is left over, so the nodes the sort yields before raising do not depend on the order it picks |
| Topo.FirstListedHasNoPred | src/opt/opt.py:194-196 | in a closed prefix, the first listed member of a set has no zero-register predecessor in the set |
| Topo.CoreHasNoOrder | src/opt/opt.py:194 | no topological order exists when a blocked set exists |
| Topo.ZeroCycleIsCore | src/opt/opt.py:189-194 | the nodes of a zero-register cycle form a cyclic core |
| Topo.RetimedCoreIsCore | src/opt/opt.py:161-196 | retiming a circuit with no negative wire creates no cyclic core, so a round's sort raises only when the circuit's own does |
| Topo.ZeroCycleFailsSort | src/opt/opt.py:189-194 | a zero-register cycle makes the topological sort raise, leaving nodes over |
| ShortestPaths.PotentialBound | src/opt/opt.py:137-138 | along a walk, a potential rises by at most the walk's weight |
| ShortestPaths.SatisfiesNoNegativeCycle | src/opt/opt.py:137-143 | a graph with a potential has no negative cycle |
| ShortestPaths.Shorten | src/opt/opt.py:137-138 | without negative cycles every walk has one with the same ends, at most as many nodes as the graph and no greater weight |
| ShortestPaths.RoundExtends | src/opt/opt.py:137-138 | one relaxation round extends the bound on walks by one node |
| ShortestPaths.ViolationMeansNegativeCycle | src/opt/opt.py:141-143 | an arc that can still be relaxed after all rounds reveals a negative cycle |
| ShortestPaths.RelaxKeepsWitnessed | src/opt/opt.py:137-138 | relaxing an arc keeps every distance equal to the weight of a walk from the source |
| ShortestPaths.WitnessedPotentialIsDistance | src/opt/opt.py:137-140 | witnessed distances that form a potential are the shortest distances |
| ShortestPaths.RelaxRow | src/opt/opt.py:137-138 | relaxing a node's arcs only lowers distances, keeps them witnessed, and leaves no arc of that node relaxable against the round's start |
| ShortestPaths.RelaxRound | src/opt/opt.py:137-138 | one round leaves no arc relaxable against the distances at its start |
| ShortestPaths.IsPotential | src/opt/opt.py:141 | the final pass reports true exactly when no arc can be relaxed |
| ShortestPaths.BellmanFord | src/opt/opt.py:137-143 | ok exactly when there is no negative cycle; then the source is at 0, the distances form a potential, and each is the shortest distance |
| Constraints.Empty | src/opt/opt.py:119-120 | a square graph of the given size with no arcs |
| Constraints.AddWeighted | src/opt/opt.py:123-129 | adding arcs keeps the graph square |
| Constraints.AddWeightedAt | src/opt/opt.py:123-129 | each entry holds the last weight added for it, or its old value |
| Constraints.LastWeightAppend | src/opt/opt.py:123-129 | in two batches of arcs, the second batch's weight wins |
| Constraints.RowArcsContents | src/opt/opt.py:126-129 | a source's row holds exactly the arcs target -> src weighted W - 1 whose D entry exceeds the clock |
| Constraints.ProductArcsContents | src/opt/opt.py:126-129 | the pair loop adds exactly the arcs b -> a of weight W[a][b] - 1 with D[a][b] above the clock, u = v included |
| Constraints.LastWeightUniform | src/opt/opt.py:126-129 | a uniform weight is recorded exactly when its arc is present |
| Constraints.ConstraintGraph | src/opt/opt.py:119-135 | the constraint graph has the n circuit nodes plus the extra node |
| Constraints.EdgeArcsAt | src/opt/opt.py:123-124 | the arc v -> u of the first kind carries the count of the wire u -> v |
| Constraints.ConstraintGraphAt | src/opt/opt.py:119-135 | every entry is the closed-form weight: pair constraints replace wire constraints on the same arc, and the extra node reaches every node with 0 |
| Constraints.ConstraintGraphShaped | src/opt/opt.py:119-135 | the graph built list by list has the closed-form entries |
| Constraints.ExtraNodeIsSource | src/opt/opt.py:130-135 | nothing enters the extra node, and it reaches every circuit node by a 0-weight arc |
| Constraints.ConstraintsMeaning | src/opt/opt.py:122-135 | a distance vector is a potential exactly when its lags meet every clock constraint |
| Constraints.FeasibleHasNoNegativeCycle | src/opt/opt.py:137-143 | constraints that can be met mean no negative cycle |
| Constraints.ConstraintsAreLegal | src/opt/opt.py:122-129 | with W at most each wire's count, lags meeting the constraints leave no negative wire |
| Constraints.ClockFeasibleMonotone | src/opt/opt.py:125-129 | a feasible clock stays feasible when lengthened, so the search's oracle is monotone |
| Constraints.LargestClockFeasible | src/opt/opt.py:125-129 | with non-negative counts, the largest D entry is a feasible clock |
| Constraints.SolveConstraints | src/opt/opt.py:119-143 | feasible exactly when the constraints can be met; then the lags meet them, are at most 0 and are the distances from the extra node; None otherwise |
| CriticalPath.BestPred | src/opt/opt.py:200-207 | the chosen predecessor is a node index |
| CriticalPath.BestPredIsBest | src/opt/opt.py:200-207 | the chosen predecessor is a zero-register predecessor of v, and none has a larger delay |
| CriticalPath.MaxPredIsPredDelay | src/opt/opt.py:205-207 | the largest predecessor delay is what CP adds, or 0 with no predecessor |
| CriticalPath.BestPredFrame | src/opt/opt.py:200-207 | the choice depends only on the predecessors' entries |
| CriticalPath.StepFrame | src/opt/opt.py:196-207 | along a closed prefix, updating a node changes nothing CP adds to the nodes already handled |
| CriticalPath.CPStep | src/opt/opt.py:196-207 | one step of the loop extends the handled prefix |
| CriticalPath.CPDone | src/opt/opt.py:196-208 | after a whole topological order, every entry is its base plus its largest zero-register predecessor's final entry |
| CriticalPath.CPDominatesWalks | src/opt/opt.py:196-207 | along a zero-register walk CP's result grows at least by the base delays |
| CriticalPath.CPAttained | src/opt/opt.py:196-207 | every node's result is attained by a zero-register walk from a source |
| CriticalPath.CPIsLongestPath | src/opt/opt.py:177-208 | CP's result at v is the largest delay total over zero-register walks from a source to v |
| CriticalPath.FixpointsAgree | src/opt/opt.py:196-207 | two fixpoints over the same base agree on every node of a topological order's prefix |
| CriticalPath.CPFixpointUnique | src/opt/opt.py:177-208 | without zero-register cycles, CP's result is determined by the array it starts from |
| CriticalPath.MaxOf | src/opt/opt.py:208 | the maximum is an entry and no entry exceeds it |
| OptEngine.PyIndex | src/opt/opt.py:101-106 | a Python index in range maps to i or i + len; anything else is an IndexError |
| OptEngine.Exceeds | src/opt/opt.py:169 | the entry is 1 exactly where the delay exceeds the clock, else 0 |
| OptEngine.Diagonal | src/opt/opt.py:33 | the component delays are the diagonal of D |
| OptEngine.TableMonotone | src/opt/opt.py:76-111 | over increasing candidates the feasibility table is monotone when W is at most every wire's count |
| OptEngine.Table | src/opt/opt.py:65 | the table of which candidates admit a retiming |
| OptEngine.InCandidates | src/opt/opt.py:48-55 | every entry of D is a candidate |
| OptEngine.LastCandidateFeasible | src/opt/opt.py:48-55 | with non-negative counts the last candidate is feasible |
| OptEngine.Opt.constructor | src/opt/opt.py:14-26 | no delay array, clock 0, no candidates, an empty retiming dict, no oracle |
| OptEngine.Opt.CreateDRange | src/opt/opt.py:48-55 | strictly increasing and holding exactly the entries of D |
| OptEngine.Opt.ApplyRetiming | src/opt/opt.py:210-222 | every wire becomes w + r(v) - r(u), computed from its own count before the update |
| OptEngine.Opt.MaxPredDelay | src/opt/opt.py:200-207 | the largest delay among v's zero-register predecessors, or none |
| OptEngine.Opt.RaiseNode | src/opt/opt.py:205-207 | v's entry grows by its largest predecessor entry; nothing else changes |
| OptEngine.Opt.Propagate | src/opt/opt.py:196-207 | along a closed prefix, each listed node's entry becomes its old entry plus its largest zero-register predecessor's final entry; the other entries stay |
| OptEngine.Opt.SortAndPropagate | src/opt/opt.py:189-207 | the sort completes exactly without a cyclic core; the array is then at CP's fixpoint over its old values, and otherwise the nodes yielded before the raise have been updated and the rest kept |
| OptEngine.Opt.ClockPeriod | src/opt/opt.py:177-208 | on success the array is at the fixpoint and the result is its maximum; on a zero-register cyclic core it raises after updating the nodes the sort yielded; on an empty circuit it raises with the array unchanged |
| OptEngine.Opt.BellmanFordChecker | src/opt/opt.py:113-143 | the verdict is whether the clock admits a retiming; the lags then meet every constraint and are the distances from the extra node |
| OptEngine.Opt.Reapply | src/opt/opt.py:163-173 | re-applying the accumulated lags to the drifted working copy retimes the circuit by drift + total |
| OptEngine.Opt.FeasRound | src/opt/opt.py:161-171 | one round: the copy drifts by the total, the delay array becomes CP's fixpoint of the copy over its old values, and exactly the nodes whose new delay exceeds the clock get 1 added to their lag; on a zero-register cycle the yielded nodes are updated before the raise |
| OptEngine.Opt.AddNothing | src/opt/opt.py:169-171 | skipping the addition when no delay exceeds the clock gives the same lags as adding the zero vector |
| OptEngine.Opt.TraceStep | src/opt/opt.py:161-171 | a further round (the copy's sort completes, CP runs over the last array, the totals grow by the nodes above the clock) extends the recorded rounds |
| OptEngine.Opt.TracesAgree | src/opt/opt.py:160-171 | two recordings from the same starting array agree round by round |
| OptEngine.Opt.FeasTraceDetermined | src/opt/opt.py:160-171 | the rounds are determined by the clock and the starting delay array |
| OptEngine.Opt.TracedRound | src/opt/opt.py:161-171 | one round as `FeasRound` states it, appended to the recorded rounds |
| OptEngine.Opt.RoundCount | src/opt/opt.py:161 | n - 1 rounds for n nodes, none for an empty circuit |
| OptEngine.Opt.FeasRounds | src/opt/opt.py:160-171 | after the rounds the trace starts at the delay array the call found and ends at the current one, the lags are its last totals, each in [0, n-1], and the copy is retimed by its last drift; a round fails only with a combinational cycle, on a retimed copy that has a cyclic core, and always does on a cyclic circuit; with no negative wire it fails exactly on a cyclic circuit |
| OptEngine.Opt.FeasChecker | src/opt/opt.py:145-175 | lags in [0, n-1]; every round is recorded from the delay array the call found, the lags are the last round's totals, and the verdict is that every entry of CP's fixpoint of the last retiming, over the last round's array, is at most the clock; it fails on an empty circuit (EmptyMax) or a cyclic one (CombinationalCycle) and with no other fault, and with no negative wire it succeeds on every non-empty acyclic circuit |
| OptEngine.Opt.LastPass | src/opt/opt.py:173-174 | the copy is retimed by drift + total; on success CP's fixpoint over the array it found, with no cyclic core, and the maximum; it raises on an empty circuit or exactly on a cyclic core of the copy |
| OptEngine.Opt.Check | src/opt/opt.py:37-40 | the selected oracle's report is sound; under Bellman-Ford it is exact and leaves the delay array alone |
| OptEngine.Opt.Probe | src/opt/opt.py:88-103 | the probed slot becomes (clock, verdict, lags) and no other slot changes |
| OptEngine.Opt.ProbePredecessor | src/opt/opt.py:101-106 | the predecessor slot is probed only when unexplored, and the result tells whether it holds False |
| OptEngine.Opt.ProbeMid | src/opt/opt.py:87-91 | the middle slot is probed and recorded, with Python indexing |
| OptEngine.Opt.SearchStep | src/opt/opt.py:87-111 | stops only on a reportable slot, otherwise recurses on a half that needs one call fewer; clocks are never changed |
| OptEngine.Opt.AfterFeasibleMid | src/opt/opt.py:100-109 | after a feasible middle slot: stop when its predecessor holds False, otherwise go left |
| OptEngine.Opt.BinarySearch | src/opt/opt.py:76-111 | reports (True, lags) only from a feasible slot whose predecessor holds False, and (False, None) only from an infeasible last slot; it ends within the recursion limit |
| OptEngine.Opt.FindRetiming | src/opt/opt.py:65-68 | under Bellman-Ford with a monotone table it reports the least feasible candidate's lags, or (False, None) when none exists |
| OptEngine.Opt.Install | src/opt/opt.py:67-73 | records and applies the lags (None raises on a circuit with a wire) and records CP's clock period |
| OptEngine.Opt.SearchMinClock | src/opt/opt.py:57-74 | the circuit ends retimed by the lags found, and the minimum clock is CP's maximum of the retimed circuit |
| OptEngine.Opt.Prepare | src/opt/opt.py:33-40 | the delay array is a fresh copy of D's diagonal, the candidates come from D, and the oracle is selected |
| OptEngine.Opt.Run | src/opt/opt.py:27-46 | under Bellman-Ford the circuit ends retimed for the least feasible candidate with no negative wire; it fails exactly on a zero-register cycle |
| OptEngine.Opt.FoundSettles | src/opt/opt.py:57-74 | what the search leaves is the promised outcome when some candidate is feasible |
| OptEngine.Opt.OptimalSettles | src/opt/opt.py:67-70 | the least feasible candidate's lags leave no negative wire |
| Opt1Engine.Dense | src/opt/opt1.py:89-92 | the dict of dicts read as an n x n matrix |
| Opt1Engine.DRange | src/opt/opt1.py:27-38 | strictly increasing and holding exactly the values of the dict-of-dicts D |
| Opt1Engine.PairRowMeaning | src/opt/opt1.py:89-92 | a row that raises nothing adds the matrix construction's arcs |
| Opt1Engine.PairRowTotal | src/opt/opt1.py:89-92 | total tables and a numeric clock raise nothing in a row |
| Opt1Engine.PairArcsMeaning | src/opt/opt1.py:89-92 | the pair arcs, when nothing raises, are the matrix construction's |
| Opt1Engine.PairArcsTotal | src/opt/opt1.py:89-92 | total tables and a numeric clock raise nothing |
| Opt1Engine.NoneRowFails | src/opt/opt1.py:92 | comparing with the clock None raises at the first pair |
| Opt1Engine.NoneClockFails | src/opt/opt1.py:92 | checking the clock None raises TypeError once there is a node |
| Opt1Engine.NoneStaysFailed | src/opt/opt1.py:92 | once the first source's row raises, the whole loop raises |
| Opt1Engine.RegistersAgainstRetime | src/opt/opt1.py:111-113 | each written count differs from the retimed wire's own count by W[u][v] - w(u,v), and counts are written exactly when W has every wire |
| Opt1Engine.PathRegistersMisreported | src/opt/opt1.py:112 | a concrete circuit whose wire 0 -> 1 is written with 0 registers although retiming keeps its 2 |
| Opt1Engine.Opt1.constructor | src/opt/opt1.py:11-18 | clock 0, no candidates, an empty retiming dict |
| Opt1Engine.Opt1.CheckClockFeasibility | src/opt/opt1.py:76-106 | raises exactly when the pair loop does; otherwise the verdict is whether the clock admits a retiming, with lags meeting every constraint, or None |
| Opt1Engine.Opt1.Probe | src/opt/opt1.py:57-63 | an index outside the list raises with the list unchanged; slot mid becomes (its old second field, the verdict of its clock); when the predecessor's second field is then None, slot mid becomes (that verdict, the predecessor's verdict); a raising check stops with the writes made so far; no other slot changes and no second field becomes an int |
| Opt1Engine.Opt1.BinarySearchRecursive | src/opt/opt1.py:53-74 | False when start > end; True only after a won probe, and then the recorded clock is that slot's first field, which is not an int |
| Opt1Engine.Opt1.SearchMinClock | src/opt/opt1.py:40-51 | the retimings are those of the check at clock 13, whatever the search found; min_clock is left alone or ends up a non-integer |
| Opt1Engine.Opt1.ApplyRetiming | src/opt/opt1.py:108-113 | lag is the retiming of each node; registers is W[u][v] + r(v) - r(u); raises on a missing key or None, exactly when a lookup fails, with registers unchanged |
| Opt1Engine.Opt1.Opt | src/opt/opt1.py:20-25 | candidates from D, retimings from clock 13, counts written with W as base; the min_clock it prints is the old one or a non-integer |
| Utilities.MinWhereIsMin | src/utils/utilities.py:34-36 | None exactly when no wire enters (leaves) x; otherwise a count that no such wire undercuts |
| Utilities.Moved | src/utils/utilities.py:35-37 | the number of registers moved is never negative |
| Utilities.BackIsRetime | src/utils/utilities.py:29-43 | `pick_from_back` is the retiming of x alone by minus the amount moved (a self-loop keeps its count) |
| Utilities.FrontIsRetime | src/utils/utilities.py:46-60 | `pick_from_front` is the retiming of x alone by the amount moved |
| Utilities.BackLowersToNonNegative | src/utils/utilities.py:36-43 | every lowered wire stays at least 0, and the endpoints are kept |
| Utilities.FrontLowersToNonNegative | src/utils/utilities.py:53-60 | every lowered wire stays at least 0, and the endpoints are kept |
| Utilities.ShiftInPass | src/utils/utilities.py:38-40 | every wire entering x gains k, computed from the counts at the start of the pass |
| Utilities.ShiftOutPass | src/utils/utilities.py:41-43 | every wire leaving x gains k |
| Utilities.MinRegisters | src/utils/utilities.py:34-36 | the smallest count on the wires entering (leaving) x, or None |
| Utilities.PickFromBack | src/utils/utilities.py:29-43 | the array becomes `Back` of its old contents |
| Utilities.PickFromFront | src/utils/utilities.py:46-60 | the array becomes `Front` of its old contents |
| Utilities.PickIsRetime | src/utils/utilities.py:10-16 | either pick is a retiming |
| Utilities.PickEndsBelow | src/utils/utilities.py:38-43 | either pick keeps every wire's endpoints |
| Utilities.PickKeepsNonNegative | src/utils/utilities.py:36-43 | either pick leaves no negative wire |
| Utilities.RandomizedEndsBelow | src/utils/utilities.py:20-26 | randomizing keeps every wire's endpoints |
| Utilities.RandomizedKeepsNonNegative | src/utils/utilities.py:20-26 | randomizing leaves no negative wire |
| Utilities.RandomizedIsRetime | src/utils/utilities.py:10-26 | randomizing is a retiming |
| Utilities.RandomizedKeepsCycles | src/utils/utilities.py:10-16 | randomizing keeps the register total around every directed cycle |
| Utilities.NodeRandomizer | src/utils/utilities.py:20-26 | each node gets the pick its choice names, and the same array is returned |
| Randomizer.PickFromBack | src/utils/randomizer.py:18-26 | fails exactly when no wire enters x, leaving the wires alone; otherwise `Back` |
| Randomizer.PickFromFront | src/utils/randomizer.py:29-37 | fails exactly when no wire leaves x, leaving the wires alone; otherwise `Front` |
| Randomizer.PickKeepsSides | src/utils/randomizer.py:19-26 | a pick keeps which wires touch each node |
| Randomizer.RandomizedSides | src/utils/randomizer.py:6-15 | the picks keep which wires touch each node |
| Randomizer.StrictIsRandomized | src/utils/randomizer.py:6-15 | the unguarded run completes exactly when every node has a wire on its chosen side, and then equals the guarded run |
| Randomizer.StopsAt | src/utils/randomizer.py:8-12 | a node without a wire on its chosen side stops the run after the guarded picks |
| Randomizer.NodeRandomizer | src/utils/randomizer.py:6-15 | succeeds exactly when the guarded run does, leaving its result; otherwise fails at a node j with no wire on the chosen side, the picks for nodes before j in place |
| Generator.DistinctCons | src/utils/generator.py:28-30 | a wire in front of distinct wires keeps them distinct exactly when its pair is new |
| Generator.AddArcMeaning | src/utils/generator.py:28-30 | after `add_edge` the graph holds the new wire and every wire on another pair, with no pair twice |
| Generator.RoundsMeaning | src/utils/generator.py:34 | the loop runs while 2k + 3 < nodes |
| Generator.DelayRound | src/utils/generator.py:35 | a round adds delays 3 and 7 |
| Generator.DelayTail | src/utils/generator.py:43 | the tail adds the last node with delay 7 |
| Generator.LoopArcNext | src/utils/generator.py:36-39 | a round adds exactly its three wires |
| Generator.AddThree | src/utils/generator.py:36-39 | adding three wires on three pairs keeps the others and no pair twice |
| Generator.BaseTriangle | src/utils/generator.py:24-32 | the base triangle is the graph of no rounds |
| Generator.LoopRound | src/utils/generator.py:34-41 | one round turns the graph of k rounds into that of k + 1 |
| Generator.Tail | src/utils/generator.py:43-46 | the tail turns the loop's graph into the correlator |
| Generator.CorrelatorRounds | src/utils/generator.py:24-41 | after the loop: up = 2k + 2, down = 2k + 1, the delays and exactly the loop's wires |
| Generator.GenerateFromCorrelator | src/utils/generator.py:7-48 | 2 * rounds + 4 nodes, delay 7 on even nodes from 2 and on the last node and 3 elsewhere, and exactly the correlator's wires |
| Generator.CorrelatorNodeCount | src/utils/generator.py:14-34 | the correlator has nodes + 1 nodes for odd nodes and nodes + 2 for even |
| Generator.SetRegisters | src/utils/generator.py:108 | every wire is kept with its count set |
| Generator.KeepOne | src/utils/generator.py:104-105 | keeping one more wire keeps the kept pairs distinct |
| Generator.RingRegisters | src/utils/generator.py:103-108 | the kept wires with one register each are exactly the ring |
| Generator.PerformanceGenerator | src/utils/generator.py:95-108 | fails exactly for no nodes; otherwise nodes 0..n-1 with delay 3 and exactly the wires i -> (i+1) mod n with one register |
| WD.WeightsOfArcs | src/wd/wd.py:49-50 | the weighted graph has exactly the circuit's wires as arcs |
| WD.WeightsOfValues | src/wd/wd.py:42-51 | each arc is weighted (w, -d(u)) |
| WD.WeightsOfSources | src/wd/wd.py:42-49 | the second component is minus the source's delay |
| WD.CustomWeightNonNegative | src/wd/wd.py:61-62 | the scalar weight is non-negative for non-negative counts, delays and M |
| WD.FewerRegistersNeverHeavier | src/wd/wd.py:53-62 | with delays at most M, fewer registers never weigh more |
| WD.LowerDelayLighter | src/wd/wd.py:53-62 | at equal registers the lower delay is lighter, contrary to the doc-comment |
| WD.RankedHigherDelayLighter | src/wd/wd.py:53-62 | at equal registers the ranked weight makes the higher delay lighter, as the doc-comment intends |
| WD.PathCostSplit | src/wd/wd.py:61-70 | a path's weight is registers * M + M per arc + its delay |
| WD.AsWrittenMisranks | src/wd/wd.py:61-70 | a concrete graph where the shortest path under the scalar weight has more registers than another path |
| WD.RankedCostSplit | src/wd/wd.py:61-62 | a path's ranked weight is registers * S + M per arc - its delay |
| WD.PathDelayWithin | src/wd/wd.py:39 | a path's delay is between 0 and M per arc |
| WD.RankedPrefersFewerRegisters | src/wd/wd.py:53-62 | under the ranked weight, a path with fewer registers is strictly lighter |
| WD.RankedWeightNonNegative | src/wd/wd.py:61-62 | the ranked weight is non-negative |
| WD.ComputeWIsRegisters | src/wd/wd.py:86-92 | along a path of the weighted graph, `compute_w` is the register count |
| WD.ComputeWNonNegative | src/wd/wd.py:92 | `compute_w` is non-negative for non-negative counts |
| WD.SourceTwice | src/wd/wd.py:79-92 | prepending the source adds only a self-loop's count, so W[u][u] is 0 without one |
| WD.PutKeeps | src/wd/wd.py:76-80 | setting one entry keeps every other entry |
| WD.FillWKeeps | src/wd/wd.py:74-80 | an entry no listed pair names is left as it was |
| WD.FillWListed | src/wd/wd.py:74-80 | every listed pair holds `compute_w` of its path with the source in front |
| WD.FillWOnly | src/wd/wd.py:74-80 | W gains only listed pairs |
| WD.PrependTargets | src/wd/wd.py:79 | one prepended path per target |
| WD.PrependAll | src/wd/wd.py:79 | one prepended row per source |
| WD.FillWAppend | src/wd/wd.py:74-80 | two runs of entries are one run after the other |
| WD.FillTargetsIsFillW | src/wd/wd.py:75-80 | the inner loop goes through the entries of its row |
| WD.FillAllIsFillW | src/wd/wd.py:74-80 | the nested loops go through every entry in order |
| WD.FillAllMeaning | src/wd/wd.py:74-80 | W holds `compute_w` for every listed pair and nothing beyond its old entries and those pairs |
| WD.PutAfterCreate | src/wd/wd.py:76-80 | creating the inner dict and then setting the entry is one update |
| WD.FillRow | src/wd/wd.py:75-80 | the inner loop for one source fails as `FillTargets` does, or yields its W and the prepended paths |
| WD.Wd.constructor | src/wd/wd.py:13-17 | empty W and D, no arcs weighted |
| WD.Wd.WeightEdges | src/wd/wd.py:29-51 | fails on no nodes; otherwise M is the largest delay and exactly the wires are weighted (w, -d(u)) |
| WD.Wd.ComputeRow | src/wd/wd.py:75-80 | one source's loop, written back to W and the paths |
| WD.Wd.ComputeWd | src/wd/wd.py:72-83 | W becomes the result of the nested loops, the paths get their sources prepended, and D is unchanged |
| WD.Wd.Compute | src/wd/wd.py:20-27 | fails on no nodes; otherwise succeeds exactly when every `compute_w` of the nested loops does, failing with the first one's fault; on success M, the weighted arcs, W and the prepended paths |

## Left out

- `functools.lru_cache` on `_feas_checker` and `_clock_period` is not modelled; every call recomputes. The cache is keyed on the object and the graph object, and `_apply_retiming` changes the graph in place. So within one `_feas_checker` call, from the second round on, `_clock_period` returns the pair cached by the first round without running CP: every later round adds the first round's excess vector again, and the verdict is the first pass's maximum. A repeated clock also returns the first verdict for it.
- OptEngine.Opt.FeasChecker: runs CP in every round and in the last pass, as the code reads without the cache. It does not capture the source's cached rounds described in the line above.
- The networkx algorithms are foreign calls. The topological sort and Bellman-Ford are re-implemented (`Topo.TopoSort`, `ShortestPaths.BellmanFord`) and specified by their postconditions. networkx may visit a different topological order; `CriticalPath.CPIsLongestPath` shows that CP's result is the same for every order, and `Topo.BlockedIsLargest` that the nodes yielded before a raise are the same. The order in which the partial pass visits those nodes is not modelled further.
- `nx.all_pairs_dijkstra_path` is not modelled; its paths are a parameter of `WD.Wd`. The consequences of its weight are proved as lemmas about path costs.
- The coin flips of both `node_randomizer`s are a sequence of choices. `random_generator` is left out because it is random throughout.
- File and graph I/O (`load_graph`, `read_dot`, `write_dot`), printing, timing and profiling are left out, as are src/utils/read_dot.py, run.py, draw.py and src/retimer/retimer.py.
- Node names and attribute values are integers, not strings, so the string-to-int conversions are left out. The correlator stores decimal strings, which is not modelled.
- The oracle selector `optimizer is "opt1"` is the enum `OptEngine.Algorithm`: "opt1" selects Bellman-Ford.
- The order in which a DiGraph lists its wires is not modelled: the generators state which wires exist, not their order.
- OptEngine.Opt.SearchStep: tests the last index with `==`, not with the identity test `is`. The `is` behaviour is modelled separately in `Search.SearchAsWritten`.
- OptEngine.Opt.FeasChecker: does not claim that the verdict equals the constraint-graph feasibility. The working copy is retimed by the running sum of every round's totals, not by the final total, and CP's delay array accumulates across passes and calls. The contract states what the verdict is computed from instead: the whole chain of rounds (`OptEngine.Opt.FeasTrace`) from the array the call found, then CP of the circuit retimed by the last drift plus the last totals, over the last round's array. `CriticalPath.CPFixpointUnique` shows that CP's fixpoint is determined by its base on an acyclic circuit, and `OptEngine.Opt.FeasTraceDetermined` that the rounds, and so the final lags, are determined by the clock and the starting array.
- OptEngine.Opt.ClockPeriod: the delay array is a numpy int64 array, so its sums wrap around past 2^63. Every pass adds into the same array, so its entries can grow without bound over many passes. The model's unbounded integers do not show the wrap-around, nor a verdict that it would flip.
- OptEngine.Opt.FeasChecker: `total_retimings` and the comparison `clock_threshold <= clock` are on int64 values in the source; the model does not capture their wrap-around.
- OptEngine.Opt.ClockPeriod: `nx.to_numpy_array` numbers the nodes by their position in the graph's node list, and CP indexes the delay array by that position. The model assumes node i is the i-th listed node, as it is for graphs built on nodes 0..n-1 in order; graphs read with the nodes in another order are not modelled.
- Utilities.NodeRandomizer: visits the nodes in the order 0..n-1; the source iterates `graph.nodes` in list order, and picks on adjacent nodes do not commute, so another list order is not modelled.
- Randomizer.NodeRandomizer: visits the nodes in the order 0..n-1, for the same reason as the line above.
- OptEngine.Opt.FindRetiming: states optimality only under the Bellman-Ford oracle, because FEAS verdicts depend on the shared delay array's history.
- OptEngine.Opt.Run: states optimality only when W is at most every wire's own count and the search depth fits the recursion limit. W computed by WD need not meet the first condition: prepending the source counts a self-loop's registers again (`WD.SourceTwice`), so a node with a registered self-loop can get a W entry above the count of its outgoing wire.
- The source's test scripts are not modelled. This includes the end-to-end claims about randomized circuits and about the correlator clocks 13 and 14, which need the Dijkstra paths that are a parameter here.
- WD.Wd.ComputeRow: when `compute_w` raises part-way through the row, the W entries and prepended paths left behind are not stated; only the failure is.
- WD.Wd.ComputeWd: when a row raises, the rows already written and the paths already prepended are not stated; only the failure is.
- WD.Wd.WeightEdges: `weighted` becomes the new weights; a second call in the source would add to the existing weighted graph. The model starts from the constructor's empty graph.
- The retiming dict of OPT1 is a sequence indexed by node, or None; a dict missing a node is `KeyMissing` (`Opt1Engine.NodeLags`).
- `binary_search_test.py` calls a method OPT1 does not have, and is not modelled.

## Findings

| source | as written | input that shows it | evidently intended | confidence | as-written member | corrected member |
|---|---|---|---|---|---|---|
| src/opt/opt.py:97 | `mid is len(clocks) - 1` compares object identity, which CPython shares only for -5..256 | 258 or more candidates, none feasible: the test never fires and the search recurses until the recursion limit | `==`, ending the search with (False, None) | not executed | Search.AllInfeasibleNeverEnds | Search.SearchFindsLeast |
| src/wd/wd.py:61-62 | the scalar weight `w*M + M + d(u)` adds M per arc, so a longer register-free path can outweigh a shorter path with registers | delays 1, wires 0 -> 1 and 1 -> 2 with 0 registers, 0 -> 2 with 1: the path 0 -> 1 -> 2 weighs 4 and 0 -> 2 weighs 3, so W[0][2] comes out 1 | W[u][v] is the minimum register count over paths (registers ranked first) | not executed | WD.AsWrittenMisranks | WD.RankedPrefersFewerRegisters |
| src/wd/wd.py:55-62 | the weight is `w*M + (M - (-d(u)))`, that is `w*M + M + d(u)`, so at equal registers the higher delay is heavier | two wires with equal registers from sources of delay 1 and 2, M = 2: weights 3 and 4, so the lower delay wins | the highest delay, as the doc-comment of `_custom_weight` says | not executed | WD.LowerDelayLighter | WD.RankedHigherDelayLighter |
| src/opt/opt1.py:112 | the retimed count is `W[u][v] + r(v) - r(u)`, with W as its base | wire 0 -> 1 with 2 registers, and 0 -> 2 and 2 -> 1 with none; with zero lags 0 -> 1 is written with 0 registers | the wire's own count `w(u,v) + r(v) - r(u)` | not executed | Opt1Engine.PathRegistersMisreported | OptEngine.Opt.ApplyRetiming |
| src/opt/opt1.py:59-68 | the probe writes `(array[mid][1], feasible)`, moving the old verdict into the clock field, and `min_clock` then records that field | any search that returns True records None or a bool as the clock | the slot keeps its clock and `min_clock` is that clock | not executed | Opt1Engine.Opt1.BinarySearchRecursive | OptEngine.Opt.BinarySearch |

The corrected weight of the second and third findings is not used elsewhere in the model, because the
all-pairs paths are a parameter.
