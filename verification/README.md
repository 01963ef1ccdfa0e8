# Verification of the causal root-cause engine

This Dafny project models the graph searches, the structural causal models, the linear algebra, and the
small state machines and statistics of the engine, and proves what they are for. `dafny verify dfyconfig.toml`
checks all of it.

The model follows the code in its own form. Searches that share a visited table, graph objects whose fields
are overwritten, the in-place solver and insertion sort, the cache, the rate limiter, the calibration store
and the online variance are classes, arrays and loops; each is proved against a specification function or
relation, and the theorems are about those. `float64` is modelled as exact reals. Go map iteration is an
arbitrary choice at every step, so every result holds for every order. A mutex-protected method is one
atomic step. A square root is a parameter that is known only through its square, or any function at all.

## Where things are

- `Digraph`, `DSepTheory`, `DSeparation`, `AdjustmentSet`, `ConditioningMaps`: walks and ancestry; d-separation
  as the search and as Pearl define it; the search itself; the adjustment-set search on top of it; what false
  entries in a conditioning map do.
- `RealArith`, `Statistics`, `LinearAlgebra`, `Gauss`, `RidgeFit`: products, sums and inner products; the
  in-place solver; the ridge fit.
- `Ids`, `Kahn`, `Timestamps`, `Distances`, `EvidenceChain`, `QueuePropagation`, `RootCause`, `CausalBuilder`:
  ID order and topological order; depth timestamps; shortest paths; load propagation over all simple paths;
  backward root search; chain expansion and conflict resolution.
- `ScmSemantics`, `ScmGraph`, `Explainer`, `WhatIf`, `Agent`, `Converters`, `DoOperators`,
  `EdgeOrder`, `BackdoorEffect`:
  what a counterfactual means; the graph objects; the three implementations; the conversions between them;
  their agreement; the effect estimate.
- `MemoryLru`, `RateLimiter`, `RankInstability`, `Calibration`, `Welford`: the state machines and statistics.

## Main results

- The (node, previous node) search explores walks and remembers pairs, yet on conditioning maps whose entries
  are all true it decides Pearl's d-separation over simple paths on every DAG whose names are non-empty, and
  only on those. On maps with false entries too, it does so exactly on those of them where any two parents of
  a node with a child are adjacent.
- The adjustment-set search passes its sufficiency check exactly when the target is neither a descendant nor
  a parent of the source, and what it then keeps is inclusion-minimal.
- The in-place solver returns a given solution of any system exactly when that solution is zero at every tiny
  final pivot, and so returns a solution at all exactly when there is such a one; where all entries are tiny
  it returns zeros, and so misses every solvable system of this kind but the homogeneous ones.
- The ridge penalty keeps every pivot of the solver above its floor, so with fewer than 10^16 parents
  the fitted function is the unique ridge optimum for every dataset, and the solver's fallback is never used by the fit.
- On an acyclic graph whose edges list every node's in-edges in the ID order of their tails, the three
  do-operators agree at every node. Without that order the what-if engine and the agent still agree with each
  other, and the explanation phase always agrees with them exactly when no function tells ID order from edge
  order; for linear functions, exactly when every parent has the same coefficient in both orders. The bridge
  sorts the parents but not the edges, and it does build graphs that fail this (`EdgeOrder.BridgeCanDisagree`).
- Consistency of the first holds exactly when no function notices the reordering of its inputs; effectiveness
  and locality hold on graphs with cycles elsewhere.
- The effect estimate for linear functions is the path-coefficient sum, with no variance between samples, exactly
  when the observations of the cause differ enough, and zero when they do not.
- Load propagation terminates on cyclic graphs and its last hop, the distance table and the evidence path
  measure one shortest path; 0.6 of what an overloaded node cannot serve arrives at the next, so more load at the
  root never means less downstream; the root search finds exactly the sources it should and ranks them by
  distance, load and signal.
- Expansion and conflict resolution turn an acyclic graph into an in-tree without losing a source, and neither
  signs nor a common scale of the strengths decide what is kept.
- A small cache is always inside a larger one; without eviction the rate limiter lets a call through exactly
  when every window that ends with it stays within budget, and its eviction of idle buckets is harmless exactly when
  the burst refills within the idle limit; the rank measure never needs its clamp on duplicate-free lists, and
  with repeated members exactly on lists of length two;
  calibration error squared is at most the Brier score; one outlier has a bounded influence exactly when
  the accepted samples before it were not all equal.

## Where the code and its comments differ

The model follows the code in each case.

- The adjustment-set comment speaks of back-door paths (`d_separation.go:40-45`), but the check is full
  d-separation; for a target downstream of the source it never passes and all parents are returned
  (`AdjustmentSet.AdjustForEffect`).
- Ancestors are taken of every key of the conditioning map, keys with value false included
  (`d_separation.go:214-220`), while a node counts as conditioned only when its value is true. Such a key can
  open a collider; none ever changes an answer exactly when any two parents of a node with a child are
  adjacent (`ConditioningMaps.FalseKeysIdleIff`). The package's own callers pass only true values.
- The empty node name doubles as the marker for the start of the search (`d_separation.go:139`); on graphs
  with such a node the search is wrong for some query (`DSeparation.AlwaysPearlIff`). An edge into such a
  node can then be reported as spurious although its ends are adjacent.
- Phase 4 and phase 5 graphs are said to have identical structure (`converters.go:203`); the conversion lists
  the parents in edge order, while the functions were fitted to sorted parents (`EdgeOrder.AlwaysAgreeIff`).
- Unresolved nodes are said to get depth 0 (`causal_enricher.go:114-115`); they keep the depth that their
  resolved predecessors gave them, which is 0 exactly when they have none (`Timestamps.DepthZeroIff`).
- The nodes left over by a cycle are said to be appended in sorted-ID order (`explainer.go:49-51`); `topoOrder`
  appends them in map order. The agent's `topo` does sort them.
- The temporal check is said to reject a predecessor that is not earlier (`queue_propagator.go:317`); the code
  rejects only a later one.
- A physically valid chain is said to respect time at every hop (`queue_propagator.go:82`); the code sets the
  flag when the target is reached, whatever the hops say. The promise holds for all chains exactly when no
  edge runs backwards in time (`QueuePropagation.ValidChainsTimedIff`). Equal timestamps count as ordered
  (`queue_propagator.go:159`), although the comments at lines 25 and 70 ask for strictly earlier causes.
- Strength is said to fall by the decay to the power of the hop number at every hop (`queue_propagator.go:29`); it
  falls by the decay itself. Overload is said to boost a score in proportion to the excess load (line 341); the
  factor is the whole load. A network signal is said to boost upstream neighbors (lines 349-350); it boosts the
  root's own score.
- The effect estimate is described as a difference between plus and minus one deviation
  (`explainer.go:363-368`); the code compares plus one deviation with the baseline.
- `findPathBFS` returns `[start, end]` when there is no path.
- Completely different membership is said to give instability 1 (`latent_guard.go:302-304`); a single new
  member already does.

## Model

| member | source | states |
|---|---|---|
| DSeparation.IsDSeparated | internal/intelligence/phase3_causal/d_separation.go:25-38 | exactly whether the search's moves miss the target; for every arc list with non-empty node names, cyclic or not, exactly when no simple undirected path is active under the triplet rule, ancestors being taken of every key of the conditioning map; on a DAG and a map whose entries are all true, Pearl's d-separation (for other maps see ConditioningMaps) |
| DSeparation.SearchIsSeparation | internal/intelligence/phase3_causal/d_separation.go:90-126 | the walks that the (node, previous) search explores reach the target exactly when an active simple path does, although the search never checks for repeated nodes |
| DSeparation.SearchIsPearl | internal/intelligence/phase3_causal/d_separation.go:25-38 | on a DAG with non-empty names the search decides d-separation as in Pearl, Causality, Definition 1.2.3: no walk is found exactly when every simple path is blocked |
| DSeparation.AlwaysPearlIff | internal/intelligence/phase3_causal/d_separation.go:139-141 | a DAG gets Pearl's answer for every pair and conditioning set if and only if none of its nodes has the empty name, because the empty string also marks the start of the search |
| ConditioningMaps.FalseKeysIdleIff | internal/intelligence/phase3_causal/d_separation.go:214-220 | on a DAG, marking the ancestors of keys whose value is false never changes a separation if and only if any two distinct parents of a node that has a child are adjacent |
| ConditioningMaps.AlwaysPearlOnMapsIff | internal/intelligence/phase3_causal/d_separation.go:25-38 | a DAG gets Pearl's answer for every pair and every boolean map if and only if no name is empty and that condition holds |
| ConditioningMaps.CutCollider | internal/intelligence/phase3_causal/d_separation.go:147-158 | a collider opened by such a key between adjacent nodes can be cut out of an active path, which stays active |
| DSeparation.HasActivePath | internal/intelligence/phase3_causal/d_separation.go:90-126 | true only when the moves of the search lead to the target; on false, every closed pair of the shared visited table has all its moves in the table and none at the target; terminates on every finite graph |
| DSeparation.IsActiveTriplet | internal/intelligence/phase3_causal/d_separation.go:132-172 | the branch structure decides the triplet rule; an empty predecessor is always active |
| DSeparation.HasEdge | internal/intelligence/phase3_causal/d_separation.go:195-204 | finds an arc exactly when the list has it |
| DSeparation.GetNeighbors | internal/intelligence/phase3_causal/d_separation.go:178-193 | lists exactly the nodes adjacent in either direction |
| DSeparation.MarkAncestors | internal/intelligence/phase3_causal/d_separation.go:224-231 | recursive marking through one shared table adds only ancestors and leaves the parents of the start and of every closed mark marked |
| DSeparation.MarkDescendants | internal/intelligence/phase3_causal/d_separation.go:240-247 | the mirror image along the arcs |
| DSeparation.AllAncestors | internal/intelligence/phase3_causal/d_separation.go:214-220 | exactly the strict ancestors of the map's keys, whatever the key order, keys with value false included |
| DSeparation.Descendants | internal/intelligence/phase3_causal/d_separation.go:234-238 | exactly the nodes with a non-empty directed walk from the start |
| DSepTheory.TrailToPath | internal/intelligence/phase3_causal/d_separation.go:99-107 | every active walk contains an active simple path between the same ends, by cutting loops |
| DSepTheory.ForwardClimb | internal/intelligence/phase3_causal/d_separation.go:147-158 | a trail that leaves a node along an arc and later turns meets an open collider, so the node is an ancestor of a conditioned node |
| DSepTheory.SeparatedSymmetric | internal/intelligence/phase3_causal/d_separation.go:23-38 | separation is symmetric in its two nodes |
| DSepTheory.SeparatedIsPearl | internal/intelligence/phase3_causal/d_separation.go:129-172 | on a DAG the triplet rule and Pearl's chain, fork and collider rules separate the same pairs |
| DSepTheory.AdjacentNeverSeparated | internal/intelligence/phase3_causal/causal_enricher.go:72-79 | the two ends of an edge are joined by an active path under every conditioning set; with non-empty names the search therefore never reports them separated (last clause of `DSeparation.IsDSeparated`), and the branch for spurious edges is not taken |
| AdjustmentSet.FindMinimalAdjustmentSet | internal/intelligence/phase3_causal/d_separation.go:46-84 | with non-empty names, returns all candidates when they do not separate; otherwise, on a DAG, a set that still separates and of which no proper subset separates; always a subset of the candidates |
| AdjustmentSet.ShrinkGreedily | internal/intelligence/phase3_causal/d_separation.go:70-83 | the deleting loop keeps the current map separating, so what it keeps separates and is inclusion-minimal |
| AdjustmentSet.CollectCandidates | internal/intelligence/phase3_causal/d_separation.go:51-60 | the candidates in edge order: tails of edges into X that are neither Y nor descendants of X |
| AdjustmentSet.CopySetExcluding | internal/intelligence/phase3_causal/d_separation.go:261-269 | the copy is the map without the excluded key, in any iteration order |
| AdjustmentSet.LocalMarkov | internal/intelligence/phase3_causal/d_separation.go:62-68 | on a DAG the parents of X other than Y separate X from Y if and only if Y is neither a descendant nor a parent of X |
| AdjustmentSet.AddParentKeepsSeparation | internal/intelligence/phase3_causal/d_separation.go:70-83 | conditioning on one more parent of X never reopens a separated pair |
| AdjustmentSet.SeparationUpwardClosed | internal/intelligence/phase3_causal/d_separation.go:70-83 | among sets of parents of X separation is upward closed, which is why one greedy pass is enough |
| AdjustmentSet.BackDoorIff | internal/intelligence/phase3_causal/d_separation.go:40-45 | the returned sets meet Pearl's back-door criterion (Definition 3.3.1) if and only if Y is not a parent of X |
| AdjustmentSet.AdjustForEffect | internal/intelligence/phase3_causal/d_separation.go:46-84 | what the search returns on a DAG in all cases: all parents but Y when Y is a descendant or parent of X, else a minimal separating set; never Y, never a descendant of X |
| Gauss.SolveLinearSystem | pkg/bridge/scm.go:137-184 | in place on arrays, for every system: the result equals a given solution of the system as it was on entry exactly when that solution is zero at every final diagonal entry below 1e-12; it is a solution exactly when there is such a one; with no such entry it is the one solution; a well-conditioned input never meets one; when every input entry is below the floor the result is all zeros, a solution exactly when the right-hand side is zero |
| Gauss.FindPivot | pkg/bridge/scm.go:143-150 | a row at or below the diagonal whose entry in the column has the largest magnitude |
| Gauss.EliminateColumn | pkg/bridge/scm.go:155-168 | subtracts multiples of the pivot row so that the column below is zero, and does nothing when the pivot is tiny |
| Gauss.PivotRound | pkg/bridge/scm.go:142-169 | one round, skipped or not, keeps the solutions that vanish at the skipped columns and the zeros below the other pivots, and the row geometry while all pivots are usable; a system of tiny entries stays one |
| Gauss.BackSubstitute | pkg/bridge/scm.go:171-183 | the subtracting loop computes the back-substitution of the triangular system |
| Gauss.BackReproduces | pkg/bridge/scm.go:171-183 | back substitution reproduces every solution that vanishes at the tiny pivots |
| Gauss.ReduceSolves | pkg/bridge/scm.go:159-167 | reducing a row keeps solutions and non-solutions that vanish at the skipped columns, although entries there are left as they are |
| Gauss.ResultIsSolutionIff | pkg/bridge/scm.go:137-184 | of what elimination and back substitution end with: the result is a given solution if and only if that solution vanishes at the tiny pivots |
| Gauss.ResultSolvesIff | pkg/bridge/scm.go:137-184 | the result solves the original system if and only if some solution vanishes there |
| Gauss.LargePivotExists | pkg/bridge/scm.go:143-153 | if for every v the squared norm of Av is at least n 1e-24 times that of v, some remaining entry of each column reaches the pivot floor, so partial pivoting never falls back |
| Gauss.SmallPivotMisses | pkg/bridge/scm.go:173-176 | on a system of any size whose one solution is not zero at some tiny pivot the result is not a solution |
| Gauss.TinyDiagonalMisses | pkg/bridge/scm.go:173-176 | for every size and right-hand side, the diagonal system with tiny entries has one solution and is all below the floor, so by the last clause of SolveLinearSystem it is missed whenever the right-hand side is not zero |
| Gauss.TriangularUnique | pkg/bridge/scm.go:171-183 | a triangular system has at most one solution that vanishes at its tiny pivots |
| RidgeFit.FitLinearSCM | pkg/bridge/scm.go:69-133 | for every dataset and fewer than 10^16 parents the returned function evaluates the unique minimiser of squared error plus 1e-4 times the squared norm of all coefficients, intercept included; the no-parent and no-sample branches; noise is additive |
| RidgeFit.BuildNormalEquations | pkg/bridge/scm.go:95-118 | the nested loops build the penalised normal equations of the design |
| RidgeFit.SolutionIsOptimum | pkg/bridge/scm.go:120-121 | a solution of the normal equations is the strict global minimum of the ridge cost |
| RidgeFit.OptimumUnique | pkg/bridge/scm.go:96-134 | a dataset has one ridge optimum |
| RidgeFit.CostIsError | pkg/bridge/scm.go:123-133 | the cost that is minimised is the squared error of the returned function itself on the samples, plus 1e-4 times the squared norm |
| RidgeFit.CostDifference | pkg/bridge/scm.go:95-121 | moving by d away from that solution adds exactly the squared norm of Xd plus 1e-4 times that of d to the cost |
| RidgeFit.NormalWellConditioned | pkg/bridge/scm.go:106-107 | the penalty makes every normal matrix well conditioned, whatever the data |
| Distances.ComputeDistances | internal/intelligence/phase3_causal/causal_inference.go:409-426 | the map holds exactly the nodes that reach the target, each with its shortest directed distance |
| Distances.BackwardReachable | internal/intelligence/phase3_causal/causal_inference.go:229-243 | the stack search finds exactly the nodes with a non-empty directed walk to the target, on cyclic graphs too |
| EvidenceChain.FindPathBFS | pkg/evidence/chain.go:107-141 | a shortest path when the end can be reached; otherwise the two-element list, which is then not a path |
| EvidenceChain.FirstHitIsShortest | pkg/evidence/chain.go:122-129 | stopping at the first edge into the end is safe: no walk is shorter than the dequeued path |
| QueuePropagation.PropagateQueueLoad | internal/intelligence/phase3_causal/queue_propagator.go:110-264 | terminates on every finite graph; every hop is what some simple route from the root accumulates, and no simple route is left out, up to the length at which the target is met, if it is; hop counts never fall and no hop but the last is at the target; valid exactly when the target can be reached, and then the last hop ends a shortest route with strength 0.72^d and that route's total delay |
| QueuePropagation.LighterDone | internal/intelligence/phase3_causal/queue_propagator.go:148-152 | the termination measure: the children of a frame with r unused nodes weigh less than the frame, where T(r) = 1 + arcs * T(r - 1) |
| QueuePropagation.FirstHop | internal/intelligence/phase3_causal/queue_propagator.go:132-146 | at the root nothing has arrived from upstream: its own arrival rate, strength 1, its own delay |
| QueuePropagation.NextHop | internal/intelligence/phase3_causal/queue_propagator.go:156-228 | one edge further, 0.6 of what an overloaded node could not serve arrives on top of the next node's own rate, and nothing from a node that keeps up; strength falls to 0.72 of itself, delays add up, and queue and delay are the model's for exactly that arrival |
| QueuePropagation.RaisedRoot | internal/intelligence/phase3_causal/queue_propagator.go:161-228 | d more at the root never lowers an arrival downstream and raises the one k edges on by at most 0.6^k d, by exactly that when every node before it is overloaded |
| QueuePropagation.StrengthAtEnd | internal/intelligence/phase3_causal/queue_propagator.go:195-199 | the strength at the end of a route of k edges is 0.72^k |
| QueuePropagation.FrontIsShortest | internal/intelligence/phase3_causal/queue_propagator.go:218-221 | the first frame at the target carries a shortest route |
| QueuePropagation.SearchesAgree | internal/intelligence/phase3_causal/queue_propagator.go:254-263 | the last hop count, the distance table and the evidence path measure the same shortest path, and the final strength is 0.72 to that power |
| QueuePropagation.ValidChainsTimedIff | internal/intelligence/phase3_causal/queue_propagator.go:82-83 | taking the chains from every root to every target, each hop of each valid chain respects time if and only if no edge runs backwards in time |
| QueuePropagation.ArcChain | internal/intelligence/phase3_causal/queue_propagator.go:156-159 | the chain along one edge is valid, and its last hop respects time exactly when the edge does |
| RootCause.FindRootCauseByPropagation | internal/intelligence/phase3_causal/queue_propagator.go:280-378 | exactly the nodes without incoming edges that reach the target along edges that never run backwards in time, each once, each with a valid forward chain; in descending order of the score, which at distance d is 0.72^d, times the load when that is above 1, times 1.5 for a memory signal and 1.3 for a network signal |
| RootCause.SignalsRanked | internal/intelligence/phase3_causal/queue_propagator.go:348-358 | among roots at one distance and without overload, memory roots come before network roots, and those before the rest |
| RootCause.FartherMemory | internal/intelligence/phase3_causal/queue_propagator.go:336-358 | without overload, a memory root one edge farther from the target still comes before a plain root but after a network root; two edges farther, after the plain root too |
| RootCause.OverloadMultiplies | internal/intelligence/phase3_causal/queue_propagator.go:339-343 | an overloaded root scores its load times what it would score without overload |
| RootCause.RootNotLater | internal/intelligence/phase3_causal/queue_propagator.go:316-321 | a root is never later than the target |
| RootCause.TraceRoots | internal/intelligence/phase3_causal/queue_propagator.go:293-370 | the stack search visits exactly the time-respecting ancestors-or-self of the target |
| RootCause.SortByScore | internal/intelligence/phase3_causal/queue_propagator.go:372-375 | a permutation in descending score order |
| RootCause.ForwardTimeReaches | internal/intelligence/phase3_causal/queue_propagator.go:316-321 | when no edge runs backwards in time the temporal check removes nothing |
| RootCause.DepthTimestampsRemoveNothing | internal/intelligence/phase3_causal/causal_enricher.go:107-113 | with depth timestamps of a DAG, on any subset of its edges, the time-respecting ancestors are all ancestors |
| Timestamps.AssignTimestampsFromTopologicalOrder | internal/intelligence/phase3_causal/causal_enricher.go:116-160 | overwrites every node's timestamp, and nothing else, with its depth, on any graph |
| Timestamps.TopologicalDepths | internal/intelligence/phase3_causal/causal_enricher.go:121-155 | for every queue order, the depth is the longest walk whose earlier nodes have no cycle above them; a node on or below a cycle keeps the depth its resolved predecessors gave it |
| Timestamps.RunsAgree | internal/intelligence/phase3_causal/causal_enricher.go:121-159 | any two runs give every node the same depth |
| Timestamps.DepthZeroIff | internal/intelligence/phase3_causal/causal_enricher.go:114-115 | a node, resolved or not, gets depth 0 if and only if none of its parents was resolved |
| Timestamps.AcyclicDepthIsLongestWalk | internal/intelligence/phase3_causal/causal_enricher.go:107-115 | on a DAG no walk to a node is longer than its depth |
| Timestamps.DepthGrows | internal/intelligence/phase3_causal/causal_enricher.go:112-113 | on a DAG the depth grows strictly along every edge |
| Ids.SortNodesByID | internal/intelligence/phase4_explanation/explainer.go:101-107 | the in-place insertion sort yields the one sorted permutation of the array |
| Ids.PrefixLess | internal/intelligence/phase4_explanation/explainer.go:101-107 | in ID order a proper prefix comes first |
| Ids.FirstDifference | internal/intelligence/phase4_explanation/explainer.go:101-107 | and otherwise the first character in which two IDs differ decides |
| Kahn.TopoOrder | internal/intelligence/phase4_explanation/explainer.go:52-99 | every node exactly once on any graph; every parent of a node with no cycle above it comes earlier; on a DAG the order is one function of the graph, whatever the map iteration, and on any graph its part before the leftovers is |
| Kahn.Topo | internal/intelligence/phase5_insight/causal_agent.go:154-202 | the same for the agent's ordering; its leftovers are in ID order, so on any graph, cyclic or not, the order is one function of the graph |
| Kahn.LeftoverUnique | internal/intelligence/phase5_insight/causal_agent.go:191-200 | the sorted list of nodes with a cycle at or above them is unique |
| Kahn.OrderIgnoresListing | internal/intelligence/phase5_insight/causal_agent.go:152-187 | two listings of the same edges have the same seed, run and leftovers, so the edge order does not show in the agent's ordering either |
| Kahn.DoneIffGrounded | internal/intelligence/phase4_explanation/explainer.go:70-88 | when the queue runs empty the finished nodes are exactly those with no cycle at or above them, and exactly those whose counter is zero |
| Kahn.SeedUnique | internal/intelligence/phase4_explanation/explainer.go:61-68 | the sorted seed queue is unique, so map iteration cannot show |
| Kahn.Step | internal/intelligence/phase4_explanation/explainer.go:71-87 | one dequeue keeps the counters equal to the unfinished in-edges and the finished list in forward order |
| Explainer.EvaluateSCM | internal/intelligence/phase4_explanation/explainer.go:113-136 | evaluates the graph along a topological order |
| Explainer.Abduct | internal/intelligence/phase4_explanation/explainer.go:138-149 | the noise of each node is what its equation leaves unexplained in the sample |
| Explainer.CloneGraph | internal/intelligence/phase4_explanation/explainer.go:520-580 | all nodes are new objects with the same function, parents in ID order and noise cleared; the original is untouched |
| Explainer.Intervene | internal/intelligence/phase4_explanation/explainer.go:151-163 | a clone in which exactly the listed nodes have constant functions, zero where no value is given |
| Explainer.Counterfactual | internal/intelligence/phase4_explanation/explainer.go:165-188 | an evaluation of the abducted, intervened world; the observed graph is unchanged |
| ScmGraph.SetNoise | internal/intelligence/phase4_explanation/explainer.go:183-185 | overwrites every node's noise and nothing else |
| ScmGraph.SetConstants | internal/intelligence/phase5_insight/causal_agent.go:231-236 | overwrites the functions of the intervened nodes and nothing else, in any key order |
| ScmSemantics.Effectiveness | internal/intelligence/phase4_explanation/explainer.go:165-188 | an intervened node takes exactly its set value, on any graph |
| ScmSemantics.Locality | internal/intelligence/phase4_explanation/explainer.go:165-188 | a node with no cycle above it that no intervened node reaches keeps its sample value |
| ScmSemantics.ConsistencyIff | internal/intelligence/phase4_explanation/explainer.go:138-188 | on a DAG with additive noise the counterfactual without interventions reproduces the sample if and only if no function notices that the clone put its inputs in ID order |
| ScmSemantics.EvaluationHolds | internal/intelligence/phase4_explanation/explainer.go:113-136 | evaluation covers every node and satisfies the equation of every node with no cycle above it |
| WhatIf.CloneAndMutilate | internal/intelligence/phase5_insight/whatif.go:164-198 | new node objects, a constant at the target, and every edge kept except those into it |
| WhatIf.AbductNoise | internal/intelligence/phase5_insight/whatif.go:200-227 | abduction with parents read in edge order, in any map order |
| WhatIf.EvaluateGraph | internal/intelligence/phase5_insight/whatif.go:229-278 | the queue run evaluates exactly the nodes with no cycle at or above them, from inputs in edge order |
| WhatIf.SimulateOutcome | internal/intelligence/phase5_insight/whatif.go:101-114 | mutilate, abduct from the original graph, set the noise, evaluate |
| Agent.Evaluate | internal/intelligence/phase5_insight/causal_agent.go:204-214 | evaluates along the agent's topological order |
| Agent.Abduct | internal/intelligence/phase5_insight/causal_agent.go:216-227 | the noise that reproduces the belief means |
| Agent.Clone | internal/intelligence/phase5_insight/causal_agent.go:496-525 | new objects with parents in their original order and noise cleared |
| Agent.Intervene | internal/intelligence/phase5_insight/causal_agent.go:229-238 | a clone with constants at the intervened nodes |
| Agent.Counterfactual | internal/intelligence/phase5_insight/causal_agent.go:240-247 | an evaluation of the agent's intervened world; the given graph is unchanged |
| DoOperators.EvaluationsAgree | internal/intelligence/phase4_explanation/explainer.go:113-136 | on a DAG all evaluations of one model give the same values, whatever order was used |
| DoOperators.ThreeDoOperatorsAgree | internal/intelligence/phase5_insight/whatif.go:164-278 | on a DAG whose parents are listed by edge in ID order, the constant function on a sorted clone, the cut in-edges and the agent after conversion compute the same values at every node, for every observation and intervention |
| DoOperators.ExplanationAgreesWithAgent | internal/intelligence/phase5_insight/causal_agent.go:216-247 | the same for any set of simultaneous interventions in the explanation phase and the agent |
| EdgeOrder.AlwaysAgreeIff | pkg/bridge/converters.go:205-252 | on an acyclic graph with additive functions and sorted parents, explanation phase and agent give the same values for every sample and every set of interventions if and only if at every node no change of the function tells ID order from edge order |
| EdgeOrder.LinearBlindIff | pkg/bridge/converters.go:79-112 | for a linear function that condition holds if and only if every parent has the same coefficient in both orders |
| EdgeOrder.WhatIfAgreesWithAgent | internal/intelligence/phase5_insight/whatif.go:164-278 | on every acyclic graph, in any edge order and for any functions, the what-if engine and the agent compute the same values |
| EdgeOrder.ThreeAgreeWhenBlind | internal/intelligence/phase5_insight/whatif.go:164-278 | under that condition all three engines agree on every single intervention |
| EdgeOrder.BridgedParentsSorted | pkg/bridge/converters.go:79-112 | every graph the bridge builds meets the hypotheses of the equivalence, the edge order being left as found |
| EdgeOrder.BridgeCanDisagree | pkg/bridge/converters.go:79-112 | on the graph built from edges b to t, a to t and one sample with b and t at 1, explanation phase and agent do not always agree: the fitted coefficients are 0 for a and 1/2.0001 for b |
| Converters.ConvertPhase3ResultToPhase4Graph | pkg/bridge/converters.go:30-133 | kept edges are those between known nodes, parents are their tails in ID order, noise is 0, each function is linear and is the ridge optimum for its own parents and target when there are samples |
| Converters.SortParents | pkg/bridge/converters.go:88-111 | every parent list becomes its sorted permutation, lists shorter than two untouched |
| Converters.BridgedIsReady | pkg/bridge/converters.go:79-112 | what the bridge builds satisfies the hypotheses of the counterfactual theorems |
| Converters.ConvertPhase4GraphToPhase5Graph | pkg/bridge/converters.go:205-252 | the copied graph keeps functions and noise and rebuilds the parents in edge order |
| BackdoorEffect.BackdoorAdjustment | internal/intelligence/phase4_explanation/explainer.go:371-423 | zero without samples, without observations of the cause or with a deviation below 1e-9; otherwise, for linear functions on a DAG with sorted parents, exactly the sum over directed paths of the product of coefficients, with per-sample variance 0, whatever the data; for a square root, zero whenever the observations of the cause are equal, and the path sum exactly when their squared pairwise differences add up to n(n - 1) 1e-18 or more |
| BackdoorEffect.ObservedSkips | internal/intelligence/phase4_explanation/explainer.go:378-383 | samples without the cause are passed over |
| BackdoorEffect.ObservedAll | internal/intelligence/phase4_explanation/explainer.go:378-383 | the others give their value, in order |
| Statistics.UnderTheRoot | internal/intelligence/phase4_explanation/explainer.go:425-437 | the value under the root of the deviation, (n - 1) n times over, is the sum of the squared differences of all pairs |
| Statistics.ShiftKeepsDeviation | internal/intelligence/phase4_explanation/explainer.go:425-437 | adding one number to every observation leaves the deviation as it is |
| Statistics.DeviationIff | internal/intelligence/phase4_explanation/explainer.go:387-391 | the deviation reaches 1e-9 if and only if there are two observations and the squared pairwise differences add up to n(n - 1) 1e-18 or more |
| Statistics.MeanIsCentre | internal/intelligence/phase4_explanation/explainer.go:443-452 | the mean is the one point with the least sum of squared deviations |
| Statistics.VarianceIsPairs | internal/intelligence/phase4_explanation/explainer.go:454-464 | the variance, n squared times over, is the sum of the squared differences of all pairs |
| BackdoorEffect.LinearEstimate | internal/intelligence/phase4_explanation/explainer.go:393-422 | the path-coefficient rule for the estimate, for any positive step |
| BackdoorEffect.InterventionEffect | internal/intelligence/phase4_explanation/explainer.go:401-407 | moving the cause by a step moves every node by the step times its total effect |
| BackdoorEffect.AllPathsEnumerated | internal/intelligence/phase4_explanation/explainer.go:410-411 | the paths summed over are all directed paths from cause to node, each once |
| BackdoorEffect.BridgedHasCoefs | pkg/bridge/converters.go:113-130 | every acyclic graph the bridge builds has coefficients to which the rule applies |
| CausalBuilder.Follow | internal/intelligence/phase3_causal/causal_builder.go:173-189 | the recursive closure: visited arcs and collected edges match one to one, every closed arc has been followed, and each added edge is the start or leads to a source |
| CausalBuilder.ExpandCausalChainRecursive | internal/intelligence/phase3_causal/causal_builder.go:164-196 | no edge key twice, only known edges, and a node is a source exactly when it reaches the tail of a starting edge, on cyclic graphs too |
| CausalBuilder.ResolveConflicts | internal/intelligence/phase3_causal/causal_builder.go:205-243 | one edge per source in ID order, the first of highest score of that source, and no source lost |
| CausalBuilder.KeptIsLargest | internal/intelligence/phase3_causal/causal_builder.go:226-239 | a kept edge has the largest product of probability and absolute strength of its source, and is the first that has |
| CausalBuilder.SameKeysKept | internal/intelligence/phase3_causal/causal_builder.go:226-239 | negating the strengths of any edges, or scaling all strengths by a positive factor, changes no choice |
| CausalBuilder.KeptNotDominated | internal/intelligence/phase3_causal/causal_builder.go:226-239 | no edge of the same source is at least as probable and at least as strong and better in one of the two, unless the other is zero |
| CausalBuilder.ResolvedIsInTree | internal/intelligence/phase3_causal/causal_builder.go:164-243 | on an acyclic graph with starting edges into the target the result is an in-tree: one out-edge per source, none out of the target, and a chain from every source to the target |
| CausalBuilder.ChainUnique | internal/intelligence/phase3_causal/causal_builder.go:205-243 | in such a result the chain from a source to the target is unique |
| CausalBuilder.SourcesReachTarget | internal/intelligence/phase3_causal/causal_inference.go:229-243 | the backward search from the target of an in-tree finds exactly its sources |
| CausalBuilder.BuildHypothesis | internal/intelligence/phase3_causal/causal_builder.go:57-61 | expansion and resolution composed: an in-tree on acyclic graphs, with exactly the sources that reach a starting edge |
| MemoryLru.MemoryLRU.constructor | pkg/cache/memory_lru.go:23-32 | an empty cache; a capacity of zero or less becomes 1000 |
| MemoryLru.MemoryLRU.Get | pkg/cache/memory_lru.go:35-44 | answers what the list holds for the key and moves a hit to the front; a miss changes nothing |
| MemoryLru.MemoryLRU.Set | pkg/cache/memory_lru.go:47-63 | puts the entry in front, replacing one of the same key, else evicting the last entry when over capacity; index and list stay in step |
| MemoryLru.MemoryLRU.Delete | pkg/cache/memory_lru.go:66-73 | removes exactly the entry of the key |
| MemoryLru.MemoryLRU.Clear | pkg/cache/memory_lru.go:76-82 | leaves nothing |
| MemoryLru.MemoryLRU.RemoveOldest | pkg/cache/memory_lru.go:85-90 | drops the last element from list and index |
| MemoryLru.MemoryLRU.RemoveElement | pkg/cache/memory_lru.go:93-97 | unlinks one element and its key, keeping index and list in step |
| MemoryLru.RunsNested | pkg/cache/memory_lru.go:35-97 | over any run of calls on caches of capacities k <= m, the smaller list is a subsequence of the larger one, the smaller never holds more entries and at most m - k fewer, each fits its capacity and lists no key twice |
| MemoryLru.SmallerHitsLarger | pkg/cache/memory_lru.go:35-44 | every hit in the smaller cache is a hit in the larger with the same value |
| MemoryLru.HitIsLastSet | pkg/cache/memory_lru.go:35-82 | a hit returns the value last Set, never one deleted or cleared since |
| MemoryLru.RecentlyUsedStays | pkg/cache/memory_lru.go:46-63 | a key just Set or hit survives while fewer than capacity other keys are used after it |
| MemoryLru.NothingLost | pkg/cache/memory_lru.go:46-63 | a cache with room for every key ever Set answers like an unbounded store |
| RateLimiter.RateLimiter.AllowIP | pkg/api/handlers.go:108-148 | the call and the new bucket are the token-bucket step of that address alone; rate 0 always passes and changes nothing; a burst below 1 counts as 1 |
| RateLimiter.RateLimiter.EvictIdle | pkg/api/handlers.go:156-163 | in any map order, removes exactly the buckets idle for more than 300 seconds |
| RateLimiter.NeverEvictingWindow | pkg/api/handlers.go:104-107 | without eviction, in any window of any run with a non-decreasing clock one address gets at most burst + rate times the window length |
| RateLimiter.AllowedIff | pkg/api/handlers.go:117-147 | the matching lower bound: without eviction, a call is let through if and only if no window that ends with it would then hold more than max(1, burst) + rate times its length |
| RateLimiter.SpacedAllowed | pkg/api/handlers.go:104-107 | calls of one address at least 1 / rate apart are all let through, whatever the others do |
| RateLimiter.DeniedFree | pkg/api/handlers.go:143-147 | without eviction, leaving out a denied call changes no later answer |
| RateLimiter.DeniedFreeEvicting | pkg/api/handlers.go:143-163 | nor does it under eviction when the burst is at most 300 times the rate |
| RateLimiter.DeniedCosts | pkg/api/handlers.go:135-163 | with a larger burst it can: the denied call keeps its bucket from being evicted and so from starting over full |
| RateLimiter.EvictionUnseen | pkg/api/handlers.go:150-163 | with a burst of at most 300 times the rate, eviction at arbitrary moments changes no answer |
| RateLimiter.EvictionHarmlessIff | pkg/api/handlers.go:108-163 | for every positive rate and every burst: eviction changes no answer, also keeps the window bound, and leaves denied calls free, each if and only if the burst is at most 300 times the rate |
| RateLimiter.ComeBackParts | pkg/api/handlers.go:150-163 | the run that shows it otherwise: spend the burst, wait just past the idle limit, come back after the eviction |
| RankInstability.ComputeInstability | internal/intelligence/phase5_insight/latent_guard.go:308-346 | all early returns, the map of previous ranks (last position of a repeated id) and the clamped value of the summed squares |
| RankInstability.RankIsLast | internal/intelligence/phase5_insight/latent_guard.go:322-325 | a repeated member is ranked where it stands last |
| RankInstability.Balance | internal/intelligence/phase5_insight/latent_guard.go:332-343 | for every permutation the squared displacement and the squared distance from the mirror image add up to n(n^2-1)/3 |
| RankInstability.ClampNeverActs | internal/intelligence/phase5_insight/latent_guard.go:343-345 | on two orders of the same members the value before the clamp is already in [0, 1]; it is 0 exactly for equal and 1 exactly for reversed rankings |
| RankInstability.ZeroIff | internal/intelligence/phase5_insight/latent_guard.go:303-305 | without duplicates and with a previous ranking, 0 means the same ranking |
| RankInstability.OneIff | internal/intelligence/phase5_insight/latent_guard.go:303-307 | without duplicates and with a previous ranking, 1 means another membership or, from two members on, the exact reverse; a partly different membership already gives 1 |
| RankInstability.SymmetricIff | internal/intelligence/phase5_insight/latent_guard.go:308-346 | without duplicates the measure is symmetric if and only if both or neither of the rankings are empty |
| RankInstability.DuplicatesPassOne | internal/intelligence/phase5_insight/latent_guard.go:343-345 | one instance: with a repeated member the unclamped value is 9/8, so there the clamp does act |
| RankInstability.ClampIdleIff | internal/intelligence/phase5_insight/latent_guard.go:343-345 | for n >= 2 the clamp is idle on all rankings of length n without new members, repeated ones included, if and only if n is 2 |
| RankInstability.DoubledPassesOne | internal/intelligence/phase5_insight/latent_guard.go:327-345 | from three members on, the reversed ranking with its second entry replaced by its first passes one |
| Calibration.CalibrationStore.constructor | pkg/confidence/calibration_store.go:33-38 | no records and four equal weights |
| Calibration.CalibrationStore.RecordFeedback | pkg/confidence/calibration_store.go:41-77 | stores the record under its ID; with exactly four components the weights become the floored gradient step over its sum, else they stay |
| Calibration.WrongLowers | pkg/confidence/calibration_store.go:59-70 | after a wrong and confident prediction no weight rises before normalisation, unless to the floor 0.05, and above it a weight falls by 0.01 times confidence times component |
| Calibration.WrongShifts | pkg/confidence/calibration_store.go:59-75 | so of two equal weights the one with the larger part in the wrong prediction ends up smaller |
| Calibration.RightRaises | pkg/confidence/calibration_store.go:59-70 | after a right prediction no weight falls before normalisation |
| Calibration.CalibrationStore.ComputeECE | pkg/confidence/calibration_store.go:82-123 | in any map order, the gaps between claimed confidence and hits of all bins, over the number of records; 0 without records |
| Calibration.CalibrationStore.ComputeBrierScore | pkg/confidence/calibration_store.go:126-145 | in any map order, the mean squared error; 0 without records |
| Calibration.BinInRangeIff | pkg/confidence/calibration_store.go:97-102 | the bin index is in range exactly when the scaled confidence is above -1, the conversion truncating toward zero |
| Calibration.BinIff | pkg/confidence/calibration_store.go:97-100 | for a confidence in [0, 1], bin b of n holds exactly [b/n, (b+1)/n), the last bin its upper end as well |
| Calibration.BinMonotone | pkg/confidence/calibration_store.go:97-100 | more confidence never lands in a lower bin |
| Calibration.EceBelowBrier | pkg/confidence/calibration_store.go:79-145 | for any records that can be binned and any bin count the square of the calibration error is at most the Brier score |
| Calibration.BiasBelowEce | pkg/confidence/calibration_store.go:79-123 | the calibration error is at least the overall gap between mean confidence and accuracy |
| Calibration.CalibratedIff | pkg/confidence/calibration_store.go:109-120 | the calibration error is 0 exactly when every bin's claimed confidence equals its hits |
| Calibration.BrierAt | pkg/confidence/calibration_store.go:134-144 | when every prediction claims c and a share h is right, the Brier score is (c - h)^2 + h (1 - h) |
| Calibration.EceAt | pkg/confidence/calibration_store.go:109-120 | and the calibration error is the absolute value of c - h, for any number of bins |
| Calibration.CountsConserved | pkg/confidence/calibration_store.go:96-107 | bin counts add up to the number of records and bin hits to the correct predictions |
| Calibration.WeightsSumToOne | pkg/confidence/calibration_store.go:50-76 | over any run of feedback, whatever the inputs, the weights are positive and sum to 1 |
| Calibration.WeightsStayBounded | pkg/confidence/calibration_store.go:62-76 | over any run with inputs in [0, 1] every weight stays within 5/104 and 89/104 |
| Welford.WelfordState.Update | pkg/adaptive/welford.go:18-46 | mean and m2 stay the batch mean and batch sum of squared deviations of the accepted samples; m2 never falls; from the eleventh sample on the outlier bound holds if and only if the samples accepted before are not all equal or the observation is their mean |
| Welford.UpdateIsBatch | pkg/adaptive/welford.go:42-45 | the recurrence computes the batch statistics of one more sample |
| Welford.OutlierBound | pkg/adaptive/welford.go:26-45 | from the eleventh sample on, if m2 > 0, one observation moves the mean by at most 5 sigma / n and multiplies m2 by at most 1 + 25 / n |
| Welford.ClampedIsNearest | pkg/adaptive/welford.go:26-40 | an observation within five deviations of the mean is accepted as it is; from the eleventh on, with some spread, one beyond is replaced by the nearest point within |
| Welford.OutlierBoundIff | pkg/adaptive/welford.go:26-40 | from the eleventh sample on that bound holds if and only if m2 > 0 or the observation equals the mean, because without spread nothing is clamped |
| Welford.NoSpreadIff | pkg/adaptive/welford.go:28-33 | m2 is zero if and only if all accepted samples are equal |
| Welford.SpreadStays | pkg/adaptive/welford.go:42-45 | an update never lowers m2 |

## Left out

- RidgeFit.FitLinearSCM: the optimum is stated for fewer than 10^16 parents; with more, the accumulated conditioning bound no longer covers the pivot floor.
- RootCause.DepthTimestampsRemoveNothing: states the removal of the time check on acyclic graphs; on cyclic graphs the search is characterised by time-respecting walks instead (RootCause.FindRootCauseByPropagation).
- Explainer.Counterfactual: an intervention on an unknown node dereferences a nil pointer in the source; the contract asks for known nodes.
- Agent.Intervene: the same restriction to known nodes.
- Agent.Counterfactual: the same.
- BackdoorEffect.BackdoorAdjustment: the same for the cause, where the estimate gets as far as an intervention.
- Timestamps.AssignTimestampsFromTopologicalOrder: asks for edges between nodes of the map. The source also counts edges that name absent nodes: an absent head is queued like a node, and an absent tail that is no head never releases its successors.
- Timestamps.TopologicalDepths: the same restriction.
- DoOperators.ThreeDoOperatorsAgree: asks for in-edges in ID order; without it see the exact condition in EdgeOrder.
- DoOperators.ExplanationAgreesWithAgent: the same.
- Calibration.CalibrationStore.ComputeECE: with records present and no bins, or with a scaled confidence of -1 or less, the source indexes out of range; the contract asks for the opposite. Conversion of huge floats to int is not modelled.
- RateLimiter.EvictionHarmlessIff: for positive configured rates; `AllowIP` follows the code for a negative rate too, but no bound is stated for one.
- Floating-point rounding, NaN and infinity, and the early return of `WelfordState.Update` on them.
- Fields that no result here depends on: lags, node values and confidences of causal edges, node time series, timestamps of feedback records, per-model evaluations and explanation strings of hops.
- Parent and edge pointers between graph nodes: nodes refer to each other by ID, and edge keys built as strings are pairs.
- Nil graphs, which the converters and the timestamp pass return unchanged.
- The queueing formulas: the model that computes queue length and delay is an arbitrary function.
- `Polynomial`, `Logistic`, `Threshold` and `Piecewise` of `scm.go`: the bridge installs only the linear functions; each adds its noise last, so the hypothesis of additive noise covers them.
- The address parsing of the rate limiter and its configuration lookup: address, rate and burst are parameters.
- Lookup of a learned-weights copy and the calibration report, which only read the state modelled here.
- Scoring of candidate causes, hypothesis filters, edge sorting by temporal causality and subgraph assembly: heuristic weights over time series.
- `hasBackdoorPath`, `minimalBackdoorSet`, path extraction and explanation text of the explanation phase.
- Goroutine interleavings below the level of one mutex-protected method.
- Monte Carlo, reinforcement-learning training, pattern classification, narrative text, HTTP, storage and telemetry code.
