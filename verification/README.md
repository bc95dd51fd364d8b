# godsim argument simulators, modelled in Dafny

This project models the simulation engine of godsim (`src/main.ts`). It is a set
of small "argument simulators": functions that turn classical arguments for the
existence of God into toy computations and return a boolean verdict. Three of
them build or walk object graphs:

- the **causal chain** of the cosmological argument, with its root finder;
- the **causal tree** of the first-cause argument;
- the **cycle detector** that searches that tree.

The others compare two beings (ontological argument) or return constants
(moral, reason, contingency, sustainer, infinite regress).

Object graphs are modelled as arenas. An arena is a sequence of node values in
allocation order. A reference to a node is its index. `new` appends a node.
Chain and tree nodes are never changed after construction, so they are values:
`Cosmological.Cause` holds an optional predecessor index, and `CausalTree.Entity`
holds a list of cause indices. Siblings that share one parent array in the
source hold equal index lists here. The array is never mutated, so sharing
cannot be observed. The one graph node the source mutates, the ontological
`Being`, is a class.

`hasCycle` mutates a `visited` set that the closure shares between calls.
`CycleDetector.HasCycle` receives that set and returns it as the search leaves it.
Its verdict is stated exactly. It answers true iff some walk along `causedBy`
edges from the start either ends in a marked node or repeats a node it
already passed (`Cyclic`).

Every entity of the causal tree has at most one cause: top-level entities have
none, and every deeper entity has the single entity whose subtree it belongs
to.

Modules: `Wrappers` (Option), `Ontological`, `Cosmological`, `CausalTree`,
`CycleDetector`, `FirstCause`, `Verdicts`.

## Model

| member | source | states |
|---|---|---|
| `Ontological.Being.constructor` | src/main.ts:3-6 | a new being's flag is the given value, false by default |
| `Ontological.IsGreater` | src/main.ts:8-10 | a being that is greater differs from the other being, and the two flags differ |
| `Ontological.IsGreaterAsymmetric` | src/main.ts:8-10 | of two beings, at most one is greater than the other |
| `Ontological.Conclude` | src/main.ts:15 | god's flag becomes true iff it was already true or the maximal being was greater; the maximal being's flag is unchanged |
| `Ontological.SimulateOntological` | src/main.ts:12-17 | the ontological verdict is always true |
| `Cosmological.Lineage` | src/main.ts:25-28 | following `causedBy` from a node on a backward-pointing chain visits a path that starts at that node, takes each link in turn, and ends at the only node on it without a predecessor |
| `Cosmological.FindFirstCause` | src/main.ts:25-28 | the loop terminates on a backward-pointing chain and returns a node without a predecessor, namely the end of the argument's lineage |
| `Cosmological.BuildChain` | src/main.ts:30-35 | depth below 1 is clamped to 1; the chain has exactly max(depth,1) nodes; node 0 has no predecessor; every later node points to the node built just before it; the returned node is the last one built |
| `Cosmological.ChainIsDescending` | src/main.ts:32-35 | every link of a built chain points to an earlier node |
| `Cosmological.ChainLineage` | src/main.ts:25-36 | in a built chain exactly one node (node 0) has no predecessor, and from node k the root finder walks k+1 nodes and stops at node 0 |
| `Cosmological.SimulateCosmological` | src/main.ts:30-38 | the cosmological verdict is true for every depth, including non-positive ones |
| `CausalTree.GeomSumFactor` | src/main.ts:134-137 | b + b^2 + ... + b^d equals b times (1 + b + ... + b^(d-1)): one entity per round plus a subtree one level shallower |
| `CausalTree.SiblingsSize` | src/main.ts:134-138 | k rounds of the loop create k times (1 + size of a subtree one level shallower) entities |
| `CausalTree.TreeSize` | src/main.ts:131-140 | `buildTree(depth, b)` creates exactly b + b^2 + ... + b^depth entities, and none when depth <= 0 or b <= 0 |
| `CausalTree.CountPositive` | src/main.ts:131-140 | the tree is non-empty iff depth >= 1 and b >= 1 |
| `CausalTree.TreeSizeExample` | src/main.ts:131-140 | depth 2 with branch factor 3 gives 12 entities, whatever the parents |
| `CausalTree.SiblingsPreorder` | src/main.ts:134-138 | after k rounds the list is k consecutive blocks; each block is the round's new entity, caused by the parents, followed immediately by its own subtree |
| `CausalTree.TreePreorder` | src/main.ts:131-140 | the returned list is tiled by b equal blocks; each block is a top-level entity followed immediately by the subtree built with it as sole parent (pre-order) |
| `CausalTree.AppendOrdered` | src/main.ts:135-136 | allocating an entity whose causes already exist keeps every cause edge pointing backwards |
| `CausalTree.BuildTree` | src/main.ts:131-140 | the grown arena is the old one followed by the entities of the tree specification; their number is the level sum; the returned list is exactly the created entities in creation order; this level's entities are caused by the given parents and every deeper one by a single entity created earlier in the call; no edge points forward |
| `CycleDetector.ExtendBadWalk` | src/main.ts:148-150 | if a walk from a cause of e, searched with e marked, runs into a mark or a repetition, then prefixing e gives such a walk from e, whose search path is the cause's path plus e |
| `CycleDetector.ShortenBadWalk` | src/main.ts:147-151 | a walk from an unmarked e that runs into a mark or a repetition passes, with e marked, through a cause of e |
| `CycleDetector.CyclicStep` | src/main.ts:147-153 | for an unmarked e: a walk from e runs into a mark or a repetition iff one runs from one of e's causes once e is marked |
| `CycleDetector.HasCycle` | src/main.ts:145-154 | returns true iff some walk from the entity ends in a marked node or repeats a node; after false the visited set is exactly as before; after true it is the old set plus every node of the search path that led to the hit, since the early return skips their removal |
| `CycleDetector.WalkDescends` | src/main.ts:131-140 | along any walk of an arena whose edges point backwards, positions strictly decrease |
| `CycleDetector.OrderedNotCyclic` | src/main.ts:145-154 | on such an arena, with only later entities marked, no walk runs into a mark or a repetition, so `hasCycle` returns false |
| `CycleDetector.SelfCauseIsCyclic` | src/main.ts:146-150 | an entity listed among its own causes makes `hasCycle` return true |
| `CycleDetector.OrderedIsClosed` | src/main.ts:131-140 | an arena whose edges point backwards only refers to its own entities |
| `FirstCause.SimulateFirstCause` | src/main.ts:122-161 | the search over all entities, sharing one visited set and stopping at the first cycle, finds none; the verdict is true iff depth >= 1 and branches >= 1 |
| `Verdicts.SimulateMoral` | src/main.ts:51-58 | always true |
| `Verdicts.SimulateReason` | src/main.ts:75-77 | always true |
| `Verdicts.SimulateContingency` | src/main.ts:80-83 | always true |
| `Verdicts.SimulateSustainer` | src/main.ts:86-99 | always true |
| `Verdicts.BuildRegressChain` | src/main.ts:103-114 | builds max(chainDepth,0) nodes (none for chainDepth <= 0); each points to the node built before it; `current` is the last node, or null when none was built |
| `Verdicts.SimulateInfiniteRegress` | src/main.ts:102-119 | always false, for every chain depth including 0 and negative ones |

## Left out

- `universeExists`, `simulateFineTuning`, `simulateDesign` and `simulateBeauty` are not modelled. They draw from `Math.random()` and compare or sum floating-point values.
- Numeric parameters are modelled as integers. A non-integer JavaScript `number` would change the loop counts (depth 2.5 builds 3 chain nodes), and the model does not cover that.
- Stack and heap exhaustion for large depths or branch factors is a limit of the host runtime. The model's inputs are unbounded.
- The cost of the path-local search is not modelled. A cause reachable along several paths is explored once per path; the model states the verdict and the `visited` set left behind, not the number of steps.
- Object identity is modelled by arena index. Sharing of the sibling parent array is therefore not represented; the array is never mutated, so this is not observable.
- `Cosmological.FindFirstCause` requires a chain whose links all point to earlier nodes. On a cyclic chain the source's loop (src/main.ts:26) never terminates, and that behaviour is not modelled. Every chain the source builds meets the requirement (`Cosmological.ChainIsDescending`), but a caller of the exported `Cause` class could mutate `causedBy` into a cycle.
- `Ontological.SimulateOntological` states only the returned verdict. Its two beings are local to the call, and the "no other field changes" property is stated on `Ontological.Conclude`.
- `src/App.tsx` (rendering, state wiring, displayed code snippets) and `src/ga.ts` (analytics loader) are not part of this model.
