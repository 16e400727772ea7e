# Push-relabel maximum flow

This project models `PushRelabel.java` in Dafny: the generic push-relabel maximum-flow
algorithm over a dense graph of V vertices. An instance owns two V×V integer matrices,
`capacity` and `flow`, and one height and one excess per vertex, all updated in place. The
algorithm runs in these steps:

- `addEdge` records the capacity of one ordered pair.
- `initializePreflow` lifts the source to height V and saturates every edge out of it.
- `push` moves the smaller of a vertex's excess and an edge's residual capacity along that edge.
- `relabel` lifts a vertex to one above its lowest residual neighbour.
- `getMaxFlow` runs the preflow, then a worklist loop that repeatedly takes the head of the
  list of active vertices and pushes along its first admissible edge, or relabels it when
  none is admissible, and finally returns the sink's excess.

The project has two modules:

- `FlowNetwork` (`flow_network.dfy`) describes the state as a value (`Net`). Each step is a
  function on that value: `WithEdge`, `Preflowed`, `Pushed`, `Relabelled`, and `Discharge`
  for one round of the main loop. `Run` is at most a given number of rounds. The lemmas
  prove what the steps preserve:
  - the preflow invariant `PreflowInvariant`: heights in range, no pair over capacity, a
    valid labelling, excesses that sum to zero and match the columns of the flow matrix,
    and no negative excess except at the source;
  - the worklist invariant `IsWorklist`;
  - the pair sums `flow[u][v] + flow[v][u]`;
  - that no height ever falls.

  They also prove what holds once the worklist is empty, and that the sink is never
  reachable from the source in the residual graph (`NoAugmentingWalk`).
- `MaxFlow` (`max_flow.dfy`) is the class `PushRelabel`, with `array2<int>` and `array<int>`
  fields. Each method is proved to change the arrays exactly as the corresponding function
  of `FlowNetwork` changes the value `State()`, the arrays' current view. The loops of
  `initializePreflow`, `relabel` and `getMaxFlow` keep their loop form and carry invariants.

The code departs from the textbook push-relabel algorithm in two ways, and the model follows the code:

- The preflow sets `flow[source][v]` but leaves `flow[v][source]` at 0, and overwrites
  `capacity[v][source]` with the forward capacity. So `flow[u][v] == -flow[v][u]` does not
  hold in this code. What push does keep is each pair sum `flow[u][v] + flow[v][u]`, and
  that is what the model proves (`PairSumsAgree`, `Evolved`).
- `addEdge` accepts any capacity, negative ones included. The model accepts them too, and
  the properties of a whole run assume non-negative capacities.

## Model

| member | source | states |
|---|---|---|
| MaxFlow.PushRelabel.constructor | PushRelabel.java:13-19 | allocates V×V matrices and length-V vectors, all zero: a fresh state with non-negative capacities |
| FlowNetwork.WithEdge | PushRelabel.java:25-27 | only `capacity[u][v]` becomes `cap`; every other capacity, the flow, the heights and the excesses are unchanged; freshness and non-negative capacities are kept |
| MaxFlow.PushRelabel.AddEdge | PushRelabel.java:25-27 | the new state is `WithEdge` of the old one |
| FlowNetwork.SourceExcessAfterPreflow | PushRelabel.java:38-39 | the source's excess after the preflow loop, by definition: its old excess less every positive capacity out of it, or, with a positive self-loop, minus only the positive capacities to the vertices after the source; its value on fresh graphs is stated by `PreflowExcesses` |
| FlowNetwork.Preflowed | PushRelabel.java:33-43 | the state after the preflow, by definition: the source at height V; for each v with `capacity[source][v] > 0`, `flow[source][v]`, `capacity[v][source]` and v's excess are that capacity; the source's excess is `SourceExcessAfterPreflow`; its properties are stated by the `Preflow…` lemmas below |
| MaxFlow.PushRelabel.InitializePreflow | PushRelabel.java:33-43 | the new state is `Preflowed` of the old one: the source at height V; for each v with `capacity[source][v] > 0`, `flow[source][v]`, `excessFlow[v]` and `capacity[v][source]` are set to that capacity and the source's excess drops by it |
| MaxFlow.PushRelabel.SaturateSourceEdges | PushRelabel.java:35-42 | the loop's final capacities, flows and excesses, entry by entry, with the source's excess reduced by the sum of the positive capacities out of it; when the source has a positive self-loop, the loop resets the source's excess to 0 on reaching the source, so only the positive capacities to the vertices after the source are subtracted (for source 2 with row [5, 0, 3, 4] it ends at -4) |
| FlowNetwork.PreflowEstablishesInvariant | PushRelabel.java:33-43 | on a fresh state with non-negative capacities and no self-loop at the source, the preflow establishes the preflow invariant and leaves minus the source's outgoing capacity at the source |
| FlowNetwork.PreflowLabelling | PushRelabel.java:34-40 | after the preflow the source is at height V, no pair is over capacity and the labelling is valid |
| FlowNetwork.PreflowExcesses | PushRelabel.java:36-41 | after the preflow each vertex other than the source holds the positive capacity into it from the source, the source holds minus their sum, and the excesses sum to zero |
| FlowNetwork.PreflowKeepsColumn | PushRelabel.java:40 | the preflow rewrites only the source's column of capacities: every other column keeps its original entries |
| FlowNetwork.PreflowColumns | PushRelabel.java:36-41 | after the preflow each excess equals the column sum of the flow matrix, less the outgoing capacity at the source |
| FlowNetwork.FlowToPush | PushRelabel.java:50 | the amount moved is at most the excess and at most the residual capacity, and equals one of them |
| FlowNetwork.Pushed | PushRelabel.java:49-55 | `flow[u][v]` rises and `flow[v][u]` falls by the amount moved, which leaves `u` and arrives at `v`; the capacities, the heights, every other flow and excess, and all pair sums are unchanged |
| FlowNetwork.PushToSelf | PushRelabel.java:49-55 | a push from a vertex to itself changes nothing: the amount added to `flow[u][u]` and to u's excess is taken away again |
| MaxFlow.PushRelabel.Push | PushRelabel.java:49-55 | the new state is `Pushed` of the old one |
| FlowNetwork.PushEmptiesOrSaturates | PushRelabel.java:49-55 | with excess at `u` and residual capacity on `(u, v)`, a push moves a positive amount and leaves `u`'s excess and the residual capacity non-negative, one of them zero |
| FlowNetwork.PushKeepsLabelling | PushRelabel.java:95-96 | a push along an admissible edge moves a positive amount, keeps every residual capacity non-negative and keeps the labelling valid |
| FlowNetwork.PushConservesExcess | PushRelabel.java:53-54 | a push keeps the total excess |
| FlowNetwork.PushColumnSum | PushRelabel.java:51-52 | a push adds the amount to column `v` of the flow matrix, takes it from column `u` and leaves the other columns' sums unchanged |
| FlowNetwork.PushKeepsBalance | PushRelabel.java:49-55 | a push keeps the excesses summing to zero and each equal to its column of flow |
| FlowNetwork.PushPreservesInvariant | PushRelabel.java:95-96 | a push from an active vertex along an admissible edge keeps the preflow invariant |
| FlowNetwork.LowestResidualHeight | PushRelabel.java:62-67 | the scan of relabel over the vertices below k, by definition: the running minimum of the heights of u's residual neighbours, or none while no neighbour has been found; what it computes is stated by `LowestResidualHeightIsLeast` |
| FlowNetwork.LowestResidualHeightIsLeast | PushRelabel.java:62-67 | the scan finds a height exactly when `u` has residual capacity to some vertex, and that height is the least among those vertices |
| MaxFlow.PushRelabel.LowestNeighbourHeight | PushRelabel.java:62-67 | the loop's found flag and running minimum are those of `LowestResidualHeight` over all vertices |
| FlowNetwork.Relabelled | PushRelabel.java:61-71 | only `height[u]` changes: it becomes one above the lowest residual neighbour, or stays put when there is none |
| MaxFlow.PushRelabel.Relabel | PushRelabel.java:61-71 | the new state is `Relabelled` of the old one |
| FlowNetwork.RelabelKeepsLabelling | PushRelabel.java:108-110 | relabelling a vertex with no admissible edge keeps the labelling valid, never lowers it, and strictly raises it when it has a residual neighbour |
| FlowNetwork.RelabelPreservesInvariant | PushRelabel.java:108-110 | relabelling a vertex with no admissible edge keeps the preflow invariant |
| FlowNetwork.ActiveVertices | PushRelabel.java:81-86 | the list the seeding loop builds, by definition: the vertices below k, in increasing order, that are active; that it is an exact worklist is `ActiveVerticesIsWorklist` |
| FlowNetwork.ActiveVerticesIsWorklist | PushRelabel.java:81-86 | the initial list holds, in increasing order and each once, exactly the vertices other than the source and the sink with positive excess |
| MaxFlow.PushRelabel.CollectActive | PushRelabel.java:81-86 | the loop builds `ActiveVertices`, which is an exact worklist |
| FlowNetwork.RequeueAfterPush | PushRelabel.java:98-103 | the worklist after a push from its head to v, by definition: the head leaves when its excess is zero, and v joins at the back when it is active and not already listed; that this keeps the list exact is `RequeueKeepsWorklist` |
| FlowNetwork.DropHead | PushRelabel.java:98-100 | removing the head once its excess is zero keeps the list exact for every vertex but the push target |
| FlowNetwork.AppendNew | PushRelabel.java:101-102 | appending a vertex not yet in the list adds just it and creates no duplicate |
| FlowNetwork.RequeueKeepsWorklist | PushRelabel.java:98-103 | the requeueing after a push keeps the list exactly the active vertices, without duplicates |
| FlowNetwork.WorklistAfterPush | PushRelabel.java:95-103 | a push from the head along an admissible edge, followed by the requeueing, keeps the worklist exact |
| FlowNetwork.FirstAdmissible | PushRelabel.java:93-106 | the scan finds no vertex exactly when no edge out of `u` is admissible; what it finds is admissible and the first such |
| FlowNetwork.Discharge | PushRelabel.java:90-110 | one round keeps the state well formed, the worklist within range and the capacities unchanged |
| MaxFlow.PushRelabel.DischargeHead | PushRelabel.java:90-110 | the new state and list are `Discharge` of the old ones |
| FlowNetwork.DischargePreservesInvariant | PushRelabel.java:89-110 | one round keeps the preflow invariant, the exact worklist and the sink at height 0; it keeps the capacities and pair sums and lowers no vertex |
| FlowNetwork.Round | PushRelabel.java:90-110 | one pass of the main loop's body as a total step: `Discharge` where it applies, otherwise the configuration unchanged |
| FlowNetwork.Iterate | PushRelabel.java:89-111 | at most fuel applications of a step, stopping as soon as the worklist is empty, as the loop guard at line 89 does |
| FlowNetwork.Run | PushRelabel.java:89-111 | the main loop over at most fuel rounds: `Iterate` of `Round`; what it keeps is stated by `RunPreservesInvariant`, and how it unfolds by `RunStep` and `RunDone` |
| FlowNetwork.IterateInduction | PushRelabel.java:89-111 | a property kept by every round from a state with work left holds after any number of rounds |
| FlowNetwork.RunStep | PushRelabel.java:89-111 | after one round, the remaining rounds reach the same final configuration |
| FlowNetwork.RunDone | PushRelabel.java:89 | with an empty worklist or no rounds left, the loop stops where it is |
| MaxFlow.PushRelabel.DischargeAll | PushRelabel.java:89-111 | the loop's final state and list are those of `Run` from the initial ones |
| FlowNetwork.RunPreservesInvariant | PushRelabel.java:89-111 | any number of rounds keeps the invariant between rounds, the capacities and the pair sums, and lowers no vertex |
| FlowNetwork.Start | PushRelabel.java:78-86 | the configuration the main loop starts from, by definition: the preflowed state with its `ActiveVertices` |
| FlowNetwork.MaxFlowRun | PushRelabel.java:77-111 | the whole driver from a given state, by definition: `Run` from `Start`; its properties are `MaxFlowRunProperties` and `MaxFlowRunNoAugmentingWalk` |
| FlowNetwork.StartEstablishesInvariant | PushRelabel.java:78-86 | the preflow and the initial worklist satisfy the invariant between rounds |
| FlowNetwork.ExcessAtExit | PushRelabel.java:89-113 | the sink's excess lies between zero and the source's outgoing capacity; with no active vertex left, every other vertex has zero excess and zero inflow on balance, and the sink holds exactly what left the source |
| FlowNetwork.MaxFlowRunProperties | PushRelabel.java:77-114 | from a fresh graph, after any number of rounds, the invariant holds, flow moved only within pairs, no vertex went down, and the sink's excess lies between zero and the source's outgoing capacity and is at most the capacity into the sink; once the worklist is empty the internal vertices are balanced and the sink's excess is minus the source's |
| MaxFlow.PushRelabel.GetMaxFlow | PushRelabel.java:77-114 | the final arrays are those of `MaxFlowRun`, `finished` tells whether the worklist emptied, and the result is the sink's excess; on a fresh graph the result lies between zero and the source's outgoing capacity, is at most the capacity into the sink and, once finished, every internal excess is zero and the result equals minus the source's excess |
| FlowNetwork.SinkInflowBound | PushRelabel.java:51-54 | under the preflow invariant the sink's excess is what the flow matrix records as entering it, so it is at most the positive capacities into the sink |
| FlowNetwork.HeightAlongWalk | PushRelabel.java:33-71 | along a residual walk of a validly labelled state the height falls by at most one per step |
| FlowNetwork.ReachedAboveZero | PushRelabel.java:33-71 | every vertex reachable from the source in the residual graph sits above height 0 |
| FlowNetwork.NoAugmentingWalk | PushRelabel.java:89-113 | with the sink at height 0, no residual walk leads from the source to the sink |
| FlowNetwork.MaxFlowRunNoAugmentingWalk | PushRelabel.java:77-114 | however many rounds the loop takes from a fresh graph, with the source distinct from the sink, the sink cannot be reached from the source in the residual graph |

## Left out

- `main` (PushRelabel.java:116-135) builds a demonstration graph and prints the result. Its
  output is I/O and it is not modelled.
- Termination of the main loop is not proved. `GetMaxFlow` and `Run` take a `fuel` bound on
  the number of rounds, and `GetMaxFlow` reports in `finished` whether the worklist emptied
  within it. What the properties say about the end of the loop is stated for the case where
  it has finished. The two cases a termination proof would need to rule out are not
  addressed: a relabel of a vertex with no residual neighbour, and an unbounded number of
  rounds.
- Integers are unbounded. Java's 32-bit wrap-around on sums of capacities is not modelled.
- Relabel's `Integer.MAX_VALUE` sentinel is not modelled. A found flag stands in for it, so
  no neighbour at height `Integer.MAX_VALUE` is special in the model.
- The code checks none of its inputs. Indices outside `0 .. V-1`, which raise
  `ArrayIndexOutOfBoundsException` in Java, are excluded by `requires` clauses. A negative
  vertex count, which raises `NegativeArraySizeException`, is excluded by the type `nat`.
- GetMaxFlow: the guarantees about its result hold only for an instance that starts fresh
  (zero flow, heights and excesses), has non-negative capacities and has no self-loop at
  the source. Calling it twice on one instance, or with those conditions unmet, is modelled
  step by step but comes with no statement about the result.
- MaxFlowRunProperties: optimality is not proved. The model proves that no residual walk
  leads from the source to the sink, and that once the loop has finished the flow is
  balanced at every internal vertex. It does not prove that the result equals the capacity
  of a minimum cut of the original graph.
- MaxFlow.PushRelabel.DischargeHead: the model keeps Java's `List<Integer>` as a `seq`
  value, not as a mutable list object.
