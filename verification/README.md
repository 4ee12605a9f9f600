# Feasible 0/1 matrices by maximum flow

This project models the matrix-construction core of the `graphs` R package
(C++ with Rcpp). The package needs one 0/1 matrix whose row sums are given
by an out-degree vector and whose column sums are given by an in-degree
vector. In the source, `constructGraph` validates the two degree vectors
and a "fixed" matrix (`checkInputs`), hands them to a `ConstructGraph::Graph`,
searches and augments until no augmenting path is left, and returns that
network's `constructWeightMatrix()`. `ConstructGraph::Graph` is not part of
this model, and neither are the bodies of the `FeasibleMatrix::Graph`
methods. The model drives its `FeasibleMatrix.Graph` through the same
protocol. It:

1. validates the inputs (`checkInputs`);
2. builds a flow network. A source feeds each out-vertex `i` with capacity
   `out_degree[i]`. Every out-vertex reaches every in-vertex with capacity 1.
   Each in-vertex `j` drains into the sink with capacity `in_degree[j]`;
3. repeats a breadth-first search for an augmenting path (`findPath`), takes
   its bottleneck (`calcPathFlow`) and pushes that much flow along it
   (`updateFlow`), until a search fails;
4. reads the out-vertex → in-vertex flows off as the matrix
   (`constructMatrix`).

The model has four modules:

- `IntMatrices` (`int_matrices.dfy`): the integer vectors and matrices the
  host passes in, and their sums.
- `FlowNetwork` (`flow_network.dfy`): the network arithmetic.
  - Flows are kept non-negative in both directions of a vertex pair.
  - The residual capacity of `u -> v` is the unused capacity of `u -> v`
    plus the flow on `v -> u`.
  - Pushing along an edge cancels reverse flow first.
  - `Augmented` pushes along every step of a path.
- `FeasibleMatrix` (`feasible_matrix.dfy`): the vertex records, the search
  invariants, and the class `Graph`. `Graph` holds `vertices`,
  `adjacency`, `flow`, `capacity`, `source` and `sink`. Its methods
  update these fields in place.
- `AuxiliaryFunctions` (`auxiliary_functions.dfy`): `checkInputs` as a
  function returning an `Outcome`, and `constructGraph` as a method.
  The three `invalid_argument` exceptions become `Failure` results.

The bodies of the `FeasibleMatrix::Graph` methods live in
`src/FeasibleMatrix.cpp`. That file is not part of this model: only their
declarations in `src/FeasibleMatrix.h` are. The method bodies here are a
standard breadth-first augmenting-path (Edmonds–Karp) implementation of
those declarations, as follows:

- The vertex numbering is out-vertices `0 .. m-1`, in-vertices
  `m .. m+k-1`, source `m+k`, sink `m+k+1`.
- `findPath` resets every vertex record and runs the search on the
  residual network.
- `calcPathFlow` and `updateFlow` walk the predecessor links back from the
  sink.
- When the sink was not reached, `calcPathFlow` returns 0 and `updateFlow`
  does nothing. This is why the extra `updateFlow(calcPathFlow())` after
  the last, failed search is harmless.

`constructGraph` as written drives a `ConstructGraph::Graph`, which also
receives the fixed matrix. That class is not part of this model. Its method
protocol matches `FeasibleMatrix::Graph`, so the model drives
`FeasibleMatrix.Graph` instead.

## Model

| member | source | states |
|---|---|---|
| AuxiliaryFunctions.Min | src/AuxiliaryFunctions.cpp:160-162 | the minimum of a non-empty vector is at most every entry and is one of them |
| AuxiliaryFunctions.Max | src/AuxiliaryFunctions.cpp:162 | the maximum of a non-empty vector is at least every entry and is one of them |
| AuxiliaryFunctions.Flatten | src/AuxiliaryFunctions.cpp:162 | a value is among the matrix's entries taken together exactly when it is some cell of the matrix |
| AuxiliaryFunctions.BinaryByExtremes | src/AuxiliaryFunctions.cpp:162-163 | every cell is 0 or 1 exactly when the matrix is empty or its minimum is at least 0 and its maximum at most 1 |
| AuxiliaryFunctions.CheckInputs | src/AuxiliaryFunctions.cpp:157-164 | the error is the dimension error exactly when `in_degree` does not match the rows or `out_degree` the columns; the sign error exactly when the shapes match and a degree is negative; the binary error exactly when the shapes match, the degrees are non-negative and a cell is outside 0..1; the check passes exactly when all three conditions hold |
| AuxiliaryFunctions.ConstructGraph | src/AuxiliaryFunctions.cpp:144-155 | fails exactly when `checkInputs` fails, with its error and before any network exists; otherwise the network is well formed, has the layout of the degree vectors and has no augmenting path left, and the matrix is `|out_degree|` × `|in_degree|`, its entry `(i, j)` is that network's flow from out-vertex `i` to in-vertex `m + j` and is 0 or 1, its row sums are what the source sends (at most `out_degree`) and its column sums what reaches the sink (at most `in_degree`) |
| AuxiliaryFunctions.AugmentUntilBlocked | src/AuxiliaryFunctions.cpp:149-153 | the search-and-augment loop ends (the flow value rises every round and the source capacity bounds it) and leaves a well-formed network with no augmenting path |
| AuxiliaryFunctions.SearchAndAugment | src/AuxiliaryFunctions.cpp:151-152 | one round keeps the network well formed; a failed search leaves the flow unchanged and no augmenting path exists; a successful one raises the flow value |
| FlowNetwork.NetBelowCapacity | src/AuxiliaryFunctions.cpp:150-153 | the flow value is at most the total capacity out of the source, which bounds the loop |
| FeasibleMatrix.FreshVertex | src/FeasibleMatrix.h:17-20 | a new vertex record has distance 0, colour white and predecessor 0 |
| FeasibleMatrix.Graph.constructor | src/FeasibleMatrix.h:28 | a new network has the layout of the degree vectors, zero flow, every vertex record fresh (distance 0, white, predecessor 0) and is well formed |
| FeasibleMatrix.Graph.AddSourceEdges | src/FeasibleMatrix.h:28 | after the source stage, the source feeds out-vertex `i` with capacity `out_degree[i]` and nothing else has capacity |
| FeasibleMatrix.Graph.AddUnitEdges | src/FeasibleMatrix.h:28 | after the unit stage, every out-vertex reaches every in-vertex with capacity 1 as well |
| FeasibleMatrix.Graph.AddSinkEdges | src/FeasibleMatrix.h:28 | after the sink stage, in-vertex `m + j` drains into the sink with capacity `in_degree[j]` as well: the full layout |
| FeasibleMatrix.Graph.AddEdge | src/FeasibleMatrix.h:29 | sets the adjacency of `u -> v` to 1 and its capacity to `c`, changes no other entry, and keeps the network well formed |
| FlowNetwork.SetEntryNet | src/FeasibleMatrix.h:32 | changing one entry changes the net outflow of its tail and head by the difference and of no other vertex |
| FlowNetwork.ZerosConserved | src/FeasibleMatrix.h:28 | the zero flow is conserved everywhere |
| FeasibleMatrix.Graph.FindPath | src/FeasibleMatrix.h:30 | reports true exactly when the sink is reachable from the source through edges of positive residual capacity; leaves the search tree in the vertex records, no vertex gray, and the black vertices exactly the expanded ones, each expanded once |
| FeasibleMatrix.ExpandVertex | src/FeasibleMatrix.h:30 | expanding `u` discovers every white residual successor of `u`, giving it distance one more than `u`, colour gray and predecessor `u`, and appends the discovered vertices to the queue; records that were not white are unchanged, the search invariant holds, and white vertices plus queue length stay constant |
| FeasibleMatrix.VisitSuccessor | src/FeasibleMatrix.h:30 | looking at one candidate `v` of the expanded vertex discovers it exactly when it is white with positive residual capacity from `u` (then it joins the queue); the search invariant and "changed records are exactly new children of `u`" are kept, and white vertices plus queue length stay constant |
| FeasibleMatrix.DiscoverChild | src/FeasibleMatrix.h:30 | discovering one more white residual successor of `u` keeps "changed records are exactly new children of `u`" |
| FeasibleMatrix.StartSearch | src/FeasibleMatrix.h:30 | a search starting with only the source gray and queued satisfies the search invariant |
| FeasibleMatrix.Dequeue | src/FeasibleMatrix.h:30 | taking the queue's head starts its expansion with the invariant intact |
| FeasibleMatrix.Discover | src/FeasibleMatrix.h:11 | a white residual successor turns gray, joins the queue and hangs below the expanded vertex one step further away; the white count drops by one |
| FeasibleMatrix.DiscoverKeepsTree | src/FeasibleMatrix.h:16 | recording the expanded vertex as predecessor keeps the predecessor links a search tree of residual edges |
| FeasibleMatrix.DiscoverKeepsQueue | src/FeasibleMatrix.h:11 | a vertex that turns from white to gray enters the queue only once |
| FeasibleMatrix.DiscoverKeepsBlack | src/FeasibleMatrix.h:11 | turning a white vertex gray changes neither the black vertices nor their closure |
| FeasibleMatrix.Finish | src/FeasibleMatrix.h:11 | once all its successors are discovered, a gray vertex turns black and the search invariant holds again; the white count is unchanged |
| FeasibleMatrix.BlackenKeepsTree | src/FeasibleMatrix.h:11 | recolouring a discovered vertex black keeps the predecessor links a search tree of residual edges |
| FeasibleMatrix.BlackenKeepsClosed | src/FeasibleMatrix.h:11 | blackening a gray vertex whose residual successors are all discovered keeps the black vertices closed under residual edges and exactly the expanded ones, each listed once |
| FeasibleMatrix.WhiteCountUpdate | src/FeasibleMatrix.h:11 | replacing one vertex record changes the number of white vertices by the change in that record's whiteness |
| FeasibleMatrix.SearchOutcome | src/FeasibleMatrix.h:30 | with the queue empty, a vertex has been discovered exactly when an augmenting path reaches it, and no vertex is gray |
| FlowNetwork.ClosedSetHoldsPath | src/FeasibleMatrix.h:30 | a residual path starting in a set closed under residual edges ends in it |
| FeasibleMatrix.PathTo | src/FeasibleMatrix.h:16 | the predecessor chain of a discovered vertex leads back from it to the source, one step of distance at a time |
| FeasibleMatrix.PathToIsResidual | src/FeasibleMatrix.h:16 | the predecessor chain of a discovered vertex is a simple augmenting path |
| FeasibleMatrix.Graph.CalcPathFlow | src/FeasibleMatrix.h:31 | 0 when the sink was not reached, otherwise the smallest residual capacity along the predecessor chain, which is positive |
| FeasibleMatrix.Graph.BottleneckBack | src/FeasibleMatrix.h:31 | the walk back from the sink computes the bottleneck of the tree path |
| FlowNetwork.PathMin | src/FeasibleMatrix.h:31 | the bottleneck is at most the residual capacity of every step |
| FlowNetwork.PathMinAttained | src/FeasibleMatrix.h:31 | the bottleneck is the residual capacity of one of the steps |
| FlowNetwork.PathMinPositive | src/FeasibleMatrix.h:31 | the bottleneck of an augmenting path is positive |
| FlowNetwork.PathMinTail | src/FeasibleMatrix.h:31 | the bottleneck is at most the first step's residual capacity and at most the bottleneck of the rest |
| FeasibleMatrix.Graph.UpdateFlow | src/FeasibleMatrix.h:32 | with the sink unreached, leaves the flow as it was; otherwise pushes `f` along the predecessor chain, keeps the network well formed and raises the flow value by `f` |
| FeasibleMatrix.Graph.PushBack | src/FeasibleMatrix.h:32 | the walk back from the sink pushes `f` along every step of the tree path |
| FeasibleMatrix.Graph.SetFlow | src/FeasibleMatrix.h:32 | installing a flow that keeps the network well formed leaves the graph valid with exactly that flow |
| FeasibleMatrix.AugmentKeepsWellFormed | src/FeasibleMatrix.h:32 | pushing at most the bottleneck along a simple source-to-sink path keeps capacities and conservation, and raises the flow value by the amount |
| FeasibleMatrix.AugmentAlongTree | src/FeasibleMatrix.h:32 | the same for the predecessor chain to the sink |
| FlowNetwork.Push | src/FeasibleMatrix.h:32 | pushing along one edge raises its net flow by the amount and changes no entry outside that vertex pair |
| FlowNetwork.PushNet | src/FeasibleMatrix.h:32 | pushing along `u -> v` raises the net outflow of `u` and lowers that of `v` by the amount, and changes no other vertex's |
| FlowNetwork.PushWithinCapacity | src/FeasibleMatrix.h:25 | pushing at most the residual capacity of an edge keeps every flow within its capacity |
| FlowNetwork.Augmented | src/FeasibleMatrix.h:32 | pushing `f` along every step of a walk, the step nearest the sink first, gives a square matrix of the same size; the lemmas below give its frame, net flows and capacity bounds |
| FlowNetwork.PushZero | src/AuxiliaryFunctions.cpp:152 | pushing 0 along an edge leaves the flow as it was |
| FlowNetwork.AugmentedZero | src/AuxiliaryFunctions.cpp:152 | augmenting any walk by 0 leaves the flow as it was, so the `updateFlow(calcPathFlow())` after the failed search cannot change the flow even without the early return |
| FlowNetwork.AugmentedStep | src/FeasibleMatrix.h:32 | augmenting one more step of the path pushes along that step after the rest |
| FlowNetwork.AugmentedNet | src/FeasibleMatrix.h:32 | augmenting a walk changes net outflow only at its two end points, by the amount |
| FlowNetwork.AugmentedUntouched | src/FeasibleMatrix.h:32 | every entry touching a vertex that is not on the path is unchanged |
| FlowNetwork.AugmentedFrame | src/FeasibleMatrix.h:32 | augmenting changes flow only on the edges of the path |
| FlowNetwork.FirstStepUntouched | src/FeasibleMatrix.h:32 | on a simple path, augmenting the rest leaves the first step's entries unchanged |
| FlowNetwork.AugmentedWithinCapacity | src/FeasibleMatrix.h:25 | augmenting a simple path by at most its bottleneck keeps every flow entry within its capacity |
| FlowNetwork.AugmentedConserved | src/FeasibleMatrix.h:32 | augmenting a simple source-to-sink path keeps conservation away from source and sink and raises the flow value by the amount |
| FeasibleMatrix.OutVertexBalance | src/FeasibleMatrix.h:33 | in a conserved flow within the layout's capacities, what leaves out-vertex `i` for the in-vertices is what the source sends it |
| FeasibleMatrix.InVertexBalance | src/FeasibleMatrix.h:33 | in a conserved flow within the layout's capacities, what reaches in-vertex `j` is what it passes to the sink |
| FeasibleMatrix.FlowMatrixSums | src/FeasibleMatrix.h:33 | the matrix of out-vertex → in-vertex flows is 0/1, its row sums are what the source sends (at most `out_degree`) and its column sums what reaches the sink (at most `in_degree`) |
| FeasibleMatrix.FlowMatrixRow | src/FeasibleMatrix.h:33 | row `i` of the flow matrix sums to what the source sends out-vertex `i`, which is at most `out_degree[i]` |
| FeasibleMatrix.FlowMatrixColumn | src/FeasibleMatrix.h:33 | column `j` of the flow matrix sums to what in-vertex `m + j` passes to the sink, which is at most `in_degree[j]` |
| FeasibleMatrix.Graph.ConstructMatrix | src/FeasibleMatrix.h:33 | entry `(i, j)` is the flow from out-vertex `i` to in-vertex `m + j`, which is 0 or 1; row and column sums are as in `FlowMatrixSums` |

## Left out

- The bodies of the `FeasibleMatrix::Graph` methods: `src/FeasibleMatrix.cpp` is not part of this model. The methods follow the declarations in `src/FeasibleMatrix.h` and standard breadth-first augmentation, with the vertex numbering chosen above.
- `ConstructGraph::Graph`, the network `constructGraph` actually builds, is not part of this model. So its use of the fixed matrix (pre-saturating fixed cells) is not modelled. The fixed matrix is only validated; the network is built from the degree vectors alone.
- AuxiliaryFunctions.ConstructGraph: states that the row and column sums are at most the degrees, not equal to them. Equality needs the max-flow/min-cut argument together with feasibility of the degree vectors. As written, the source does not check feasibility and never reports it.
- FeasibleMatrix.Graph.FindPath: does not state that the search finds a shortest path (distances are breadth-first levels). Only reachability, the search tree and single expansion are proved.
- AuxiliaryFunctions.CheckInputs: an empty degree vector or an empty fixed matrix passes the sign and binary checks. The minimum or maximum of an empty R vector is not an integer, so the source's behaviour there has no integer counterpart.
- The print functions `printMatrix`, `printEdgeData` and `printVertexData`: console output only.
- The Rcpp types `IntegerVector` and `IntegerMatrix` become `seq<int>` and a row-major `IntMatrix`. Errors are `Result` values instead of C++ exceptions.
- `src/interface.h` (the sampler): its bodies are not part of this model, and it uses randomness and floating point.
- `unsigned int` capacities and flows are `nat`: wrap-around is not modelled, because the values are bounded by the degrees.
- FeasibleMatrix.Graph.FindPath: the residual of `u -> v` is `capacity - flow` plus the flow on `v -> u`, not `capacity - flow` alone. Without the reverse term no flow can be cancelled, and a blocked flow need not be maximum.
- FeasibleMatrix.Graph.FindPath: the search scans every vertex by residual capacity and does not consult `adjacency`. Every edge with capacity is recorded there (`WellFormed`), so the residual test alone finds the same successors.
