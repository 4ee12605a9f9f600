/**
 * The augmenting-path flow network that builds one degree-constrained
 * 0/1 matrix (namespace FeasibleMatrix of src/FeasibleMatrix.h).
 *
 * The network has `m + k + 2` vertices for `m` out-degrees and `k`
 * in-degrees: out-vertices `0 .. m-1`, in-vertices `m .. m+k-1`, the
 * source `m + k` and the sink `m + k + 1`. The source feeds out-vertex `i`
 * with capacity `out_degree[i]`, every out-vertex reaches every in-vertex
 * with capacity 1, and in-vertex `m + j` drains into the sink with capacity
 * `in_degree[j]`. The flow on out-vertex `i` -> in-vertex `m + j` is entry
 * `(i, j)` of the constructed matrix.
 */
module FeasibleMatrix {
  import opened IntMatrices
  import opened FlowNetwork

  /** Breadth-first search marker: not yet seen, queued, expanded. */
  datatype VertexColor = White | Gray | Black

  /** Per-vertex search record. */
  datatype Vertex = Vertex(distance: nat, color: VertexColor, predecessor: nat)

  /** The record every vertex starts a search with. */
  function FreshVertex(): (r: Vertex)
    ensures r.distance == 0 && r.color == White && r.predecessor == 0
  {
    Vertex(0, White, 0)
  }

  /** Capacity of `u -> v` in the network built from the two degree vectors. */
  function LayoutCapacity(outDegree: seq<int>, inDegree: seq<int>, u: int, v: int): int
  {
    var m, k := |outDegree|, |inDegree|;
    if u == m + k && 0 <= v < m then outDegree[v]
    else if 0 <= u < m && m <= v < m + k then 1
    else if m <= u < m + k && v == m + k + 1 then inDegree[u - m]
    else 0
  }

  /**
   * Capacity of `u -> v` once the constructor has added the source edges of
   * the first `a` out-vertices, the unit edges of the out-vertices before
   * `i` and of out-vertex `i` to the first `j` in-vertices, and the sink
   * edges of the first `e` in-vertices.
   */
  ghost function Staged(outDegree: seq<int>, inDegree: seq<int>, a: nat, i: nat, j: nat, e: nat, u: int, v: int): int
  {
    var m, k := |outDegree|, |inDegree|;
    if u == m + k && 0 <= v < a && v < m then outDegree[v]
    else if 0 <= u < m && m <= v < m + k && (u < i || (u == i && v < m + j)) then 1
    else if m <= u < m + e && u < m + k && v == m + k + 1 then inDegree[u - m]
    else 0
  }

  /** A discovered vertex other than the root hangs below a discovered vertex one step closer. */
  ghost predicate ParentOk(vs: seq<Vertex>, v: nat)
    requires v < |vs|
  {
    var u := vs[v].predecessor;
    u < |vs| && vs[u].color != White && vs[v].distance == vs[u].distance + 1
  }

  /** The discovered vertices form a tree rooted at `s` through their predecessors. */
  ghost predicate TreeShape(vs: seq<Vertex>, s: nat)
  {
    s < |vs| && vs[s].color != White && vs[s].distance == 0 &&
    forall v :: 0 <= v < |vs| && v != s && vs[v].color != White ==> ParentOk(vs, v)
  }

  /** The search tree, each of whose edges has positive residual capacity. */
  ghost predicate SearchTree(C: Matrix, F: Matrix, vs: seq<Vertex>, s: nat)
  {
    TreeShape(vs, s) &&
    forall v :: 0 <= v < |vs| && v != s && vs[v].color != White ==> Residual(C, F, vs[v].predecessor, v) > 0
  }

  /** The tree path from the root `s` to a discovered vertex `v`. */
  ghost function PathTo(vs: seq<Vertex>, s: nat, v: nat): (p: seq<nat>)
    requires TreeShape(vs, s) && v < |vs| && vs[v].color != White
    ensures |p| == vs[v].distance + 1 && p[0] == s && p[|p| - 1] == v
    ensures forall i :: 0 <= i < |p| ==> p[i] < |vs| && vs[p[i]].color != White && vs[p[i]].distance == i
    ensures forall i :: 0 < i < |p| ==> vs[p[i]].predecessor == p[i - 1]
    decreases vs[v].distance
  {
    if v == s then [s] else PathTo(vs, s, vs[v].predecessor) + [v]
  }

  /** `p` climbs the search tree from the root `s`: position `i` holds a vertex at distance `i`. */
  ghost predicate TreePath(vs: seq<Vertex>, s: nat, p: seq<nat>)
  {
    |p| >= 1 && p[0] == s &&
    (forall i :: 0 <= i < |p| ==> p[i] < |vs| && vs[p[i]].distance == i) &&
    forall i :: 0 < i < |p| ==> vs[p[i]].predecessor == p[i - 1]
  }

  /** The tree path to a discovered vertex is a simple augmenting path. */
  lemma PathToIsResidual(C: Matrix, F: Matrix, vs: seq<Vertex>, s: nat, v: nat)
    requires SearchTree(C, F, vs, s) && |F| == |vs| && v < |vs| && vs[v].color != White
    ensures var p := PathTo(vs, s, v);
      IsResidualPath(C, F, p) && Distinct(p) && IsWalk(p, |F|)
  {
    var p := PathTo(vs, s, v);
    forall i | 0 <= i < |p| - 1 ensures Residual(C, F, p[i], p[i + 1]) > 0 {
      assert vs[p[i + 1]].distance == i + 1;
    }
    forall i, j | 0 <= i < j < |p| ensures p[i] != p[j] {
      assert vs[p[i]].distance == i && vs[p[j]].distance == j;
    }
  }

  /** Number of vertices not yet discovered. */
  function WhiteCount(vs: seq<Vertex>): nat
  {
    if vs == [] then 0 else (if vs[0].color == White then 1 else 0) + WhiteCount(vs[1..])
  }

  /** Replacing one record changes the count by the change in its own whiteness. */
  lemma {:induction false} WhiteCountUpdate(vs: seq<Vertex>, i: nat, x: Vertex)
    requires i < |vs|
    ensures WhiteCount(vs[i := x])
         == WhiteCount(vs) - (if vs[i].color == White then 1 else 0) + (if x.color == White then 1 else 0)
  {
    if i == 0 {
      assert vs[i := x][1..] == vs[1..];
    } else {
      assert vs[i := x][1..] == vs[1..][i - 1 := x];
      WhiteCountUpdate(vs[1..], i - 1, x);
    }
  }

  /** The queue holds distinct discovered, unexpanded vertices. */
  ghost predicate Queued(vs: seq<Vertex>, queue: seq<nat>)
  {
    Distinct(queue) && forall i :: 0 <= i < |queue| ==> queue[i] < |vs| && vs[queue[i]].color == Gray
  }

  /** The expanded vertices are distinct and exactly the black ones. */
  ghost predicate ExpandedAreBlack(vs: seq<Vertex>, expanded: seq<nat>)
  {
    Distinct(expanded) &&
    (forall v :: v in expanded ==> v < |vs|) &&
    forall v :: 0 <= v < |vs| ==> (vs[v].color == Black <==> v in expanded)
  }

  /** Every residual successor of an expanded vertex has been discovered. */
  ghost predicate BlackClosed(C: Matrix, F: Matrix, vs: seq<Vertex>)
  {
    forall u, v :: 0 <= u < |vs| && 0 <= v < |vs| && vs[u].color == Black && Residual(C, F, u, v) > 0 ==>
      vs[v].color != White
  }

  /** Every residual successor of `u` below `v` has been discovered. */
  ghost predicate Settled(C: Matrix, F: Matrix, vs: seq<Vertex>, u: nat, v: nat)
  {
    forall w :: 0 <= w < v && w < |vs| && Residual(C, F, u, w) > 0 ==> vs[w].color != White
  }

  /** The state of the search between two expansions. */
  ghost predicate Searching(C: Matrix, F: Matrix, vs: seq<Vertex>, s: nat, queue: seq<nat>, expanded: seq<nat>)
  {
    SearchTree(C, F, vs, s) && Queued(vs, queue) &&
    (forall v :: 0 <= v < |vs| && vs[v].color == Gray ==> v in queue) &&
    ExpandedAreBlack(vs, expanded) && BlackClosed(C, F, vs)
  }

  /** The state of the search while `u`, just taken off the queue, is being expanded. */
  ghost predicate Expanding(C: Matrix, F: Matrix, vs: seq<Vertex>, s: nat, u: nat, queue: seq<nat>, expanded: seq<nat>)
  {
    SearchTree(C, F, vs, s) && Queued(vs, queue) &&
    u < |vs| && vs[u].color == Gray && u !in queue &&
    (forall w :: 0 <= w < |vs| && vs[w].color == Gray ==> w in queue || w == u) &&
    ExpandedAreBlack(vs, expanded) && BlackClosed(C, F, vs)
  }

  /** Only the source is discovered, and it is queued. */
  lemma StartSearch(C: Matrix, F: Matrix, vs: seq<Vertex>, s: nat)
    requires s < |vs| && vs[s] == Vertex(0, Gray, 0)
    requires forall v :: 0 <= v < |vs| && v != s ==> vs[v] == FreshVertex()
    ensures Searching(C, F, vs, s, [s], [])
  {
  }

  /** Taking the head off the queue starts its expansion. */
  lemma Dequeue(C: Matrix, F: Matrix, vs: seq<Vertex>, s: nat, queue: seq<nat>, expanded: seq<nat>)
    requires Searching(C, F, vs, s, queue, expanded) && queue != []
    ensures Expanding(C, F, vs, s, queue[0], queue[1..], expanded)
  {
    var u, rest := queue[0], queue[1..];
    forall w | 0 <= w < |vs| && vs[w].color == Gray
      ensures w in rest || w == u
    {
      assert w in queue;
    }
    forall i | 0 <= i < |rest| ensures rest[i] != u {
      assert rest[i] == queue[i + 1];
    }
  }

  /** Hanging a white residual successor `v` of a discovered `u` below it keeps the search tree. */
  lemma DiscoverKeepsTree(C: Matrix, F: Matrix, vs: seq<Vertex>, s: nat, u: nat, v: nat)
    requires SearchTree(C, F, vs, s) && u < |vs| && vs[u].color != White
    requires v < |vs| && vs[v].color == White && Residual(C, F, u, v) > 0
    ensures SearchTree(C, F, vs[v := Vertex(vs[u].distance + 1, Gray, u)], s)
  {
    var vs' := vs[v := Vertex(vs[u].distance + 1, Gray, u)];
    forall w | 0 <= w < |vs'| && w != s && vs'[w].color != White
      ensures ParentOk(vs', w) && Residual(C, F, vs'[w].predecessor, w) > 0
    {
      if w != v {
        assert ParentOk(vs, w);
      }
    }
  }

  /** Queueing a white vertex as it turns gray keeps the queue invariant. */
  lemma DiscoverKeepsQueue(vs: seq<Vertex>, queue: seq<nat>, v: nat, x: Vertex)
    requires Queued(vs, queue) && v < |vs| && vs[v].color == White && x.color == Gray
    ensures Queued(vs[v := x], queue + [v])
  {
    var q := queue + [v];
    forall i, j | 0 <= i < j < |q| ensures q[i] != q[j] {
      if j == |queue| {
        assert vs[q[i]].color == Gray;
      }
    }
  }

  /** Turning a white vertex gray changes neither the black vertices nor what they reach. */
  lemma DiscoverKeepsBlack(C: Matrix, F: Matrix, vs: seq<Vertex>, expanded: seq<nat>, v: nat, x: Vertex)
    requires ExpandedAreBlack(vs, expanded) && BlackClosed(C, F, vs)
    requires v < |vs| && vs[v].color == White && x.color == Gray
    ensures ExpandedAreBlack(vs[v := x], expanded) && BlackClosed(C, F, vs[v := x])
  {
  }

  /** Discovering a white residual successor `v` of `u` keeps the search state. */
  lemma Discover(C: Matrix, F: Matrix, vs: seq<Vertex>, s: nat, u: nat, queue: seq<nat>, expanded: seq<nat>, v: nat)
    requires Expanding(C, F, vs, s, u, queue, expanded)
    requires v < |vs| && vs[v].color == White && Residual(C, F, u, v) > 0
    requires Settled(C, F, vs, u, v)
    ensures var vs' := vs[v := Vertex(vs[u].distance + 1, Gray, u)];
      Expanding(C, F, vs', s, u, queue + [v], expanded) &&
      Settled(C, F, vs', u, v + 1) &&
      WhiteCount(vs') == WhiteCount(vs) - 1
  {
    var vs' := vs[v := Vertex(vs[u].distance + 1, Gray, u)];
    WhiteCountUpdate(vs, v, vs'[v]);
    DiscoverKeepsTree(C, F, vs, s, u, v);
    DiscoverKeepsQueue(vs, queue, v, vs'[v]);
    DiscoverKeepsBlack(C, F, vs, expanded, v, vs'[v]);
  }

  /** Recolouring a discovered vertex black keeps the search tree. */
  lemma BlackenKeepsTree(C: Matrix, F: Matrix, vs: seq<Vertex>, s: nat, u: nat)
    requires SearchTree(C, F, vs, s) && u < |vs| && vs[u].color != White
    ensures SearchTree(C, F, vs[u := vs[u].(color := Black)], s)
  {
    var vs' := vs[u := vs[u].(color := Black)];
    forall w | 0 <= w < |vs'| && w != s && vs'[w].color != White
      ensures ParentOk(vs', w) && Residual(C, F, vs'[w].predecessor, w) > 0
    {
      assert ParentOk(vs, w);
    }
  }

  /** Recording a settled gray `u` as expanded keeps the black vertices closed and listed. */
  lemma BlackenKeepsClosed(C: Matrix, F: Matrix, vs: seq<Vertex>, u: nat, expanded: seq<nat>)
    requires ExpandedAreBlack(vs, expanded) && BlackClosed(C, F, vs)
    requires u < |vs| && vs[u].color == Gray && Settled(C, F, vs, u, |vs|)
    ensures ExpandedAreBlack(vs[u := vs[u].(color := Black)], expanded + [u])
    ensures BlackClosed(C, F, vs[u := vs[u].(color := Black)])
  {
    var e := expanded + [u];
    forall i, j | 0 <= i < j < |e| ensures e[i] != e[j] {
      if j == |expanded| {
        assert e[i] in expanded;
      }
    }
  }

  /** Colouring `u` black once its successors are discovered ends its expansion. */
  lemma Finish(C: Matrix, F: Matrix, vs: seq<Vertex>, s: nat, u: nat, queue: seq<nat>, expanded: seq<nat>)
    requires Expanding(C, F, vs, s, u, queue, expanded)
    requires Settled(C, F, vs, u, |vs|)
    ensures var vs' := vs[u := vs[u].(color := Black)];
      Searching(C, F, vs', s, queue, expanded + [u]) && WhiteCount(vs') == WhiteCount(vs)
  {
    var vs' := vs[u := vs[u].(color := Black)];
    WhiteCountUpdate(vs, u, vs'[u]);
    BlackenKeepsTree(C, F, vs, s, u);
    BlackenKeepsClosed(C, F, vs, u, expanded);
  }

  /**
   * `vs'` differs from `vs` only in white vertices that became gray
   * residual successors of `u`, one step further from the root.
   */
  ghost predicate ChildrenOf(C: Matrix, F: Matrix, vs: seq<Vertex>, vs': seq<Vertex>, u: nat)
    requires |vs'| == |vs| && u < |vs|
  {
    (forall w :: 0 <= w < |vs| && vs[w].color != White ==> vs'[w] == vs[w]) &&
    forall w :: 0 <= w < |vs| && vs[w].color == White && vs'[w].color != White ==>
      vs'[w] == Vertex(vs[u].distance + 1, Gray, u) && Residual(C, F, u, w) > 0
  }

  /** Discovering one more white residual successor of a discovered `u` keeps `ChildrenOf`. */
  lemma DiscoverChild(C: Matrix, F: Matrix, vs: seq<Vertex>, vs': seq<Vertex>, u: nat, v: nat)
    requires |vs'| == |vs| && u < |vs| && vs[u].color != White && ChildrenOf(C, F, vs, vs', u)
    requires v < |vs| && vs'[v].color == White && Residual(C, F, u, v) > 0
    ensures ChildrenOf(C, F, vs, vs'[v := Vertex(vs'[u].distance + 1, Gray, u)], u)
  {
  }

  /**
   * One step of an expansion of `u`: discovers `v`, with `u` as its
   * predecessor, and queues it when it is a white residual successor of `u`.
   */
  method VisitSuccessor(C: Matrix, F: Matrix, vs0: seq<Vertex>, vs: seq<Vertex>, s: nat, u: nat,
                        queue: seq<nat>, ghost expanded: seq<nat>, v: nat)
    returns (vs': seq<Vertex>, queue': seq<nat>)
    requires |vs| == |vs0| && u < |vs0| && vs0[u].color != White && v < |vs|
    requires Expanding(C, F, vs, s, u, queue, expanded) && Settled(C, F, vs, u, v)
    requires ChildrenOf(C, F, vs0, vs, u)
    ensures |vs'| == |vs|
    ensures Expanding(C, F, vs', s, u, queue', expanded) && Settled(C, F, vs', u, v + 1)
    ensures ChildrenOf(C, F, vs0, vs', u)
    ensures WhiteCount(vs') + |queue'| == WhiteCount(vs) + |queue|
    ensures queue' == queue || queue' == queue + [v]
  {
    if vs[v].color == White && Residual(C, F, u, v) > 0 {
      Discover(C, F, vs, s, u, queue, expanded, v);
      DiscoverChild(C, F, vs0, vs, u, v);
      vs' := vs[v := Vertex(vs[u].distance + 1, Gray, u)];
      queue' := queue + [v];
    } else {
      vs', queue' := vs, queue;
      assert Settled(C, F, vs', u, v + 1);
    }
  }

  /**
   * One expansion of the breadth-first search: every white residual
   * successor of `u` is discovered, in index order, with `u` as its
   * predecessor, and queued.
   */
  method ExpandVertex(C: Matrix, F: Matrix, vs: seq<Vertex>, s: nat, u: nat, queue: seq<nat>, ghost expanded: seq<nat>)
    returns (vs': seq<Vertex>, queue': seq<nat>)
    requires Expanding(C, F, vs, s, u, queue, expanded)
    ensures |vs'| == |vs| && |queue'| >= |queue|
    ensures Expanding(C, F, vs', s, u, queue', expanded) && Settled(C, F, vs', u, |vs'|)
    ensures WhiteCount(vs') + |queue'| == WhiteCount(vs) + |queue|
    ensures queue'[..|queue|] == queue
    ensures forall w :: 0 <= w < |vs| && vs[w].color != White ==> vs'[w] == vs[w]
    ensures forall w :: 0 <= w < |vs| && vs[w].color == White && vs'[w].color != White ==>
      vs'[w] == Vertex(vs[u].distance + 1, Gray, u) && Residual(C, F, u, w) > 0
  {
    vs', queue' := vs, queue;
    ghost var added: seq<nat> := [];
    for v: nat := 0 to |vs|
      invariant |vs'| == |vs|
      invariant Expanding(C, F, vs', s, u, queue', expanded)
      invariant Settled(C, F, vs', u, v)
      invariant WhiteCount(vs') + |queue'| == WhiteCount(vs) + |queue|
      invariant queue' == queue + added
      invariant ChildrenOf(C, F, vs, vs', u)
    {
      ghost var before := queue';
      vs', queue' := VisitSuccessor(C, F, vs, vs', s, u, queue', expanded, v);
      if queue' != before {
        added := added + [v];
      }
    }
    assert queue'[..|queue|] == queue;
  }

  /**
   * When the queue runs dry, the discovered vertices are exactly the ones
   * an augmenting path reaches, and every one of them has been expanded.
   */
  lemma SearchOutcome(C: Matrix, F: Matrix, vs: seq<Vertex>, s: nat, t: nat, expanded: seq<nat>)
    requires Searching(C, F, vs, s, [], expanded) && |F| == |vs| && t < |vs|
    ensures vs[t].color != White <==> Reachable(C, F, s, t)
    ensures forall v :: 0 <= v < |vs| ==> vs[v].color != Gray
  {
    if vs[t].color != White {
      PathToIsResidual(C, F, vs, s, t);
    } else {
      var S := set v | 0 <= v < |vs| && vs[v].color != White;
      forall p | IsResidualPath(C, F, p) && p[0] == s
        ensures p[|p| - 1] != t
      {
        ClosedSetHoldsPath(C, F, S, p);
      }
    }
  }

  /**
   * Shapes agree, every edge with capacity is recorded in the adjacency
   * matrix, flows respect capacities and are conserved away from `s` and `t`.
   */
  ghost predicate WellFormed(A: Matrix, F: Matrix, C: Matrix, s: nat, t: nat)
  {
    var n := |F|;
    |A| == n && IsSquare(A) &&
    IsSquare(F) &&
    |C| == n && IsSquare(C) &&
    s < n && t < n && s != t &&
    (forall u, v :: 0 <= u < n && 0 <= v < n ==> A[u][v] <= 1 && (C[u][v] > 0 ==> A[u][v] == 1)) &&
    WithinCapacity(C, F) &&
    Conserved(F, s, t)
  }

  /** Augmenting a simple path from `s` to `t` by at most its bottleneck keeps the network well formed. */
  lemma AugmentKeepsWellFormed(A: Matrix, F: Matrix, C: Matrix, s: nat, t: nat, p: seq<nat>, f: nat)
    requires WellFormed(A, F, C, s, t)
    requires IsWalk(p, |F|) && Distinct(p) && |p| >= 2 && p[0] == s && p[|p| - 1] == t
    requires f <= PathMin(C, F, p)
    ensures WellFormed(A, Augmented(F, p, f), C, s, t)
    ensures Net(Augmented(F, p, f), s) == Net(F, s) + f
  {
    AugmentedWithinCapacity(C, F, p, f);
    AugmentedConserved(F, p, f, s, t);
  }

  /**
   * Augmenting along the search-tree path to a discovered `t` by at most its
   * bottleneck keeps the network well formed and raises the flow value by `f`.
   */
  lemma AugmentAlongTree(A: Matrix, F: Matrix, C: Matrix, vs: seq<Vertex>, s: nat, t: nat, f: nat)
    requires WellFormed(A, F, C, s, t) && |vs| == |F| && SearchTree(C, F, vs, s)
    requires t < |vs| && vs[t].color != White
    requires f <= PathMin(C, F, PathTo(vs, s, t))
    ensures var p := PathTo(vs, s, t);
      TreePath(vs, s, p) && IsWalk(p, |F|) &&
      WellFormed(A, Augmented(F, p, f), C, s, t) && Net(Augmented(F, p, f), s) == Net(F, s) + f
  {
    PathToIsResidual(C, F, vs, s, t);
    AugmentKeepsWellFormed(A, F, C, s, t, PathTo(vs, s, t), f);
  }

  /** `C` is the capacity matrix of the bipartite layout of the two degree vectors. */
  ghost predicate IsLayout(C: Matrix, outDegree: seq<int>, inDegree: seq<int>)
  {
    var n := |outDegree| + |inDegree| + 2;
    |C| == n &&
    forall u, v :: 0 <= u < n && 0 <= v < n ==> At(C, u, v) == LayoutCapacity(outDegree, inDegree, u, v)
  }

  /**
   * In a conserved flow within the layout's capacities, what leaves
   * out-vertex `i` towards the in-vertices is what the source sends it.
   */
  lemma OutVertexBalance(F: Matrix, C: Matrix, outDegree: seq<int>, inDegree: seq<int>, i: nat)
    requires IsLayout(C, outDegree, inDegree) && IsSquare(F) && |F| == |C|
    requires WithinCapacity(C, F) && i < |outDegree| && Net(F, i) == 0
    ensures Sum(seq(|inDegree|, j => At(F, i, |outDegree| + j))) == At(F, |outDegree| + |inDegree|, i)
  {
    var m, k := |outDegree|, |inDegree|;
    var n := m + k + 2;
    forall v | 0 <= v < n && !(m <= v < m + k) ensures F[i][v] == 0 {
      assert At(F, i, v) <= At(C, i, v) == LayoutCapacity(outDegree, inDegree, i, v);
    }
    SumSlice(F[i], m, m + k);
    assert F[i][m..m + k] == seq(k, j => At(F, i, m + j));
    var col := Column(F, i);
    forall u | 0 <= u < n && u != m + k ensures col[u] == 0 {
      assert At(F, u, i) <= At(C, u, i) == LayoutCapacity(outDegree, inDegree, u, i);
    }
    SumSingle(col, m + k);
  }

  /**
   * In a conserved flow within the layout's capacities, what reaches
   * in-vertex `m + j` from the out-vertices is what it passes to the sink.
   */
  lemma InVertexBalance(F: Matrix, C: Matrix, outDegree: seq<int>, inDegree: seq<int>, j: nat)
    requires IsLayout(C, outDegree, inDegree) && IsSquare(F) && |F| == |C|
    requires WithinCapacity(C, F) && j < |inDegree| && Net(F, |outDegree| + j) == 0
    ensures Sum(seq(|outDegree|, i => At(F, i, |outDegree| + j))) == At(F, |outDegree| + j, |outDegree| + |inDegree| + 1)
  {
    var m, k := |outDegree|, |inDegree|;
    var n := m + k + 2;
    var w := m + j;
    forall v | 0 <= v < n && v != m + k + 1 ensures F[w][v] == 0 {
      assert At(F, w, v) <= At(C, w, v) == LayoutCapacity(outDegree, inDegree, w, v);
    }
    SumSingle(F[w], m + k + 1);
    var col := Column(F, w);
    forall u | 0 <= u < n && !(0 <= u < m) ensures col[u] == 0 {
      assert At(F, u, w) <= At(C, u, w) == LayoutCapacity(outDegree, inDegree, u, w);
    }
    SumSlice(col, 0, m);
    assert col[0..m] == seq(m, i => At(F, i, w));
  }

  /**
   * The matrix read off the out-vertex -> in-vertex flows of a conserved
   * flow within the layout's capacities is 0/1, its row sums are what the
   * source sends and stay within the out-degrees, and its column sums are
   * what reaches the sink and stay within the in-degrees.
   */
  lemma FlowMatrixSums(F: Matrix, C: Matrix, outDegree: seq<int>, inDegree: seq<int>, r: IntMatrix)
    requires IsLayout(C, outDegree, inDegree) && IsSquare(F) && |F| == |C| && WithinCapacity(C, F)
    requires Conserved(F, |outDegree| + |inDegree|, |outDegree| + |inDegree| + 1)
    requires r.Wf() && r.nrow == |outDegree| && r.ncol == |inDegree|
    requires forall i, j :: 0 <= i < r.nrow && 0 <= j < r.ncol ==> r.cells[i][j] == F[i][|outDegree| + j]
    ensures forall i, j :: 0 <= i < r.nrow && 0 <= j < r.ncol ==> 0 <= r.cells[i][j] <= 1
    ensures forall i :: 0 <= i < r.nrow ==>
      r.RowSum(i) == At(F, |outDegree| + |inDegree|, i) <= outDegree[i]
    ensures forall j :: 0 <= j < r.ncol ==>
      r.ColSum(j) == At(F, |outDegree| + j, |outDegree| + |inDegree| + 1) <= inDegree[j]
  {
    var m, k := |outDegree|, |inDegree|;
    forall i, j | 0 <= i < m && 0 <= j < k ensures 0 <= r.cells[i][j] <= 1 {
      assert At(F, i, m + j) <= At(C, i, m + j) == LayoutCapacity(outDegree, inDegree, i, m + j);
    }
    forall i | 0 <= i < m ensures r.RowSum(i) == At(F, m + k, i) <= outDegree[i] {
      FlowMatrixRow(F, C, outDegree, inDegree, r, i);
    }
    forall j | 0 <= j < k ensures r.ColSum(j) == At(F, m + j, m + k + 1) <= inDegree[j] {
      FlowMatrixColumn(F, C, outDegree, inDegree, r, j);
    }
  }

  /** Row `i` of the flow matrix sums to what the source sends out-vertex `i`. */
  lemma FlowMatrixRow(F: Matrix, C: Matrix, outDegree: seq<int>, inDegree: seq<int>, r: IntMatrix, i: nat)
    requires IsLayout(C, outDegree, inDegree) && IsSquare(F) && |F| == |C| && WithinCapacity(C, F)
    requires i < |outDegree| && Net(F, i) == 0
    requires r.Wf() && r.nrow == |outDegree| && r.ncol == |inDegree|
    requires forall i, j :: 0 <= i < r.nrow && 0 <= j < r.ncol ==> r.cells[i][j] == F[i][|outDegree| + j]
    ensures r.RowSum(i) == At(F, |outDegree| + |inDegree|, i) <= outDegree[i]
  {
    var m, k := |outDegree|, |inDegree|;
    OutVertexBalance(F, C, outDegree, inDegree, i);
    assert seq(k, j => r.Get(i, j)) == seq(k, j => At(F, i, m + j));
    assert At(F, m + k, i) <= At(C, m + k, i) == LayoutCapacity(outDegree, inDegree, m + k, i);
  }

  /** Column `j` of the flow matrix sums to what in-vertex `m + j` passes to the sink. */
  lemma FlowMatrixColumn(F: Matrix, C: Matrix, outDegree: seq<int>, inDegree: seq<int>, r: IntMatrix, j: nat)
    requires IsLayout(C, outDegree, inDegree) && IsSquare(F) && |F| == |C| && WithinCapacity(C, F)
    requires j < |inDegree| && Net(F, |outDegree| + j) == 0
    requires r.Wf() && r.nrow == |outDegree| && r.ncol == |inDegree|
    requires forall i, j :: 0 <= i < r.nrow && 0 <= j < r.ncol ==> r.cells[i][j] == F[i][|outDegree| + j]
    ensures r.ColSum(j) == At(F, |outDegree| + j, |outDegree| + |inDegree| + 1) <= inDegree[j]
  {
    var m, k := |outDegree|, |inDegree|;
    InVertexBalance(F, C, outDegree, inDegree, j);
    assert seq(m, i => r.Get(i, j)) == seq(m, i => At(F, i, m + j));
    assert At(F, m + j, m + k + 1) <= At(C, m + j, m + k + 1) == LayoutCapacity(outDegree, inDegree, m + j, m + k + 1);
  }

  /**
   * The flow network. `vertices`, `flow` and `capacity` are updated in
   * place by the search and augmentation steps; `source` and `sink` are
   * fixed at construction.
   */
  class Graph {
    var vertices: seq<Vertex>
    var adjacency: Matrix
    var flow: Matrix
    var capacity: Matrix
    const source: nat
    const sink: nat

    /** The vertex records match the network, which is well formed. */
    ghost predicate Valid()
      reads this
    {
      |vertices| == |flow| && NetworkOk()
    }

    /** The adjacency, flow and capacity matrices form a well-formed network. */
    ghost predicate NetworkOk()
      reads this`adjacency, this`flow, this`capacity
    {
      WellFormed(adjacency, flow, capacity, source, sink)
    }

    /** The network has the bipartite layout of the two (non-negative) degree vectors. */
    ghost predicate BuiltFrom(outDegree: seq<int>, inDegree: seq<int>)
      reads this`capacity
    {
      var m, k := |outDegree|, |inDegree|;
      (forall i :: 0 <= i < m ==> outDegree[i] >= 0) &&
      (forall j :: 0 <= j < k ==> inDegree[j] >= 0) &&
      source == m + k && sink == m + k + 1 &&
      IsLayout(capacity, outDegree, inDegree)
    }

    /** Value of the current flow: the net amount leaving the source. */
    ghost function FlowValue(): int
      reads this`flow
    {
      Net(flow, source)
    }

    /** Total capacity out of the source, an upper bound on the flow value. */
    ghost function SourceCapacity(): int
      reads this`capacity
    {
      Sum(Row(capacity, source))
    }

    ghost predicate HasAugmentingPath()
      reads this`capacity, this`flow
    {
      Reachable(capacity, flow, source, sink)
    }

    /** Builds the network for the degree vectors, with no flow and every vertex fresh. */
    constructor (outDegree: seq<int>, inDegree: seq<int>)
      requires forall i :: 0 <= i < |outDegree| ==> outDegree[i] >= 0
      requires forall j :: 0 <= j < |inDegree| ==> inDegree[j] >= 0
      ensures Valid() && BuiltFrom(outDegree, inDegree)
      ensures forall v :: 0 <= v < |vertices| ==> vertices[v] == FreshVertex()
      ensures forall u, v :: 0 <= u < |flow| && 0 <= v < |flow| ==> flow[u][v] == 0
    {
      var m, k := |outDegree|, |inDegree|;
      var n := m + k + 2;
      source, sink := m + k, m + k + 1;
      vertices := seq(n, _ => FreshVertex());
      adjacency, flow, capacity := Zeros(n), Zeros(n), Zeros(n);
      new;
      ZerosConserved(n, source, sink);
      assert forall u, v :: 0 <= u < n && 0 <= v < n ==>
        capacity[u][v] == Staged(outDegree, inDegree, 0, 0, 0, 0, u, v);
      AddSourceEdges(outDegree, inDegree);
      AddUnitEdges(outDegree, inDegree);
      AddSinkEdges(outDegree, inDegree);
    }

    /** Whether the capacities are those of the constructor's stage `(a, i, j, e)` (see `Staged`). */
    ghost predicate AtStage(outDegree: seq<int>, inDegree: seq<int>, a: nat, i: nat, j: nat, e: nat)
      reads this
    {
      var n := |outDegree| + |inDegree| + 2;
      Valid() && |vertices| == n && source == n - 2 && sink == n - 1 &&
      (forall u, v :: 0 <= u < n && 0 <= v < n ==> flow[u][v] == 0) &&
      (forall u, v :: 0 <= u < n && 0 <= v < n ==> capacity[u][v] == Staged(outDegree, inDegree, a, i, j, e, u, v))
    }

    /** Constructor stage: source -> out-vertex `i` with capacity `out_degree[i]`. */
    method AddSourceEdges(outDegree: seq<int>, inDegree: seq<int>)
      requires forall i :: 0 <= i < |outDegree| ==> outDegree[i] >= 0
      requires AtStage(outDegree, inDegree, 0, 0, 0, 0)
      modifies this`adjacency, this`capacity
      ensures AtStage(outDegree, inDegree, |outDegree|, 0, 0, 0)
    {
      for i := 0 to |outDegree|
        invariant AtStage(outDegree, inDegree, i, 0, 0, 0)
      {
        AddEdge(source, i, outDegree[i]);
      }
    }

    /** Constructor stage: out-vertex `i` -> in-vertex `m + j` with capacity 1. */
    method AddUnitEdges(outDegree: seq<int>, inDegree: seq<int>)
      requires AtStage(outDegree, inDegree, |outDegree|, 0, 0, 0)
      modifies this`adjacency, this`capacity
      ensures AtStage(outDegree, inDegree, |outDegree|, |outDegree|, 0, 0)
    {
      var m, k := |outDegree|, |inDegree|;
      for i := 0 to m
        invariant AtStage(outDegree, inDegree, m, i, 0, 0)
      {
        for j := 0 to k
          invariant AtStage(outDegree, inDegree, m, i, j, 0)
        {
          AddEdge(i, m + j, 1);
        }
        assert AtStage(outDegree, inDegree, m, i + 1, 0, 0);
      }
    }

    /** Constructor stage: in-vertex `m + j` -> sink with capacity `in_degree[j]`. */
    method AddSinkEdges(outDegree: seq<int>, inDegree: seq<int>)
      requires forall j :: 0 <= j < |inDegree| ==> inDegree[j] >= 0
      requires AtStage(outDegree, inDegree, |outDegree|, |outDegree|, 0, 0)
      modifies this`adjacency, this`capacity
      ensures AtStage(outDegree, inDegree, |outDegree|, |outDegree|, 0, |inDegree|)
    {
      var m, k := |outDegree|, |inDegree|;
      for j := 0 to k
        invariant AtStage(outDegree, inDegree, m, m, 0, j)
      {
        AddEdge(m + j, sink, inDegree[j]);
      }
    }

    /** Records the edge `u -> v` with capacity `c`; the flow already on it must fit. */
    method AddEdge(u: nat, v: nat, c: nat)
      requires Valid() && u < |vertices| && v < |vertices|
      requires flow[u][v] <= c
      modifies this`adjacency, this`capacity
      ensures Valid()
      ensures adjacency == SetEntry(old(adjacency), u, v, 1)
      ensures capacity == SetEntry(old(capacity), u, v, c)
    {
      adjacency := SetEntry(adjacency, u, v, 1);
      capacity := SetEntry(capacity, u, v, c);
    }

    /**
     * Breadth-first search of the residual network from the source.
     * Reports whether the sink was reached; the vertex records then hold the
     * search tree. `expanded` lists the vertices in the order they were
     * taken off the queue.
     */
    method FindPath() returns (found: bool, ghost expanded: seq<nat>)
      requires Valid()
      modifies this`vertices
      ensures Valid() && |vertices| == old(|vertices|)
      ensures SearchTree(capacity, flow, vertices, source)
      ensures found <==> vertices[sink].color != White
      ensures found <==> HasAugmentingPath()
      ensures forall v :: 0 <= v < |vertices| ==> vertices[v].color != Gray
      ensures Distinct(expanded)
      ensures forall v :: 0 <= v < |vertices| ==> (vertices[v].color == Black <==> v in expanded)
    {
      var n := |vertices|;
      var C, F := capacity, flow;
      var vs := seq(n, _ => FreshVertex());
      vs := vs[source := Vertex(0, Gray, 0)];
      var queue: seq<nat> := [source];
      expanded := [];
      StartSearch(C, F, vs, source);
      while queue != []
        invariant |vs| == n
        invariant Searching(C, F, vs, source, queue, expanded)
        decreases WhiteCount(vs), |queue|
      {
        Dequeue(C, F, vs, source, queue, expanded);
        var u := queue[0];
        queue := queue[1..];
        vs, queue := ExpandVertex(C, F, vs, source, u, queue, expanded);
        Finish(C, F, vs, source, u, queue, expanded);
        vs := vs[u := vs[u].(color := Black)];
        expanded := expanded + [u];
      }
      vertices := vs;
      found := vertices[sink].color != White;
      SearchOutcome(capacity, flow, vertices, source, sink, expanded);
    }

    /**
     * Bottleneck of the augmenting path the last search found, walking the
     * predecessor links back from the sink; 0 when the sink was not reached.
     */
    method CalcPathFlow() returns (f: nat)
      requires Valid() && SearchTree(capacity, flow, vertices, source)
      ensures vertices[sink].color == White ==> f == 0
      ensures vertices[sink].color != White ==>
        f > 0 && f == PathMin(capacity, flow, PathTo(vertices, source, sink))
    {
      if vertices[sink].color == White {
        return 0;
      }
      ghost var p := PathTo(vertices, source, sink);
      PathToIsResidual(capacity, flow, vertices, source, sink);
      PathMinPositive(capacity, flow, p);
      f := BottleneckBack(sink, p);
    }

    /** The walk of `CalcPathFlow` from `t` back to the source along the tree path `p`. */
    method BottleneckBack(t: nat, ghost p: seq<nat>) returns (f: nat)
      requires TreePath(vertices, source, p) && |p| >= 2 && p[|p| - 1] == t
      requires IsResidualPath(capacity, flow, p)
      ensures f == PathMin(capacity, flow, p)
    {
      var v := t;
      var u := vertices[v].predecessor;
      assert u == p[|p| - 2];
      f := Residual(capacity, flow, u, v);
      v := u;
      ghost var k := |p| - 2;
      while v != source
        invariant 0 <= k < |p| - 1 && v == p[k]
        invariant f == PathMin(capacity, flow, p[k..])
        decreases k
      {
        u := vertices[v].predecessor;
        assert u == p[k - 1];
        var r := Residual(capacity, flow, u, v);
        assert p[k - 1..][1..] == p[k..];
        if r < f {
          f := r;
        }
        v := u;
        k := k - 1;
      }
      assert p[k..] == p;
    }

    /**
     * Pushes `f` units along the augmenting path the last search found,
     * walking back from the sink and cancelling reverse flow first; does
     * nothing when the sink was not reached.
     */
    method UpdateFlow(f: nat)
      requires Valid() && SearchTree(capacity, flow, vertices, source)
      requires vertices[sink].color != White ==> f <= PathMin(capacity, flow, PathTo(vertices, source, sink))
      modifies this`flow
      ensures Valid()
      ensures old(vertices[sink].color) == White ==> flow == old(flow)
      ensures old(vertices[sink].color) != White ==>
        flow == Augmented(old(flow), old(PathTo(vertices, source, sink)), f) &&
        FlowValue() == old(FlowValue()) + f
    {
      if vertices[sink].color == White {
        return;
      }
      ghost var p := PathTo(vertices, source, sink);
      AugmentAlongTree(adjacency, flow, capacity, vertices, source, sink, f);
      var G := PushBack(flow, sink, f, p);
      SetFlow(G);
    }

    /** Installs a new flow that keeps the network well formed. */
    method SetFlow(G: Matrix)
      requires |vertices| == |G| && WellFormed(adjacency, G, capacity, source, sink)
      modifies this`flow
      ensures flow == G && Valid()
    {
      flow := G;
    }

    /** The walk of `UpdateFlow` from `t` back to the source along the tree path `p`. */
    method PushBack(F0: Matrix, t: nat, f: nat, ghost p: seq<nat>) returns (G: Matrix)
      requires TreePath(vertices, source, p) && |p| >= 1 && p[|p| - 1] == t
      requires IsSquare(F0) && IsWalk(p, |F0|)
      ensures G == Augmented(F0, p, f)
    {
      G := F0;
      var v := t;
      ghost var k := |p| - 1;
      while v != source
        invariant 0 <= k < |p| && v == p[k]
        invariant IsWalk(p[k..], |F0|) && G == Augmented(F0, p[k..], f)
        decreases k
      {
        var u := vertices[v].predecessor;
        assert u == p[k - 1];
        AugmentedStep(F0, p, k, f);
        G := Push(G, u, v, f);
        v := u;
        k := k - 1;
      }
      assert p[k..] == p;
    }

    /**
     * The 0/1 matrix the flow encodes: entry `(i, j)` is the flow from
     * out-vertex `i` to in-vertex `m + j`.
     */
    method ConstructMatrix(outDegree: seq<int>, inDegree: seq<int>) returns (r: IntMatrix)
      requires Valid() && BuiltFrom(outDegree, inDegree)
      ensures r.Wf() && r.nrow == |outDegree| && r.ncol == |inDegree|
      ensures forall i, j :: 0 <= i < r.nrow && 0 <= j < r.ncol ==>
        r.cells[i][j] == At(flow, i, |outDegree| + j) && 0 <= r.cells[i][j] <= 1
      ensures forall i :: 0 <= i < r.nrow ==> r.RowSum(i) == At(flow, source, i) <= outDegree[i]
      ensures forall j :: 0 <= j < r.ncol ==> r.ColSum(j) == At(flow, |outDegree| + j, sink) <= inDegree[j]
    {
      var m, k := |outDegree|, |inDegree|;
      var cells: seq<seq<int>> := [];
      for i := 0 to m
        invariant |cells| == i
        invariant forall a :: 0 <= a < i ==> |cells[a]| == k
        invariant forall a, b :: 0 <= a < i && 0 <= b < k ==> cells[a][b] == flow[a][m + b]
      {
        var row: seq<int> := [];
        for j := 0 to k
          invariant |row| == j
          invariant forall b :: 0 <= b < j ==> row[b] == flow[i][m + b]
        {
          row := row + [flow[i][m + j]];
        }
        cells := cells + [row];
      }
      r := IntMatrix(m, k, cells);
      FlowMatrixSums(flow, capacity, outDegree, inDegree, r);
    }
  }
}
