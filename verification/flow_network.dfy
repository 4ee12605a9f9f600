/**
 * The arithmetic of a flow network over vertices `0 .. n-1`: capacity and
 * flow matrices, residual capacities, flow conservation, and pushing an
 * amount of flow along a path of the residual network.
 *
 * Flows are kept non-negative in both directions of a vertex pair: pushing
 * `f` units from `u` to `v` first cancels flow that runs from `v` to `u`
 * and only then adds flow on `u -> v`. The residual capacity of `u -> v`
 * is therefore the unused capacity of `u -> v` plus the flow on `v -> u`.
 */
module FlowNetwork {
  import opened IntMatrices

  /** A matrix indexed by vertex pairs; unsigned in the source, so `nat` here. */
  type Matrix = seq<seq<nat>>

  predicate IsSquare(M: Matrix)
  {
    forall u :: 0 <= u < |M| ==> |M[u]| == |M|
  }

  /** Entry `(u, v)`, or 0 outside the matrix. */
  function At(M: Matrix, u: int, v: int): nat
  {
    if 0 <= u < |M| && 0 <= v < |M[u]| then M[u][v] else 0
  }

  /** The `n`-by-`n` matrix of zeros. */
  function Zeros(n: nat): (Z: Matrix)
    ensures |Z| == n && IsSquare(Z)
    ensures forall u, v :: 0 <= u < n && 0 <= v < n ==> Z[u][v] == 0
  {
    seq(n, _ => seq(n, _ => 0))
  }

  /** Entries leaving vertex `w`. */
  function Row(M: Matrix, w: int): seq<nat>
  {
    if 0 <= w < |M| then M[w] else []
  }

  /** Entries entering vertex `w`. */
  function Column(M: Matrix, w: int): seq<nat>
  {
    seq(|M|, u => At(M, u, w))
  }

  /** Flow leaving `w` minus flow entering `w`. */
  function Net(F: Matrix, w: int): int
  {
    Sum(Row(F, w)) - Sum(Column(F, w))
  }

  /** How much more flow can go from `u` to `v`. */
  function Residual(C: Matrix, F: Matrix, u: int, v: int): int
  {
    At(C, u, v) - At(F, u, v) + At(F, v, u)
  }

  ghost predicate WithinCapacity(C: Matrix, F: Matrix)
  {
    forall u, v :: 0 <= u < |F| && 0 <= v < |F| ==> At(F, u, v) <= At(C, u, v)
  }

  /** Inflow equals outflow at every vertex other than `s` and `t`. */
  ghost predicate Conserved(F: Matrix, s: int, t: int)
  {
    forall w :: 0 <= w < |F| && w != s && w != t ==> Net(F, w) == 0
  }

  ghost predicate Distinct(p: seq<nat>)
  {
    forall i, j :: 0 <= i < j < |p| ==> p[i] != p[j]
  }

  /** Vertices in range, and no step stays on the same vertex. */
  ghost predicate IsWalk(p: seq<nat>, n: nat)
  {
    (forall i :: 0 <= i < |p| ==> p[i] < n) &&
    (forall i :: 0 <= i < |p| - 1 ==> p[i] != p[i + 1])
  }

  /** A path each of whose steps has positive residual capacity. */
  ghost predicate IsResidualPath(C: Matrix, F: Matrix, p: seq<nat>)
  {
    |p| >= 1 &&
    (forall i :: 0 <= i < |p| ==> p[i] < |F|) &&
    (forall i :: 0 <= i < |p| - 1 ==> Residual(C, F, p[i], p[i + 1]) > 0)
  }

  /** Some augmenting path leads from `s` to `t`. */
  ghost predicate Reachable(C: Matrix, F: Matrix, s: nat, t: nat)
  {
    exists p :: IsResidualPath(C, F, p) && p[0] == s && p[|p| - 1] == t
  }

  /** `{a, b}` is the pair of end points of some step of `p`. */
  ghost predicate OnPath(p: seq<nat>, a: int, b: int)
  {
    exists i :: 0 <= i < |p| - 1 && ((p[i] == a && p[i + 1] == b) || (p[i] == b && p[i + 1] == a))
  }

  /**
   * Pushes `f` units from `u` to `v`: cancels up to `f` units of the flow
   * `v -> u`, and carries the rest on `u -> v`.
   */
  function Push(F: Matrix, u: nat, v: nat, f: nat): (G: Matrix)
    requires IsSquare(F) && u < |F| && v < |F| && u != v
    ensures IsSquare(G) && |G| == |F|
    ensures At(G, u, v) - At(G, v, u) == At(F, u, v) - At(F, v, u) + f
    ensures forall a, b :: !((a == u && b == v) || (a == v && b == u)) ==> At(G, a, b) == At(F, a, b)
  {
    var back := if f <= F[v][u] then f else F[v][u];
    var H := SetEntry(F, v, u, F[v][u] - back);
    SetEntry(H, u, v, F[u][v] + (f - back))
  }

  /**
   * Pushes `f` units along every step of `p`, the last step first (the
   * order in which a walk back from the sink meets them).
   */
  function Augmented(F: Matrix, p: seq<nat>, f: nat): (G: Matrix)
    requires IsSquare(F) && IsWalk(p, |F|)
    ensures IsSquare(G) && |G| == |F|
    decreases |p|
  {
    if |p| < 2 then F else Push(Augmented(F, p[1..], f), p[0], p[1], f)
  }

  /** Pushing nothing along an edge leaves every entry as it was. */
  lemma PushZero(F: Matrix, u: nat, v: nat)
    requires IsSquare(F) && u < |F| && v < |F| && u != v
    ensures Push(F, u, v, 0) == F
  {
    assert F[v][u := F[v][u]] == F[v] && F[v := F[v]] == F;
    assert F[u][v := F[u][v]] == F[u] && F[u := F[u]] == F;
  }

  /** Augmenting by 0 leaves the flow as it was. */
  lemma {:induction false} AugmentedZero(F: Matrix, p: seq<nat>)
    requires IsSquare(F) && IsWalk(p, |F|)
    ensures Augmented(F, p, 0) == F
  {
    if |p| >= 2 {
      assert IsWalk(p[1..], |F|);
      AugmentedZero(F, p[1..]);
      PushZero(F, p[0], p[1]);
    }
  }

  /** Augmenting a suffix one step longer pushes along its first step last. */
  lemma AugmentedStep(F: Matrix, p: seq<nat>, i: nat, f: nat)
    requires IsSquare(F) && IsWalk(p, |F|) && 0 < i < |p|
    ensures IsWalk(p[i - 1..], |F|) && IsWalk(p[i..], |F|)
    ensures Augmented(F, p[i - 1..], f) == Push(Augmented(F, p[i..], f), p[i - 1], p[i], f)
  {
    assert p[i - 1..][1..] == p[i..];
  }

  /** The smallest residual capacity of a step of `p`: its bottleneck. */
  function PathMin(C: Matrix, F: Matrix, p: seq<nat>): (r: int)
    requires |p| >= 2
    ensures forall i :: 0 <= i < |p| - 1 ==> r <= Residual(C, F, p[i], p[i + 1])
    decreases |p|
  {
    var here := Residual(C, F, p[0], p[1]);
    if |p| == 2 then here
    else
      var rest := PathMin(C, F, p[1..]);
      if here <= rest then here else rest
  }

  /** The bottleneck is the residual capacity of one of the steps. */
  lemma {:induction false} PathMinAttained(C: Matrix, F: Matrix, p: seq<nat>)
    requires |p| >= 2
    ensures exists i :: 0 <= i < |p| - 1 && PathMin(C, F, p) == Residual(C, F, p[i], p[i + 1])
  {
    if |p| == 2 || PathMin(C, F, p) == Residual(C, F, p[0], p[1]) {
      assert 0 <= 0 < |p| - 1 && PathMin(C, F, p) == Residual(C, F, p[0], p[1]);
    } else {
      PathMinAttained(C, F, p[1..]);
      var i :| 0 <= i < |p| - 2 && PathMin(C, F, p[1..]) == Residual(C, F, p[1..][i], p[1..][i + 1]);
      assert p[1..][i] == p[i + 1] && p[1..][i + 1] == p[i + 2];
      assert 0 <= i + 1 < |p| - 1 && PathMin(C, F, p) == Residual(C, F, p[i + 1], p[i + 2]);
    }
  }

  /** Along an augmenting path the bottleneck is positive. */
  lemma PathMinPositive(C: Matrix, F: Matrix, p: seq<nat>)
    requires IsResidualPath(C, F, p) && |p| >= 2
    ensures PathMin(C, F, p) > 0
  {
    PathMinAttained(C, F, p);
  }

  /** `M` with entry `(a, b)` replaced by `x`. */
  function SetEntry(M: Matrix, a: nat, b: nat, x: nat): (G: Matrix)
    requires a < |M| && b < |M[a]|
  {
    var row: seq<nat> := M[a][b := x];
    M[a := row]
  }

  /** The zero flow is conserved everywhere. */
  lemma ZerosConserved(n: nat, s: int, t: int)
    ensures Conserved(Zeros(n), s, t)
  {
    var Z := Zeros(n);
    forall w | 0 <= w < n ensures Net(Z, w) == 0 {
      SumOfZeros(Row(Z, w));
      SumOfZeros(Column(Z, w));
    }
  }

  /** Changing one entry moves the net outflow of its row vertex and its column vertex. */
  lemma SetEntryNet(F: Matrix, a: nat, b: nat, x: nat, w: int)
    requires IsSquare(F) && a < |F| && b < |F|
    ensures Net(SetEntry(F, a, b, x), w)
         == Net(F, w) + (if w == a then x - F[a][b] else 0) - (if w == b then x - F[a][b] else 0)
  {
    var G := SetEntry(F, a, b, x);
    if w == a {
      assert Row(G, w) == Row(F, w)[b := x];
      SumUpdate(Row(F, w), b, x);
    } else {
      assert Row(G, w) == Row(F, w);
    }
    if w == b {
      assert Column(G, w) == Column(F, w)[a := x];
      SumUpdate(Column(F, w), a, x);
    } else {
      assert Column(G, w) == Column(F, w);
    }
  }

  /** A push raises the net outflow of `u` by `f`, lowers that of `v` by `f`, and keeps the rest. */
  lemma PushNet(F: Matrix, u: nat, v: nat, f: nat, w: int)
    requires IsSquare(F) && u < |F| && v < |F| && u != v
    ensures Net(Push(F, u, v, f), w) == Net(F, w) + (if w == u then f else 0) - (if w == v then f else 0)
  {
    var back := if f <= F[v][u] then f else F[v][u];
    var H := SetEntry(F, v, u, F[v][u] - back);
    SetEntryNet(F, v, u, F[v][u] - back, w);
    SetEntryNet(H, u, v, F[u][v] + (f - back), w);
  }

  /** A push of at most the residual capacity keeps every flow within its capacity. */
  lemma PushWithinCapacity(C: Matrix, F: Matrix, u: nat, v: nat, f: nat)
    requires IsSquare(F) && |C| == |F| && u < |F| && v < |F| && u != v
    requires WithinCapacity(C, F)
    requires f <= Residual(C, F, u, v)
    ensures WithinCapacity(C, Push(F, u, v, f))
  {
    var G := Push(F, u, v, f);
    forall a, b | 0 <= a < |G| && 0 <= b < |G|
      ensures At(G, a, b) <= At(C, a, b)
    {
      if !((a == u && b == v) || (a == v && b == u)) {
        assert At(G, a, b) == At(F, a, b);
      }
    }
  }

  /** Net outflow changes only at the two ends of an augmenting walk. */
  lemma {:induction false} AugmentedNet(F: Matrix, p: seq<nat>, f: nat, w: int)
    requires IsSquare(F) && IsWalk(p, |F|) && |p| >= 2
    ensures Net(Augmented(F, p, f), w)
         == Net(F, w) + (if w == p[0] then f else 0) - (if w == p[|p| - 1] then f else 0)
  {
    var q := p[1..];
    assert IsWalk(q, |F|);
    if |p| == 2 {
      PushNet(F, p[0], p[1], f, w);
    } else {
      AugmentedNet(F, q, f, w);
      PushNet(Augmented(F, q, f), p[0], p[1], f, w);
    }
  }

  /** Augmenting along `q` leaves alone every entry that touches a vertex off `q`. */
  lemma {:induction false} AugmentedUntouched(F: Matrix, q: seq<nat>, f: nat, a: int, b: int)
    requires IsSquare(F) && IsWalk(q, |F|)
    requires a !in q
    ensures At(Augmented(F, q, f), a, b) == At(F, a, b)
    ensures At(Augmented(F, q, f), b, a) == At(F, b, a)
  {
    if |q| >= 2 {
      assert IsWalk(q[1..], |F|);
      assert a !in q[1..];
      AugmentedUntouched(F, q[1..], f, a, b);
    }
  }

  /** Augmenting along `p` changes only entries of pairs that are steps of `p`. */
  lemma {:induction false} AugmentedFrame(F: Matrix, p: seq<nat>, f: nat, a: int, b: int)
    requires IsSquare(F) && IsWalk(p, |F|)
    requires !OnPath(p, a, b)
    ensures At(Augmented(F, p, f), a, b) == At(F, a, b)
  {
    if |p| >= 2 {
      var q := p[1..];
      assert IsWalk(q, |F|);
      assert !OnPath(q, a, b) by {
        forall i | 0 <= i < |q| - 1
          ensures !((q[i] == a && q[i + 1] == b) || (q[i] == b && q[i + 1] == a))
        {
          assert q[i] == p[i + 1] && q[i + 1] == p[i + 2];
        }
      }
      AugmentedFrame(F, q, f, a, b);
      assert !((a == p[0] && b == p[1]) || (a == p[1] && b == p[0]));
    }
  }

  /** The bottleneck of a path is at most its first step and at most the bottleneck of the rest. */
  lemma PathMinTail(C: Matrix, F: Matrix, p: seq<nat>)
    requires |p| > 2
    ensures PathMin(C, F, p) <= Residual(C, F, p[0], p[1])
    ensures PathMin(C, F, p) <= PathMin(C, F, p[1..])
  {
  }

  /** Augmenting the rest of a simple path leaves its first step alone. */
  lemma FirstStepUntouched(F: Matrix, p: seq<nat>, f: nat)
    requires IsSquare(F) && IsWalk(p, |F|) && Distinct(p) && |p| >= 2
    ensures IsWalk(p[1..], |F|) && Distinct(p[1..])
    ensures At(Augmented(F, p[1..], f), p[0], p[1]) == At(F, p[0], p[1])
    ensures At(Augmented(F, p[1..], f), p[1], p[0]) == At(F, p[1], p[0])
  {
    var q := p[1..];
    assert IsWalk(q, |F|);
    assert p[0] !in q by {
      forall i | 0 <= i < |q| ensures q[i] != p[0] {
        assert q[i] == p[i + 1];
      }
    }
    AugmentedUntouched(F, q, f, p[0], p[1]);
  }

  /** Augmenting a simple path by at most its bottleneck keeps every flow within capacity. */
  lemma {:induction false} AugmentedWithinCapacity(C: Matrix, F: Matrix, p: seq<nat>, f: nat)
    requires IsSquare(F) && |C| == |F| && IsWalk(p, |F|) && Distinct(p) && |p| >= 2
    requires WithinCapacity(C, F)
    requires f <= PathMin(C, F, p)
    ensures WithinCapacity(C, Augmented(F, p, f))
  {
    FirstStepUntouched(F, p, f);
    var G := Augmented(F, p[1..], f);
    if |p| > 2 {
      PathMinTail(C, F, p);
      AugmentedWithinCapacity(C, F, p[1..], f);
    }
    PushWithinCapacity(C, G, p[0], p[1], f);
  }

  /**
   * Augmenting a path from `s` to `t` keeps flow conserved at every other
   * vertex and raises the net outflow of `s` by `f`.
   */
  lemma AugmentedConserved(F: Matrix, p: seq<nat>, f: nat, s: nat, t: nat)
    requires IsSquare(F) && IsWalk(p, |F|) && |p| >= 2 && p[0] == s && p[|p| - 1] == t && s != t
    requires Conserved(F, s, t)
    ensures Conserved(Augmented(F, p, f), s, t)
    ensures Net(Augmented(F, p, f), s) == Net(F, s) + f
  {
    forall w | 0 <= w < |F| && w != s && w != t ensures Net(Augmented(F, p, f), w) == 0 {
      AugmentedNet(F, p, f, w);
    }
    AugmentedNet(F, p, f, s);
  }

  /** With flows within capacity, the net outflow of `s` is at most the capacity out of `s`. */
  lemma NetBelowCapacity(C: Matrix, F: Matrix, s: nat)
    requires IsSquare(F) && IsSquare(C) && |C| == |F| && s < |F|
    requires WithinCapacity(C, F)
    ensures Net(F, s) <= Sum(Row(C, s))
  {
    forall i | 0 <= i < |F| ensures Row(F, s)[i] <= Row(C, s)[i] {
      assert At(F, s, i) <= At(C, s, i);
    }
    SumMonotone(Row(F, s), Row(C, s));
    SumNonNegative(Column(F, s));
  }

  /** A path that starts in a set closed under residual steps never leaves it. */
  lemma {:induction false} ClosedSetHoldsPath(C: Matrix, F: Matrix, S: set<nat>, p: seq<nat>)
    requires IsResidualPath(C, F, p) && p[0] in S
    requires forall u, v :: u in S && 0 <= v < |F| && Residual(C, F, u, v) > 0 ==> v in S
    ensures p[|p| - 1] in S
  {
    if |p| > 1 {
      var q := p[..|p| - 1];
      assert IsResidualPath(C, F, q);
      ClosedSetHoldsPath(C, F, S, q);
      assert Residual(C, F, p[|p| - 2], p[|p| - 1]) > 0;
    }
  }
}
