/**
 * Input validation and the construction driver of
 * src/AuxiliaryFunctions.cpp: `checkInputs` rejects malformed degree
 * vectors and fixed matrices, and `constructGraph` augments the flow
 * network until no augmenting path is left and reads off the matrix.
 */
module AuxiliaryFunctions {
  import opened IntMatrices
  import opened FlowNetwork
  import opened FeasibleMatrix

  /** The three `invalid_argument` failures of `checkInputs`, in the order they are checked. */
  datatype InputError = IncompatibleDimensions | NegativeDegree | NonBinaryFixed

  /** A check that either passes or fails with an error. */
  datatype Outcome<E> = Pass | Fail(error: E)

  /** A computation that either produces a value or fails with an error. */
  datatype Result<T, E> = Success(value: T) | Failure(error: E)

  /** Smallest entry of a non-empty vector. */
  function Min(s: seq<int>): (r: int)
    requires |s| > 0
    ensures forall i :: 0 <= i < |s| ==> r <= s[i]
    ensures exists i :: 0 <= i < |s| && r == s[i]
  {
    if |s| == 1 then s[0]
    else
      var rest := Min(s[1..]);
      assert forall i :: 1 <= i < |s| ==> s[i] == s[1..][i - 1];
      if s[0] <= rest then s[0] else rest
  }

  /** Largest entry of a non-empty vector. */
  function Max(s: seq<int>): (r: int)
    requires |s| > 0
    ensures forall i :: 0 <= i < |s| ==> s[i] <= r
    ensures exists i :: 0 <= i < |s| && r == s[i]
  {
    if |s| == 1 then s[0]
    else
      var rest := Max(s[1..]);
      assert forall i :: 1 <= i < |s| ==> s[i] == s[1..][i - 1];
      if s[0] >= rest then s[0] else rest
  }

  /** The entries of the rows `rows`, row after row. */
  function Flatten(rows: seq<seq<int>>): (r: seq<int>)
    ensures forall x :: x in r <==> exists i, j :: 0 <= i < |rows| && 0 <= j < |rows[i]| && rows[i][j] == x
  {
    if rows == [] then []
    else
      var rest := Flatten(rows[1..]);
      assert forall i, j :: 1 <= i < |rows| && 0 <= j < |rows[i]| ==> rows[i][j] == rows[1..][i - 1][j];
      rows[0] + rest
  }

  /** The in-degrees index the rows of `fixed`, the out-degrees its columns. */
  predicate ShapeMatches(inDegree: seq<int>, outDegree: seq<int>, fixed: IntMatrix)
  {
    |inDegree| == fixed.nrow && |outDegree| == fixed.ncol
  }

  predicate NonNegative(s: seq<int>)
  {
    forall i :: 0 <= i < |s| ==> s[i] >= 0
  }

  /** Every entry of `fixed` is 0 or 1. */
  predicate IsBinary(fixed: IntMatrix)
    requires fixed.Wf()
  {
    forall i, j :: 0 <= i < fixed.nrow && 0 <= j < fixed.ncol ==> 0 <= fixed.cells[i][j] <= 1
  }

  /** A matrix is 0/1 exactly when its entries' minimum is at least 0 and their maximum at most 1. */
  lemma BinaryByExtremes(fixed: IntMatrix)
    requires fixed.Wf()
    ensures var entries := Flatten(fixed.cells);
      IsBinary(fixed) <==> |entries| == 0 || (Min(entries) >= 0 && Max(entries) <= 1)
  {
    var entries := Flatten(fixed.cells);
    if !IsBinary(fixed) {
      var i, j :| 0 <= i < fixed.nrow && 0 <= j < fixed.ncol && !(0 <= fixed.cells[i][j] <= 1);
      assert fixed.cells[i][j] in entries;
    } else if |entries| > 0 {
      var a :| 0 <= a < |entries| && Min(entries) == entries[a];
      var b :| 0 <= b < |entries| && Max(entries) == entries[b];
      assert entries[a] in entries && entries[b] in entries;
    }
  }

  /**
   * `checkInputs`: the shape check, then the sign check on both degree
   * vectors, then the binary check on the fixed matrix; the first that
   * fails decides the error. The checks use the minimum and maximum of
   * each vector, and an empty vector passes them.
   */
  function CheckInputs(inDegree: seq<int>, outDegree: seq<int>, fixed: IntMatrix): (r: Outcome<InputError>)
    requires fixed.Wf()
    ensures r == Fail(IncompatibleDimensions) <==> !ShapeMatches(inDegree, outDegree, fixed)
    ensures r == Fail(NegativeDegree) <==>
      ShapeMatches(inDegree, outDegree, fixed) && !(NonNegative(outDegree) && NonNegative(inDegree))
    ensures r == Fail(NonBinaryFixed) <==>
      ShapeMatches(inDegree, outDegree, fixed) && NonNegative(outDegree) && NonNegative(inDegree) &&
      !IsBinary(fixed)
    ensures r == Pass <==>
      ShapeMatches(inDegree, outDegree, fixed) && NonNegative(outDegree) && NonNegative(inDegree) &&
      IsBinary(fixed)
  {
    if |inDegree| != fixed.nrow || |outDegree| != fixed.ncol then
      Fail(IncompatibleDimensions)
    else if (|outDegree| > 0 && Min(outDegree) < 0) || (|inDegree| > 0 && Min(inDegree) < 0) then
      Fail(NegativeDegree)
    else
      var entries := Flatten(fixed.cells);
      BinaryByExtremes(fixed);
      if |entries| > 0 && (Min(entries) < 0 || Max(entries) > 1) then
        Fail(NonBinaryFixed)
      else
        Pass
  }

  /**
   * `constructGraph`: validates the inputs, builds the network for the
   * degree vectors, then searches and augments until a search fails, and
   * reads off the matrix. Invalid input fails before any network exists;
   * otherwise the network in `net` has no augmenting path left and the
   * matrix is the 0/1 matrix its flow encodes.
   */
  method ConstructGraph(outDegree: seq<int>, inDegree: seq<int>, fixed: IntMatrix)
    returns (r: Result<IntMatrix, InputError>, ghost net: Graph?)
    requires fixed.Wf()
    ensures CheckInputs(inDegree, outDegree, fixed).Fail? <==> r.Failure?
    ensures r.Failure? ==> r.error == CheckInputs(inDegree, outDegree, fixed).error && net == null
    ensures r.Success? ==>
      net != null && net.Valid() && net.BuiltFrom(outDegree, inDegree) && !net.HasAugmentingPath()
    ensures r.Success? ==>
      var M := r.value;
      M.Wf() && M.nrow == |outDegree| && M.ncol == |inDegree| &&
      (forall i, j :: 0 <= i < M.nrow && 0 <= j < M.ncol ==> 0 <= M.cells[i][j] <= 1) &&
      (forall i :: 0 <= i < M.nrow ==> M.RowSum(i) <= outDegree[i]) &&
      (forall j :: 0 <= j < M.ncol ==> M.ColSum(j) <= inDegree[j])
    ensures r.Success? ==>
      var M := r.value;
      (forall i, j :: 0 <= i < M.nrow && 0 <= j < M.ncol ==> M.cells[i][j] == At(net.flow, i, |outDegree| + j)) &&
      (forall i :: 0 <= i < M.nrow ==> M.RowSum(i) == At(net.flow, net.source, i)) &&
      (forall j :: 0 <= j < M.ncol ==> M.ColSum(j) == At(net.flow, |outDegree| + j, net.sink))
  {
    var check := CheckInputs(inDegree, outDegree, fixed);
    if check.Fail? {
      return Failure(check.error), null;
    }
    var g := new Graph(outDegree, inDegree);
    AugmentUntilBlocked(g, outDegree, inDegree);
    var M := g.ConstructMatrix(outDegree, inDegree);
    return Success(M), g;
  }

  /**
   * The loop of `constructGraph`: search and augment until a search fails.
   * Every successful round raises the flow value, which the capacity out of
   * the source bounds, so the loop ends, with no augmenting path left.
   */
  method AugmentUntilBlocked(g: Graph, ghost outDegree: seq<int>, ghost inDegree: seq<int>)
    requires g.Valid() && g.BuiltFrom(outDegree, inDegree)
    modifies g`vertices, g`flow
    ensures g.Valid() && !g.HasAugmentingPath()
  {
    var sinkFound := true;
    while sinkFound
      invariant g.Valid()
      invariant !sinkFound ==> !g.HasAugmentingPath()
      decreases sinkFound, g.SourceCapacity() - g.FlowValue()
    {
      NetBelowCapacity(g.capacity, g.flow, g.source);
      sinkFound := SearchAndAugment(g);
    }
  }

  /**
   * One round of the loop of `constructGraph`: search, take the bottleneck,
   * augment. A failed search leaves the flow as it was (the bottleneck is 0),
   * and then no augmenting path exists; a successful one raises the flow value.
   */
  method SearchAndAugment(g: Graph) returns (found: bool)
    requires g.Valid()
    modifies g`vertices, g`flow
    ensures g.Valid()
    ensures !found ==> g.flow == old(g.flow) && !g.HasAugmentingPath()
    ensures found ==> g.FlowValue() > old(g.FlowValue())
  {
    ghost var expanded: seq<nat>;
    found, expanded := g.FindPath();
    var f := g.CalcPathFlow();
    g.UpdateFlow(f);
  }
}
