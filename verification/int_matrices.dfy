/**
 * Integer vectors and matrices as the host environment hands them over
 * (an R integer vector and an R integer matrix), together with the sums
 * that degree sequences are compared against.
 */
module IntMatrices {

  /** Sum of the entries of an integer vector. */
  function Sum(s: seq<int>): int
  {
    if s == [] then 0 else s[0] + Sum(s[1..])
  }

  lemma {:induction false} SumUpdate(s: seq<int>, i: nat, x: int)
    requires i < |s|
    ensures Sum(s[i := x]) == Sum(s) - s[i] + x
  {
    if i == 0 {
      assert s[i := x][1..] == s[1..];
    } else {
      assert s[i := x][1..] == s[1..][i - 1 := x];
      SumUpdate(s[1..], i - 1, x);
    }
  }

  lemma {:induction false} SumConcat(a: seq<int>, b: seq<int>)
    ensures Sum(a + b) == Sum(a) + Sum(b)
  {
    if a == [] {
      assert a + b == b;
    } else {
      assert (a + b)[1..] == a[1..] + b;
      SumConcat(a[1..], b);
    }
  }

  lemma {:induction false} SumMonotone(a: seq<int>, b: seq<int>)
    requires |a| == |b|
    requires forall i :: 0 <= i < |a| ==> a[i] <= b[i]
    ensures Sum(a) <= Sum(b)
  {
    if a != [] {
      SumMonotone(a[1..], b[1..]);
    }
  }

  lemma {:induction false} SumNonNegative(s: seq<int>)
    requires forall i :: 0 <= i < |s| ==> s[i] >= 0
    ensures Sum(s) >= 0
  {
    if s != [] {
      SumNonNegative(s[1..]);
    }
  }

  lemma {:induction false} SumOfZeros(s: seq<int>)
    requires forall i :: 0 <= i < |s| ==> s[i] == 0
    ensures Sum(s) == 0
  {
    if s != [] {
      SumOfZeros(s[1..]);
    }
  }

  /** A vector that is zero everywhere except at `j` sums to its entry at `j`. */
  lemma SumSingle(s: seq<int>, j: nat)
    requires j < |s|
    requires forall i :: 0 <= i < |s| && i != j ==> s[i] == 0
    ensures Sum(s) == s[j]
  {
    assert s == s[..j] + ([s[j]] + s[j + 1..]);
    SumConcat(s[..j], [s[j]] + s[j + 1..]);
    SumConcat([s[j]], s[j + 1..]);
    SumOfZeros(s[..j]);
    SumOfZeros(s[j + 1..]);
  }

  /** A vector that is zero outside `[lo, hi)` sums to the sum of that slice. */
  lemma SumSlice(s: seq<int>, lo: nat, hi: nat)
    requires lo <= hi <= |s|
    requires forall i :: 0 <= i < |s| && !(lo <= i < hi) ==> s[i] == 0
    ensures Sum(s) == Sum(s[lo..hi])
  {
    assert s == s[..lo] + (s[lo..hi] + s[hi..]);
    SumConcat(s[..lo], s[lo..hi] + s[hi..]);
    SumConcat(s[lo..hi], s[hi..]);
    SumOfZeros(s[..lo]);
    SumOfZeros(s[hi..]);
  }

  /**
   * A rectangular integer matrix with `nrow` rows of `ncol` entries each,
   * stored row by row.
   */
  datatype IntMatrix = IntMatrix(nrow: nat, ncol: nat, cells: seq<seq<int>>)
  {
    predicate Wf()
    {
      |cells| == nrow && forall i :: 0 <= i < nrow ==> |cells[i]| == ncol
    }

    /** Entry `(i, j)`, or 0 outside the matrix. */
    function Get(i: int, j: int): int
    {
      if 0 <= i < |cells| && 0 <= j < |cells[i]| then cells[i][j] else 0
    }

    function RowSum(i: int): int
    {
      Sum(seq(ncol, j => Get(i, j)))
    }

    function ColSum(j: int): int
    {
      Sum(seq(nrow, i => Get(i, j)))
    }
  }
}
