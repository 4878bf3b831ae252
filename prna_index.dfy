/**
 * Index arithmetic of the RNA pairing engine (prna-omp/prna.cpp):
 * row-major indexing of n-by-n tables, upper-triangle indexing of the
 * pairing-constraint table, the pairing test, circular wrap-around and the
 * interior/exterior orientation of a pair.
 */
module PrnaIndex {
  import opened Wrappers
  import opened Arith

  /** Minimum number of unpaired bases in a hairpin loop (a header constant; only its positivity is used). */
  const LOOP_MIN: Positive
  /** Maximum internal-loop span (a header constant; only its positivity is used). */
  const LOOP_MAX: Positive

  /** The large finite energy that stands for "no structure" (its value is not part of this model). */
  const INF: real

  /** Row-major position of cell (i, j) in an n-by-n table. */
  function Ind(i: int, j: int, n: int): int
  {
    i * n + j
  }

  lemma IndInRange(i: int, j: int, n: int)
    requires 0 <= i < n && 0 <= j < n
    ensures 0 <= Ind(i, j, n) < n * n
  {
    assert i * n <= (n - 1) * n;
  }

  lemma IndInjective(i: int, j: int, i': int, j': int, n: int)
    requires 0 <= i && 0 <= i' && 0 <= j < n && 0 <= j' < n
    requires Ind(i, j, n) == Ind(i', j', n)
    ensures i == i' && j == j'
  {
    if i < i' {
      RowsApart(i, i', j, n);
    } else if i' < i {
      RowsApart(i', i, j', n);
    }
  }

  /** Every cell of an earlier row precedes every cell of a later row. */
  lemma RowsApart(i: int, i': int, j: int, n: int)
    requires i < i' && 0 <= j < n
    ensures Ind(i, j, n) < i' * n
  {
    MulAtLeast(i' - i, n);
    assert i' * n == i * n + (i' - i) * n;
  }

  /**
   * Number of cells in the strict upper triangle of an n-by-n table, column
   * by column; TriangleSizeFormula shows it is the n(n-1)/2 of the source.
   */
  function TriangleSize(n: int): int
  {
    if n <= 0 then 0 else TriangleSize(n - 1) + (n - 1)
  }

  /** The closed form used for the allocations and for upper_triangle_index. */
  lemma {:induction false} TriangleSizeFormula(n: int)
    requires n >= 0
    ensures TriangleSize(n) == n * (n - 1) / 2
  {
    if n > 0 {
      TriangleSizeFormula(n - 1);
      assert n * (n - 1) == (n - 1) * (n - 2) + 2 * (n - 1);
    }
  }

  /** Position of pair (i, j), i < j, in the upper-triangle storage: (j(j-1))/2 + i. */
  function UpperTriangleIndex(i: int, j: int): int
  {
    TriangleSize(j) + i
  }

  /** Adding column j to the triangle below it: T(j + 1) = T(j) + j. */
  lemma TriangleStep(j: int)
    requires j >= 0
    ensures TriangleSize(j + 1) == TriangleSize(j) + j
  {
  }

  lemma {:induction false} TriangleMonotone(j: int, k: int)
    requires 0 <= j <= k
    ensures TriangleSize(j) + j <= TriangleSize(k) || j == k
    ensures TriangleSize(j) <= TriangleSize(k)
    decreases k - j
  {
    if j < k {
      TriangleStep(j);
      TriangleMonotone(j + 1, k);
    }
  }

  lemma TriangleNonNegative(j: int)
    ensures TriangleSize(j) >= 0
  {
    if j > 0 {
      TriangleMonotone(0, j);
    }
  }

  /** For 0 <= i < j < n the upper-triangle index lies inside the n(n-1)/2 allocation. */
  lemma UpperTriangleIndexInRange(i: int, j: int, n: int)
    requires 0 <= i < j < n
    ensures 0 <= UpperTriangleIndex(i, j) < TriangleSize(n)
  {
    TriangleNonNegative(j);
    TriangleStep(j);
    TriangleMonotone(j + 1, n);
  }

  /** Distinct pairs occupy distinct cells of the upper-triangle storage. */
  lemma UpperTriangleIndexInjective(i: int, j: int, i': int, j': int)
    requires 0 <= i < j && 0 <= i' < j'
    requires UpperTriangleIndex(i, j) == UpperTriangleIndex(i', j')
    ensures i == i' && j == j'
  {
    if j < j' {
      TriangleStep(j);
      TriangleMonotone(j + 1, j');
      assert false;
    } else if j' < j {
      TriangleStep(j');
      TriangleMonotone(j' + 1, j);
      assert false;
    }
  }

  function {:induction false} TriangleCellFrom(k: int, j: int): (r: (int, int))
    requires j >= 1 && TriangleSize(j) <= k
    ensures 0 <= r.0 < r.1 && UpperTriangleIndex(r.0, r.1) == k
    ensures TriangleSize(r.1) <= k < TriangleSize(r.1 + 1)
    decreases k - TriangleSize(j)
  {
    TriangleStep(j);
    if k < TriangleSize(j + 1) then (k - TriangleSize(j), j)
    else TriangleCellFrom(k, j + 1)
  }

  /** The pair stored at cell k of the upper-triangle storage: the inverse of UpperTriangleIndex. */
  function TriangleCell(k: int, n: int): (r: (int, int))
    requires 0 <= n && 0 <= k < TriangleSize(n)
    ensures 0 <= r.0 < r.1 < n
    ensures UpperTriangleIndex(r.0, r.1) == k
  {
    assert TriangleSize(1) == 0;
    var r := TriangleCellFrom(k, 1);
    TriangleOrder(r.1, n);
    r
  }

  lemma TriangleOrder(a: int, b: int)
    requires 0 <= a && 0 <= b && TriangleSize(a) < TriangleSize(b)
    ensures a < b
  {
    if b <= a {
      TriangleMonotone(b, a);
    }
  }

  /**
   * can_pair: true only for two distinct in-range positions whose
   * constraint-table cell is non-zero; the table is looked up with the
   * smaller index first.
   */
  predicate CanPair(i: int, j: int, n: int, bcp: seq<int>)
    requires n >= 0 && |bcp| == TriangleSize(n)
  {
    if 0 <= i <= n - 1 && 0 <= j <= n - 1 && i != j then
      if i < j then
        UpperTriangleIndexInRange(i, j, n);
        bcp[UpperTriangleIndex(i, j)] != 0
      else
        UpperTriangleIndexInRange(j, i, n);
        bcp[UpperTriangleIndex(j, i)] != 0
    else
      false
  }

  lemma CanPairSymmetric(i: int, j: int, n: int, bcp: seq<int>)
    requires n >= 0 && |bcp| == TriangleSize(n)
    ensures CanPair(i, j, n, bcp) == CanPair(j, i, n, bcp)
  {
  }

  lemma CanPairOnlyDistinctInRange(i: int, j: int, n: int, bcp: seq<int>)
    requires n >= 0 && |bcp| == TriangleSize(n)
    ensures CanPair(i, j, n, bcp) ==> 0 <= i < n && 0 <= j < n && i != j
  {
  }

  /** Circular wrap-around of a position known to be below 2n. */
  function Wrap(i: int, n: int): int
  {
    if i >= n then i - n else i
  }

  predicate IsExterior(i: int, j: int)
  {
    j < i
  }

  predicate IsInterior(i: int, j: int)
  {
    i < j
  }

  /**
   * array_val: the cell (i, j) of an n-by-n table when (i, j) can pair,
   * nothing otherwise (the source returns a null pointer).
   */
  function ArrayVal<T>(a: seq<T>, i: int, j: int, n: int, bcp: seq<int>): (r: Option<T>)
    requires n >= 0 && |a| == n * n && |bcp| == TriangleSize(n)
    ensures r.Some? <==> CanPair(i, j, n, bcp)
    ensures r.Some? ==> 0 <= Ind(i, j, n) < |a| && r.value == a[Ind(i, j, n)]
  {
    if CanPair(i, j, n, bcp) then
      IndInRange(i, j, n);
      Some(a[Ind(i, j, n)])
    else
      None
  }
}
