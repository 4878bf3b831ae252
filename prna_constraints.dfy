/**
 * generate_bcp (prna-omp/prna.cpp): the table of base pairs the folding
 * engine may form, one cell per position pair i < j in upper-triangle
 * order.  The base encoding (sequence_from_string) and the canonical-pair
 * test (is_canonical_pair) are not part of this model and are parameters.
 */
module PrnaConstraints {
  import opened PrnaIndex

  /** C's isupper in the default locale. */
  predicate IsUpper(c: char)
  {
    'A' <= c <= 'Z'
  }

  /** The value generate_bcp stores for the pair (i, j), i < j. */
  function BcpCell<B>(s: seq<char>, bases: seq<B>, canonical: (B, B) -> bool, i: int, j: int): int
    requires |bases| == |s| && 0 <= i < j < |s|
  {
    if j - i < LOOP_MIN + 1 || !IsUpper(s[i]) || !IsUpper(s[j]) then 0
    else if canonical(bases[i], bases[j]) &&
            ((i > 0 && j < |s| - 1 && canonical(bases[i - 1], bases[j + 1])) ||
             (j - i >= LOOP_MIN + 3 && canonical(bases[i + 1], bases[j - 1])))
    then 1
    else 0
  }

  /**
   * A cell is 1 exactly when both ends are upper case, at least LOOP_MIN
   * unpaired bases fit between them, they are a canonical pair, and the pair
   * can stack on its outer neighbour (i-1, j+1) inside the sequence or, when
   * there is room for LOOP_MIN bases inside it, on its inner neighbour
   * (i+1, j-1); every other cell is 0.
   */
  lemma BcpCellMeaning<B>(s: seq<char>, bases: seq<B>, canonical: (B, B) -> bool, i: int, j: int)
    requires |bases| == |s| && 0 <= i < j < |s|
    ensures BcpCell(s, bases, canonical, i, j) == 0 || BcpCell(s, bases, canonical, i, j) == 1
    ensures BcpCell(s, bases, canonical, i, j) == 1 <==>
      j - i >= LOOP_MIN + 1 && IsUpper(s[i]) && IsUpper(s[j]) &&
      canonical(bases[i], bases[j]) &&
      ((0 < i && j < |s| - 1 && canonical(bases[i - 1], bases[j + 1])) ||
       (j - i >= LOOP_MIN + 3 && canonical(bases[i + 1], bases[j - 1])))
  {
  }

  /** Distinct upper-triangle pairs of 0..n-1 occupy distinct in-range cells. */
  lemma UpperTriangleCells(n: int)
    requires n >= 0
    ensures forall i, j :: 0 <= i < j < n ==> 0 <= UpperTriangleIndex(i, j) < TriangleSize(n)
    ensures forall i, j, i', j' :: 0 <= i < j < n && 0 <= i' < j' < n && UpperTriangleIndex(i, j) == UpperTriangleIndex(i', j') ==>
      i == i' && j == j'
  {
    forall i, j | 0 <= i < j < n
      ensures 0 <= UpperTriangleIndex(i, j) < TriangleSize(n)
    {
      UpperTriangleIndexInRange(i, j, n);
    }
    forall i, j, i', j' | 0 <= i < j < n && 0 <= i' < j' < n && UpperTriangleIndex(i, j) == UpperTriangleIndex(i', j')
      ensures i == i' && j == j'
    {
      UpperTriangleIndexInjective(i, j, i', j');
    }
  }

  /** `bcp` is the table generate_bcp builds for `s`: one BcpCell per pair i < j. */
  predicate IsBcpTable<B>(bcp: seq<int>, s: seq<char>, bases: seq<B>, canonical: (B, B) -> bool)
    requires |bases| == |s|
  {
    if |bcp| != TriangleSize(|s|) then false
    else
      UpperTriangleCells(|s|);
      forall i, j :: 0 <= i < j < |s| ==> bcp[UpperTriangleIndex(i, j)] == BcpCell(s, bases, canonical, i, j)
  }

  /**
   * generate_bcp: allocates n(n-1)/2 cells and fills every one of them; cell
   * upper_triangle_index(i, j) gets BcpCell(i, j).
   */
  method GenerateBcp<B>(s: seq<char>, bases: seq<B>, canonical: (B, B) -> bool) returns (bcp: array<int>)
    requires |bases| == |s|
    ensures fresh(bcp) && bcp.Length == TriangleSize(|s|)
    ensures IsBcpTable(bcp[..], s, bases, canonical)
    ensures forall k :: 0 <= k < bcp.Length ==>
      bcp[k] == BcpCell(s, bases, canonical, TriangleCell(k, |s|).0, TriangleCell(k, |s|).1)
  {
    var length := |s|;
    TriangleNonNegative(length);
    UpperTriangleCells(length);
    TriangleSizeFormula(length);
    bcp := new int[length * (length - 1) / 2];
    var i := 0;
    while i < length
      invariant 0 <= i <= length
      invariant forall i', j' :: 0 <= i' < i && i' < j' < length ==>
        bcp[UpperTriangleIndex(i', j')] == BcpCell(s, bases, canonical, i', j')
    {
      var j := i + 1;
      while j < length
        invariant i + 1 <= j <= length
        invariant forall i', j' :: 0 <= i' < i && i' < j' < length ==>
          bcp[UpperTriangleIndex(i', j')] == BcpCell(s, bases, canonical, i', j')
        invariant forall j' :: i < j' < j ==>
          bcp[UpperTriangleIndex(i, j')] == BcpCell(s, bases, canonical, i, j')
      {
        ghost var k := UpperTriangleIndex(i, j);
        assert forall i', j' :: 0 <= i' < j' < length && (i', j') != (i, j) ==> UpperTriangleIndex(i', j') != k;
        if j - i < LOOP_MIN + 1 || !IsUpper(s[i]) || !IsUpper(s[j]) {
          TriangleSizeFormula(j);
          bcp[(j * (j - 1)) / 2 + i] := 0;
        } else {
          bcp[UpperTriangleIndex(i, j)] :=
            if canonical(bases[i], bases[j]) &&
               ((i > 0 && j < length - 1 && canonical(bases[i - 1], bases[j + 1])) ||
                (j - i >= LOOP_MIN + 3 && canonical(bases[i + 1], bases[j - 1])))
            then 1 else 0;
        }
        j := j + 1;
      }
      i := i + 1;
    }
    forall k | 0 <= k < bcp.Length
      ensures bcp[k] == BcpCell(s, bases, canonical, TriangleCell(k, length).0, TriangleCell(k, length).1)
    {
      var r := TriangleCell(k, length);
      assert bcp[UpperTriangleIndex(r.0, r.1)] == BcpCell(s, bases, canonical, r.0, r.1);
    }
  }

  /**
   * What a generated table lets can_pair accept: a pair of the table is at
   * least LOOP_MIN + 1 apart, has upper-case ends and is canonical in the
   * order smaller index first.
   */
  lemma GeneratedPairs<B>(s: seq<char>, bases: seq<B>, canonical: (B, B) -> bool, bcp: seq<int>, i: int, j: int)
    requires |bases| == |s| && IsBcpTable(bcp, s, bases, canonical)
    requires CanPair(i, j, |s|, bcp)
    ensures var lo := if i < j then i else j; var hi := if i < j then j else i;
      0 <= lo < hi < |s| && hi - lo >= LOOP_MIN + 1 &&
      IsUpper(s[lo]) && IsUpper(s[hi]) && canonical(bases[lo], bases[hi])
  {
    var lo := if i < j then i else j;
    var hi := if i < j then j else i;
    CanPairSymmetric(i, j, |s|, bcp);
    BcpCellMeaning(s, bases, canonical, lo, hi);
  }
}
