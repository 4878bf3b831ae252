/**
 * The order matrix of the order search (bn-sycl/main.cpp): genOrders
 * exchanges two nodes a and b of the order by swapping rows a and b and
 * then columns a and b of the NODE_N-by-NODE_N boolean matrix `orders`.
 * The random choice of a and b is left to the caller.
 */
module BnOrders {
  import opened Sequences

  /** The transposition of a and b. */
  function Transpose(x: int, a: int, b: int): int
  {
    if x == a then b else if x == b then a else x
  }

  predicate Square(m: seq<seq<bool>>)
  {
    forall i :: 0 <= i < |m| ==> |m[i]| == |m|
  }

  /** The matrix with nodes a and b exchanged: cell (i, j) is old cell (T i, T j). */
  function Relabel(m: seq<seq<bool>>, a: int, b: int): (r: seq<seq<bool>>)
    requires Square(m) && 0 <= a < |m| && 0 <= b < |m|
    ensures Square(r) && |r| == |m|
  {
    seq(|m|, i requires 0 <= i < |m| => seq(|m|, j requires 0 <= j < |m| => m[Transpose(i, a, b)][Transpose(j, a, b)]))
  }

  /** The contents of an array2 as a matrix. */
  function Matrix(orders: array2<bool>): (r: seq<seq<bool>>)
    requires orders.Length0 == orders.Length1
    reads orders
    ensures Square(r) && |r| == orders.Length0
  {
    seq(orders.Length0, i requires 0 <= i < orders.Length0 reads orders =>
      seq(orders.Length1, j requires 0 <= j < orders.Length1 reads orders => orders[i, j]))
  }

  /** genOrders with the two nodes given: swap rows a and b, then columns a and b. */
  method GenOrders(orders: array2<bool>, a: int, b: int)
    requires orders.Length0 == orders.Length1
    requires 0 <= a < orders.Length0 && 0 <= b < orders.Length0
    modifies orders
    ensures Matrix(orders) == Relabel(old(Matrix(orders)), a, b)
  {
    ghost var m := Matrix(orders);
    var n := orders.Length0;
    for j := 0 to n
      invariant forall i, k :: 0 <= i < n && 0 <= k < n ==>
        orders[i, k] == if k < j then m[Transpose(i, a, b)][k] else m[i][k]
    {
      var tmp := orders[a, j];
      orders[a, j] := orders[b, j];
      orders[b, j] := tmp;
    }
    for j := 0 to n
      invariant forall i, k :: 0 <= i < n && 0 <= k < n ==>
        orders[i, k] == if i < j then m[Transpose(i, a, b)][Transpose(k, a, b)] else m[Transpose(i, a, b)][k]
    {
      var tmp := orders[j, a];
      orders[j, a] := orders[j, b];
      orders[j, b] := tmp;
    }
    assert forall i :: 0 <= i < n ==> Matrix(orders)[i] == Relabel(m, a, b)[i];
  }

  // ---------------------------------------------------------------------
  // What the relabelling keeps

  /** Cell (i, j) moves to (T i, T j). */
  lemma RelabelMoves(m: seq<seq<bool>>, a: int, b: int, i: int, j: int)
    requires Square(m) && 0 <= a < |m| && 0 <= b < |m|
    requires 0 <= i < |m| && 0 <= j < |m|
    ensures 0 <= Transpose(i, a, b) < |m| && 0 <= Transpose(j, a, b) < |m|
    ensures Relabel(m, a, b)[Transpose(i, a, b)][Transpose(j, a, b)] == m[i][j]
  {
  }

  /** Exchanging the same two nodes twice gives back the matrix. */
  lemma RelabelTwice(m: seq<seq<bool>>, a: int, b: int)
    requires Square(m) && 0 <= a < |m| && 0 <= b < |m|
    ensures Relabel(Relabel(m, a, b), a, b) == m
  {
    var r := Relabel(Relabel(m, a, b), a, b);
    forall i | 0 <= i < |m|
      ensures r[i] == m[i]
    {
      assert forall j :: 0 <= j < |m| ==> r[i][j] == m[i][j];
    }
  }

  predicate ZeroDiagonal(m: seq<seq<bool>>)
    requires Square(m)
  {
    forall i :: 0 <= i < |m| ==> !m[i][i]
  }

  lemma RelabelKeepsZeroDiagonal(m: seq<seq<bool>>, a: int, b: int)
    requires Square(m) && 0 <= a < |m| && 0 <= b < |m|
    ensures ZeroDiagonal(Relabel(m, a, b)) <==> ZeroDiagonal(m)
  {
    var r := Relabel(m, a, b);
    if ZeroDiagonal(r) {
      forall i | 0 <= i < |m|
        ensures !m[i][i]
      {
        RelabelMoves(m, a, b, i, i);
      }
    }
  }

  /**
   * A strict total order of the nodes: irreflexive, exactly one direction
   * between distinct nodes, transitive.  initial starts from the order
   * "j before i iff j < i".
   */
  predicate IsOrder(m: seq<seq<bool>>)
    requires Square(m)
  {
    && ZeroDiagonal(m)
    && (forall i, j :: 0 <= i < |m| && 0 <= j < |m| && i != j ==> m[i][j] != m[j][i])
    && (forall i, j, k :: 0 <= i < |m| && 0 <= j < |m| && 0 <= k < |m| && m[i][j] && m[j][k] ==> m[i][k])
  }

  /** The order initial builds before its random exchanges. */
  function InitialOrders(n: nat): (r: seq<seq<bool>>)
    ensures Square(r) && |r| == n
  {
    seq(n, i requires 0 <= i < n => seq(n, j requires 0 <= j < n => j < i))
  }

  lemma InitialOrdersIsOrder(n: nat)
    ensures IsOrder(InitialOrders(n))
  {
  }

  /** Exchanging two nodes turns an order into an order, and only an order comes from one. */
  lemma RelabelKeepsOrder(m: seq<seq<bool>>, a: int, b: int)
    requires Square(m) && 0 <= a < |m| && 0 <= b < |m|
    ensures IsOrder(Relabel(m, a, b)) <==> IsOrder(m)
  {
    RelabelTwice(m, a, b);
    if IsOrder(m) {
      RelabelPreservesOrder(m, a, b);
    }
    if IsOrder(Relabel(m, a, b)) {
      RelabelPreservesOrder(Relabel(m, a, b), a, b);
    }
  }

  lemma RelabelPreservesOrder(m: seq<seq<bool>>, a: int, b: int)
    requires Square(m) && 0 <= a < |m| && 0 <= b < |m| && IsOrder(m)
    ensures IsOrder(Relabel(m, a, b))
  {
    var r := Relabel(m, a, b);
    assert forall i :: 0 <= i < |m| ==> 0 <= Transpose(i, a, b) < |m|;
    assert forall i, j :: 0 <= i < |m| && 0 <= j < |m| && i != j ==> Transpose(i, a, b) != Transpose(j, a, b);
  }

  // ---------------------------------------------------------------------
  // The number of ones

  function RowOnes(row: seq<bool>): nat
  {
    multiset(row)[true]
  }

  /** Number of true cells of the matrix, row by row. */
  function Ones(m: seq<seq<bool>>): int
  {
    Sum(seq(|m|, i requires 0 <= i < |m| => RowOnes(m[i]) as int))
  }

  /** Exchanging two nodes keeps the number of ones (the number of ordered node pairs). */
  lemma RelabelKeepsOnes(m: seq<seq<bool>>, a: int, b: int)
    requires Square(m) && 0 <= a < |m| && 0 <= b < |m|
    ensures Ones(Relabel(m, a, b)) == Ones(m)
  {
    var n := |m|;
    var r := Relabel(m, a, b);
    var counts := seq(n, i requires 0 <= i < n => RowOnes(m[i]) as int);
    forall i | 0 <= i < n
      ensures RowOnes(r[i]) == RowOnes(m[Transpose(i, a, b)])
    {
      var row := m[Transpose(i, a, b)];
      assert r[i] == Swapped(row, a, b);
      SwapKeepsMultiset(row, a, b);
    }
    assert seq(n, i requires 0 <= i < n => RowOnes(r[i]) as int) == Swapped(counts, a, b);
    SumSwap(counts, a, b);
  }
}
