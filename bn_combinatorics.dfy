/**
 * Counting and ranking helpers of the Bayesian-network order search
 * (bn-sycl/main.cpp): the binomial coefficient C, the rank findindex of a
 * parent set inside a node's block of the local-score table, and the block
 * size sizepernode.  Integers are unbounded; the 32-bit overflow of the
 * source is not modelled.
 */
module BnCombinatorics {
  import opened Wrappers
  import opened Arith

  /** Number of nodes of the network (a header constant). */
  const NODE_N: Positive

  /** Parent-set members are drawn from 1..NODE_N-1. */
  function M(): int
  {
    NODE_N - 1
  }

  // ---------------------------------------------------------------------
  // Binomial coefficients

  /** The binomial coefficient by Pascal's rule; 0 outside 0 <= k <= n. */
  function Binom(n: int, k: int): nat
    decreases n
  {
    if k < 0 || n < k then 0
    else if k == 0 then 1
    else Binom(n - 1, k - 1) + Binom(n - 1, k)
  }

  /** Pascal's rule holds for every k once n >= 1. */
  lemma Pascal(n: int, k: int)
    requires n >= 1
    ensures Binom(n, k) == Binom(n - 1, k - 1) + Binom(n - 1, k)
  {
  }

  lemma BinomOne(n: int)
    requires n >= 0
    ensures Binom(n, 1) == n
    decreases n
  {
    if n >= 2 {
      BinomOne(n - 1);
      Pascal(n, 1);
    }
  }

  function Fact(k: int): nat
    decreases k
  {
    if k <= 0 then 1 else k * Fact(k - 1)
  }

  /** n (n-1) ... (n-k+1), the product the first loop of C builds. */
  function FallingFactorial(n: int, k: int): int
    decreases k
  {
    if k <= 0 then 1 else n * FallingFactorial(n - 1, k - 1)
  }

  /** The first loop of C multiplies at the low end: FF(n, i+1) = FF(n, i) (n - i). */
  lemma {:induction false} FallingFactorialStep(n: int, i: int)
    requires i >= 0
    ensures FallingFactorial(n, i + 1) == FallingFactorial(n, i) * (n - i)
    decreases i
  {
    if i > 0 {
      FallingFactorialStep(n - 1, i - 1);
      Reassociate(n, FallingFactorial(n - 1, i - 1), n - i, 1, n * FallingFactorial(n - 1, i - 1));
    }
  }

  /** Absorption: k C(n, k) = n C(n-1, k-1). */
  lemma {:induction false} Absorption(n: int, k: int)
    requires n >= 1 && k >= 1
    ensures k * Binom(n, k) == n * Binom(n - 1, k - 1)
    decreases n
  {
    if k == 1 {
      BinomOne(n);
    } else if k < n {
      Pascal(n, k);
      Pascal(n - 1, k - 1);
      Absorption(n - 1, k);
      Absorption(n - 1, k - 1);
      AbsorptionStep(n, k, Binom(n - 1, k - 1), Binom(n - 1, k), Binom(n - 2, k - 2), Binom(n - 2, k - 1));
    }
  }

  /** The falling factorial is C(n, k) k!, so dividing it by k, k-1, ..., 1 is exact. */
  lemma {:induction false} FallingFactorialBinom(n: int, k: int)
    requires n >= 0 && k >= 0
    ensures FallingFactorial(n, k) == Binom(n, k) * Fact(k)
    decreases k
  {
    if k > 0 && n > 0 {
      FallingFactorialBinom(n - 1, k - 1);
      Absorption(n, k);
      Reassociate(n, Binom(n - 1, k - 1), Fact(k - 1), k, Binom(n, k));
    }
  }

  lemma {:induction false} FactPositive(k: int)
    ensures Fact(k) >= 1
    decreases k
  {
    if k > 0 {
      FactPositive(k - 1);
      MulAtLeast(k, Fact(k - 1));
    }
  }

  /** The falling factorial times (n-k)! completes n!. */
  lemma {:induction false} FallingFactorialFact(n: int, k: int)
    requires 0 <= k <= n
    ensures FallingFactorial(n, k) * Fact(n - k) == Fact(n)
    decreases k
  {
    if k > 0 {
      FallingFactorialFact(n - 1, k - 1);
      var ff, f := FallingFactorial(n - 1, k - 1), Fact(n - k);
      assert FallingFactorial(n, k) == n * ff;
      assert Fact(n) == n * Fact(n - 1);
      MulAssociative(n, ff, f);
    }
  }

  /** The closed form of the coefficient C computes: C(n, k) = n! / (k! (n-k)!), the division being exact. */
  lemma BinomFactorials(n: int, k: int)
    requires 0 <= k <= n
    ensures Binom(n, k) * (Fact(k) * Fact(n - k)) == Fact(n)
    ensures Fact(k) * Fact(n - k) >= 1
    ensures Fact(n) % (Fact(k) * Fact(n - k)) == 0 && Binom(n, k) == Fact(n) / (Fact(k) * Fact(n - k))
  {
    FallingFactorialBinom(n, k);
    FallingFactorialFact(n, k);
    FactPositive(k);
    FactPositive(n - k);
    QuotientOfProduct(Binom(n, k), Fact(k), Fact(n - k), FallingFactorial(n, k), Fact(n));
  }

  /**
   * C: the product n (n-1) ... (n-a+1) divided in turn by a, a-1, ..., 1.
   * Every division is exact and the result is the binomial coefficient;
   * for a <= 0 both loops are empty and the result is 1.
   */
  method C(n: int, a: int) returns (res: int)
    requires n >= 0
    ensures a >= 0 ==> res == Binom(n, a)
    ensures a <= 0 ==> res == 1
  {
    var n', a' := n, a;
    var atmp := a;
    res := 1;
    var i := 0;
    while i < atmp
      invariant 0 <= i && (i <= atmp || i == 0)
      invariant n' == n - i && res == FallingFactorial(n, i)
    {
      FallingFactorialStep(n, i);
      res := res * n';
      n' := n' - 1;
      i := i + 1;
    }
    if atmp > 0 {
      FallingFactorialBinom(n, atmp);
    }
    i := 0;
    while i < atmp
      invariant 0 <= i && (i <= atmp || i == 0)
      invariant a' == atmp - i
      invariant atmp > 0 ==> res == Binom(n, atmp) * Fact(a')
      invariant atmp <= 0 ==> res == 1
    {
      ghost var q := Binom(n, atmp) * Fact(a' - 1);
      MulRotate(Binom(n, atmp), a', Fact(a' - 1));
      ExactDivision(q, a');
      assert res % a' == 0;
      res := res / a';
      a' := a' - 1;
      i := i + 1;
    }
  }

  // ---------------------------------------------------------------------
  // Ranking parent sets (findindex)

  /** Number of parent sets with 1..s-1 members: the offset of the size-s block. */
  function SizeOffset(s: int): nat
    decreases s
  {
    if s <= 1 then 0 else SizeOffset(s - 1) + Binom(M(), s - 1)
  }

  /** Sum of C(M - j, k) over lo <= j <= hi: the sets skipped by choosing a larger member. */
  function Skipped(lo: int, hi: int, k: int): nat
    decreases hi - lo
  {
    if hi < lo then 0 else Skipped(lo, hi - 1, k) + Binom(M() - hi, k)
  }

  /**
   * arr[0..size] is a parent set in findindex's format: arr[0] == 0, then
   * the size members in strictly increasing order, all at most NODE_N - 1.
   */
  predicate ParentSet(arr: seq<int>, size: int)
  {
    1 <= size < |arr| && arr[0] == 0 &&
    (forall t :: 0 <= t < size ==> Below(arr, t)) &&
    arr[size] <= M()
  }

  /** Entry t of arr is below entry t + 1. */
  predicate Below(arr: seq<int>, t: int)
    requires 0 <= t < |arr| - 1
  {
    arr[t] < arr[t + 1]
  }

  /** The part of the rank contributed by members i..size. */
  function RankFrom(arr: seq<int>, i: int, size: int): int
    requires ParentSet(arr, size) && 1 <= i <= size
    decreases size - i
  {
    if i == size then arr[size] - arr[size - 1]
    else Skipped(arr[i - 1] + 1, arr[i] - 1, size - i) + RankFrom(arr, i + 1, size)
  }

  /** The value findindex returns. */
  function Rank(arr: seq<int>, size: int): int
    requires ParentSet(arr, size)
  {
    SizeOffset(size) + RankFrom(arr, 1, size)
  }

  /**
   * findindex: the block offset for sets of this size, then for each member
   * the sets that have a smaller member in its place, then the distance of
   * the last member from the one before it.
   */
  method FindIndex(arr: array<int>, size: int) returns (index: int)
    requires ParentSet(arr[..], size)
    ensures index == Rank(arr[..], size)
  {
    index := SizeBlockOffset(size);
    var i := 1;
    while i <= size - 1
      invariant 1 <= i <= size
      invariant index + RankFrom(arr[..], i, size) == Rank(arr[..], size)
    {
      Increasing(arr[..], i, size, size);
      var skipped := SkippedSum(arr[i - 1] + 1, arr[i] - 1, size - i);
      index := index + skipped;
      i := i + 1;
    }
    index := index + arr[size] - arr[size - 1];
  }

  /** findindex's first loop: the number of parent sets with fewer than size members. */
  method SizeBlockOffset(size: int) returns (index: int)
    requires size >= 1
    ensures index == SizeOffset(size)
  {
    index := 0;
    var i := 1;
    while i < size
      invariant 1 <= i <= size && index == SizeOffset(i)
    {
      var c := C(NODE_N - 1, i);
      SizeOffsetAdd(i, index, c);
      index := index + c;
      i := i + 1;
    }
  }

  /** findindex's inner loop: the sets whose member in this place lies in lo..hi, C(NODE_N - 1 - j, k) for each j. */
  method SkippedSum(lo: int, hi: int, k: int) returns (s: int)
    requires hi <= M() && k >= 0
    ensures s == Skipped(lo, hi, k)
  {
    s := 0;
    var j := lo;
    while j <= hi
      invariant j <= hi + 1 || j == lo
      invariant s == Skipped(lo, j - 1, k)
    {
      var c := C(NODE_N - 1 - j, k);
      s := s + c;
      j := j + 1;
    }
  }

  /** The members of a parent set increase: arr[a] < arr[b] for a < b <= size. */
  lemma {:induction false} Increasing(arr: seq<int>, a: int, b: int, size: int)
    requires ParentSet(arr, size) && 0 <= a <= b <= size
    ensures arr[a] <= arr[b] && (a < b ==> arr[a] + (b - a) <= arr[b])
    decreases b - a
  {
    if a < b {
      assert Below(arr, a);
      Increasing(arr, a + 1, b, size);
    }
  }

  /** Peeling the lowest term off Skipped. */
  lemma {:induction false} SkippedSplitLow(lo: int, hi: int, k: int)
    requires lo <= hi
    ensures Skipped(lo, hi, k) == Binom(M() - lo, k) + Skipped(lo + 1, hi, k)
    decreases hi - lo
  {
    if lo < hi {
      SkippedSplitLow(lo, hi - 1, k);
    }
  }

  /** Hockey-stick identity: summing C(M - j, k) over lo <= j <= M gives C(M - lo + 1, k + 1). */
  lemma {:induction false} HockeyStick(lo: int, k: int)
    requires lo <= M() + 1 && k >= 0
    ensures Skipped(lo, M(), k) == Binom(M() - lo + 1, k + 1)
    decreases M() + 1 - lo
  {
    if lo <= M() {
      SkippedSplitLow(lo, M(), k);
      HockeyStick(lo + 1, k);
      Pascal(M() - lo + 1, k + 1);
    }
  }

  /** Skipped grows with its upper end. */
  lemma {:induction false} SkippedMonotone(lo: int, hi: int, hi': int, k: int)
    requires hi <= hi'
    ensures Skipped(lo, hi, k) <= Skipped(lo, hi', k)
    decreases hi' - hi
  {
    if hi < hi' {
      SkippedMonotone(lo, hi, hi' - 1, k);
    }
  }

  /** The suffix rank from member i counts from 1 up to the number of ways to complete the set above arr[i-1]. */
  lemma {:induction false} RankFromBounds(arr: seq<int>, i: int, size: int)
    requires ParentSet(arr, size) && 1 <= i <= size
    ensures 1 <= RankFrom(arr, i, size) <= Binom(M() - arr[i - 1], size - i + 1)
    decreases size - i
  {
    assert Below(arr, i - 1);
    Increasing(arr, i, size, size);
    if i == size {
      BinomOne(M() - arr[i - 1]);
    } else {
      RankFromBounds(arr, i + 1, size);
      var k := size - i;
      var lo := arr[i - 1] + 1;
      assert Skipped(lo, arr[i], k) == Skipped(lo, arr[i] - 1, k) + Binom(M() - arr[i], k);
      SkippedMonotone(lo, arr[i], M(), k);
      HockeyStick(lo, k);
    }
  }

  /**
   * findindex places a set of size s strictly above all smaller sets and at
   * most C(NODE_N-1, s) slots further: the size-s block is
   * (SizeOffset(s), SizeOffset(s+1)].
   */
  lemma RankRange(arr: seq<int>, size: int)
    requires ParentSet(arr, size)
    ensures SizeOffset(size) < Rank(arr, size) <= SizeOffset(size + 1)
  {
    RankFromBounds(arr, 1, size);
  }

  /** Two sets that agree before member i and differ there rank in the order of that member. */
  lemma {:induction false} RankFromOrdered(arr: seq<int>, arr': seq<int>, i: int, size: int)
    requires ParentSet(arr, size) && ParentSet(arr', size) && 1 <= i <= size
    requires arr[i - 1] == arr'[i - 1] && arr[i] < arr'[i]
    ensures RankFrom(arr, i, size) < RankFrom(arr', i, size)
  {
    if i < size {
      var k := size - i;
      var lo := arr[i - 1] + 1;
      assert Below(arr, i - 1);
      RankFromBounds(arr, i + 1, size);
      assert Skipped(lo, arr[i], k) == Skipped(lo, arr[i] - 1, k) + Binom(M() - arr[i], k);
      SkippedMonotone(lo, arr[i], arr'[i] - 1, k);
      RankFromBounds(arr', i + 1, size);
    }
  }

  /** Members before i contribute the same to both ranks when the sets agree up to i. */
  lemma {:induction false} RankFromCommonPrefix(arr: seq<int>, arr': seq<int>, m: int, i: int, size: int)
    requires ParentSet(arr, size) && ParentSet(arr', size) && 1 <= m <= i <= size
    requires forall t :: 0 <= t < i ==> arr[t] == arr'[t]
    ensures RankFrom(arr, m, size) - RankFrom(arr', m, size) == RankFrom(arr, i, size) - RankFrom(arr', i, size)
    decreases i - m
  {
    if m < i {
      RankFromCommonPrefix(arr, arr', m + 1, i, size);
    }
  }

  /** The first position at which two sets differ. */
  lemma FirstDifference(arr: seq<int>, arr': seq<int>, i: int) returns (f: int)
    requires 0 <= i < |arr| && i < |arr'| && arr[i] != arr'[i]
    ensures 0 <= f <= i && arr[f] != arr'[f]
    ensures forall t :: 0 <= t < f ==> arr[t] == arr'[t]
    decreases i
  {
    if t :| 0 <= t < i && arr[t] != arr'[t] {
      f := FirstDifference(arr, arr', t);
    } else {
      f := i;
    }
  }

  /** Different parent sets of the same size get different ranks. */
  lemma RankInjective(arr: seq<int>, arr': seq<int>, size: int)
    requires ParentSet(arr, size) && ParentSet(arr', size)
    requires arr[..size + 1] != arr'[..size + 1]
    ensures Rank(arr, size) != Rank(arr', size)
  {
    var i :| 0 <= i <= size && arr[i] != arr'[i];
    var f := FirstDifference(arr, arr', i);
    RankFromCommonPrefix(arr, arr', 1, f, size);
    if arr[f] < arr'[f] {
      RankFromOrdered(arr, arr', f, size);
    } else {
      RankFromOrdered(arr', arr, f, size);
    }
  }

  // ---------------------------------------------------------------------
  // The local-score table (initial, findBestGraph)

  /** Number of parent sets of at most four members, the empty set included: sizepernode. */
  function SizePerNodeValue(): nat
  {
    1 + SizeOffset(5)
  }

  /** The sizepernode computation of initial: 1 + C(NODE_N-1, 1) + ... + C(NODE_N-1, 4). */
  method SizePerNode() returns (sizepernode: int)
    ensures sizepernode == SizePerNodeValue()
  {
    var tmp := 1;
    var i := 1;
    while i <= 4
      invariant 1 <= i <= 5 && tmp == 1 + SizeOffset(i)
    {
      var c := C(NODE_N - 1, i);
      SizeOffsetAdd(i, tmp - 1, c);
      tmp := tmp + c;
      i := i + 1;
    }
    sizepernode := tmp;
  }

  lemma SizeOffsetStep(s: int)
    requires s >= 1
    ensures SizeOffset(s + 1) == SizeOffset(s) + Binom(NODE_N - 1, s)
  {
  }

  /** One step of the loops that sum C(NODE_N - 1, s) into a block offset. */
  lemma SizeOffsetAdd(s: int, offset: int, c: int)
    requires s >= 1 && offset == SizeOffset(s) && c == Binom(NODE_N - 1, s)
    ensures offset + c == SizeOffset(s + 1)
  {
    SizeOffsetStep(s);
  }

  lemma {:induction false} SizeOffsetMonotone(s: int, t: int)
    requires s <= t
    ensures SizeOffset(s) <= SizeOffset(t)
    decreases t - s
  {
    if s < t {
      SizeOffsetMonotone(s, t - 1);
    }
  }

  /** Position of the score of `node` with the parent set of rank `rank`: rank + sizepernode * node. */
  function LocalScoreIndex(node: int, rank: int, sizepernode: int): int
  {
    rank + sizepernode * node
  }

  /** A parent set of one to four members ranks strictly between the empty set's slot 0 and sizepernode. */
  lemma ParentSetBelowSizePerNode(arr: seq<int>, size: int)
    requires ParentSet(arr, size) && size <= 4
    ensures 0 < Rank(arr, size) < SizePerNodeValue()
  {
    RankRange(arr, size);
    SizeOffsetMonotone(size + 1, 5);
  }

  /**
   * A rank below sizepernode keeps the score inside its node's block and
   * inside the NODE_N * sizepernode allocation; different (node, rank)
   * pairs use different slots.
   */
  lemma LocalScoreIndexInRange(node: int, rank: int, sizepernode: int)
    requires 0 <= node < NODE_N && 0 <= rank < sizepernode
    ensures sizepernode * node <= LocalScoreIndex(node, rank, sizepernode) < sizepernode * (node + 1)
    ensures 0 <= LocalScoreIndex(node, rank, sizepernode) < NODE_N * sizepernode
  {
    assert sizepernode * (node + 1) == sizepernode * node + sizepernode;
    MulMonotone(0, node, sizepernode);
    MulMonotone(node + 1, NODE_N, sizepernode);
  }

  lemma LocalScoreIndexInjective(node: int, rank: int, node': int, rank': int, sizepernode: int)
    requires 0 <= rank < sizepernode && 0 <= rank' < sizepernode
    requires LocalScoreIndex(node, rank, sizepernode) == LocalScoreIndex(node', rank', sizepernode)
    ensures node == node' && rank == rank'
  {
    if node < node' {
      BlocksApart(node, node', rank, sizepernode);
    } else if node' < node {
      BlocksApart(node', node, rank', sizepernode);
    }
  }
}
