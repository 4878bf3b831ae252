/**
 * The discrete skeleton of the wavefront sweep in prna-omp/prna.cpp: which
 * pair each kernel visits on diagonal d, the rolling-buffer slots that hold
 * the previous diagonals, the inner pairs enumerated by the internal-loop
 * kernel, and the index pairs read by the boundary-vector update.  Energies
 * are reals and the log-sum combinator is an uninterpreted parameter `sum`.
 */
module PrnaSweep {
  import opened Arith
  import opened PrnaIndex

  /** j = wrap(i + d + 1, n): the partner of position i on diagonal d. */
  function DiagonalPartner(d: int, i: int, n: int): int
  {
    Wrap(i + d + 1, n)
  }

  /** On diagonal d of 0..n-2 every position i gets a different in-range partner; the pair is exterior exactly when i + d + 1 wraps. */
  lemma DiagonalPartnerInRange(d: int, i: int, n: int)
    requires 0 <= i < n && 0 <= d <= n - 2
    ensures var j := DiagonalPartner(d, i, n);
      0 <= j < n && j != i &&
      (IsExterior(i, j) <==> i + d + 1 >= n) &&
      (IsInterior(i, j) <==> i + d + 1 < n)
  {
  }

  /** The diagonal on which the sweep visits the ordered pair (i, j). */
  function DiagonalOf(i: int, j: int, n: int): int
  {
    if i < j then j - i - 1 else j - i - 1 + n
  }

  /** Every ordered pair of distinct positions is visited on exactly one diagonal of 0..n-2. */
  lemma EveryPairOnOneDiagonal(i: int, j: int, n: int)
    requires 0 <= i < n && 0 <= j < n && i != j
    ensures 0 <= DiagonalOf(i, j, n) <= n - 2
    ensures DiagonalPartner(DiagonalOf(i, j, n), i, n) == j
    ensures forall d :: 0 <= d <= n - 2 && DiagonalPartner(d, i, n) == j ==> d == DiagonalOf(i, j, n)
  {
  }

  /** The guard every kernel starts with: an exterior pair whose ends are at most LOOP_MIN apart is skipped. */
  predicate ExteriorTooShort(i: int, j: int)
  {
    IsExterior(i, j) && i - j <= LOOP_MIN
  }

  /** C's remainder, which truncates toward zero and so is negative for a negative dividend. */
  function CRem(a: int, m: int): int
    requires m > 0
  {
    if a >= 0 then a % m else -((-a) % m)
  }

  /** The slot of a `depth`-slot rolling buffer that holds diagonal d - k, computed with C's `%`. */
  function Slot(d: int, k: int, depth: int): int
    requires depth > 0
  {
    CRem(d - k, depth)
  }

  /**
   * In a rolling buffer of `depth` slots, diagonals d - k1 and d - k2 that are
   * fewer than `depth` apart occupy different slots, and both slots are valid
   * (non-negative) once d >= k2.
   */
  lemma RingSlotsDistinct(depth: int, d: int, k1: int, k2: int)
    requires depth >= 1 && 0 <= k1 < k2 < depth && k2 <= d
    ensures 0 <= Slot(d, k1, depth) < depth && 0 <= Slot(d, k2, depth) < depth
    ensures Slot(d, k1, depth) != Slot(d, k2, depth)
  {
    var q1, q2 := (d - k1) / depth, (d - k2) / depth;
    if (d - k1) % depth == (d - k2) % depth {
      assert k2 - k1 == (q1 - q2) * depth;
      if q1 - q2 >= 1 {
        MulAtLeast(q1 - q2, depth);
      } else if q2 - q1 >= 1 {
        MulAtLeast(q2 - q1, depth);
      }
    }
  }

  /**
   * The multibranch term reads x at slots (d-2)%5, (d-3)%5 and (d-4)%5 only
   * when d > 2*LOOP_MIN + 3; then the five slots (d-k)%5, k = 0..4, are
   * non-negative, agree with the mathematical remainder and are pairwise distinct.
   */
  lemma MultibranchSlots(d: int)
    requires d > 2 * LOOP_MIN + 3
    ensures forall k :: 0 <= k <= 4 ==> 0 <= Slot(d, k, 5) < 5 && Slot(d, k, 5) == (d - k) % 5
    ensures forall k1, k2 :: 0 <= k1 < k2 <= 4 ==> Slot(d, k1, 5) != Slot(d, k2, 5)
  {
    forall k1, k2 | 0 <= k1 < k2 <= 4
      ensures Slot(d, k1, 5) != Slot(d, k2, 5)
    {
      RingSlotsDistinct(5, d, k1, k2);
    }
  }

  /** The two-slot buffers w, wl, xl: the previous diagonal's slot (d-1)%2 is valid and differs from d%2 once d > 0. */
  lemma PairSlots(d: int)
    requires d >= 1
    ensures 0 <= Slot(d, 1, 2) < 2 && Slot(d, 1, 2) == (d - 1) % 2
    ensures Slot(d, 1, 2) != Slot(d, 0, 2)
  {
    RingSlotsDistinct(2, d, 0, 1);
  }

  /**
   * Element i + a of the slot for diagonal d - a - c holds the pair (i + a, j - c):
   * the correspondence between x((d-k)%5, .) and x(i', j') tabulated in the
   * comment above calc_wl.
   */
  lemma SlotCell(d: int, i: int, n: int, a: int, c: int)
    requires 0 <= i < n && 0 <= d <= n - 2
    requires 0 <= a && 0 <= c && a + c <= d && i + a < n && c <= DiagonalPartner(d, i, n)
    ensures DiagonalPartner(d - a - c, i + a, n) == DiagonalPartner(d, i, n) - c
  {
  }

  /**
   * The multibranch reads of calc_hairpin_stack_exterior_multibranch: under
   * its guards each read position is in range and each slot holds the
   * intended inner pair.
   */
  lemma MultibranchReads(d: int, i: int, n: int)
    requires 0 <= i < n && 0 <= d <= n - 2
    requires d > 2 * LOOP_MIN + 3 && i != n - 1 && DiagonalPartner(d, i, n) != 0
    ensures var j := DiagonalPartner(d, i, n);
      i + 1 < n && DiagonalPartner(d - 2, i + 1, n) == j - 1 &&
      (i != n - 2 ==> i + 2 < n && DiagonalPartner(d - 3, i + 2, n) == j - 1) &&
      (j != 1 ==> DiagonalPartner(d - 3, i + 1, n) == j - 2) &&
      (i != n - 2 && j != 1 ==> DiagonalPartner(d - 4, i + 2, n) == j - 2)
  {
    var j := DiagonalPartner(d, i, n);
    SlotCell(d, i, n, 1, 1);
    if i != n - 2 {
      SlotCell(d, i, n, 2, 1);
    }
    if j != 1 {
      SlotCell(d, i, n, 1, 2);
      if i != n - 2 {
        SlotCell(d, i, n, 2, 2);
      }
    }
  }

  /**
   * The chaining reads of calc_wl and calc_x use the previous diagonal:
   * element i + 1 of its slot is the pair (i + 1, j) and element i is the pair
   * (i, j - 1).  In calc_x they are guarded by d > 2*LOOP_MIN + 1 or an
   * exterior pair and by i != n-1 (resp. j != 0); that guard alone already
   * implies d >= 1, so the slot (d-1)%2 is never negative.
   */
  lemma ChainReads(d: int, i: int, n: int)
    requires 0 <= i < n && 0 <= d <= n - 2
    requires d > 2 * LOOP_MIN + 1 || IsExterior(i, DiagonalPartner(d, i, n))
    ensures var j := DiagonalPartner(d, i, n);
      (i != n - 1 ==> d >= 1 && DiagonalPartner(d - 1, i + 1, n) == j) &&
      (j != 0 ==> d >= 1 && DiagonalPartner(d - 1, i, n) == j - 1)
  {
  }

  /**
   * A chaining read never hits a cell that its kernel skipped on the
   * previous diagonal, so the slot really holds a value written there.
   */
  lemma PreviousCellsWritten(d: int, i: int, n: int)
    requires 0 <= i < n && 1 <= d <= n - 2
    requires !ExteriorTooShort(i, DiagonalPartner(d, i, n))
    ensures i != n - 1 ==> !ExteriorTooShort(i + 1, DiagonalPartner(d - 1, i + 1, n))
    ensures DiagonalPartner(d, i, n) != 0 ==> !ExteriorTooShort(i, DiagonalPartner(d - 1, i, n))
  {
  }

  /**
   * The stack term of calc_hairpin_stack_exterior_multibranch reads V(i+1, j-1);
   * with LOOP_MIN >= 2 its guards make that a pair of diagonal d - 2, which
   * an earlier iteration of the sweep has completed.
   */
  lemma StackReadsEarlierDiagonal(d: int, i: int, n: int, bcp: seq<int>)
    requires n >= 0 && |bcp| == TriangleSize(n)
    requires 0 <= i < n && 0 <= d <= n - 2 && LOOP_MIN >= 2
    requires i != n - 1 && DiagonalPartner(d, i, n) != 0
    requires CanPair(i + 1, DiagonalPartner(d, i, n) - 1, n, bcp)
    requires !(IsInterior(i, DiagonalPartner(d, i, n)) && d <= LOOP_MIN - 2)
    ensures d >= 2 && DiagonalOf(i + 1, DiagonalPartner(d, i, n) - 1, n) == d - 2
  {
  }

  // ---------------------------------------------------------------------
  // Internal loops (calc_internal)

  function Min(a: int, b: int): int
  {
    if a < b then a else b
  }

  /** Whether calc_internal skips position i on diagonal d. */
  predicate InternalSkipped(d: int, i: int, n: int, bcp: seq<int>)
    requires n >= 0 && |bcp| == TriangleSize(n)
  {
    var j := DiagonalPartner(d, i, n);
    ExteriorTooShort(i, j) || (IsInterior(i, j) && d <= LOOP_MIN + 2) || !CanPair(i, j, n, bcp)
  }

  /** Whether the (d1, d2) loop of calc_internal at position i reaches inner pair (i+d1+1, j-d2-1) and accumulates it. */
  predicate InternalVisits(d: int, i: int, n: int, bcp: seq<int>, d1: int, d2: int)
    requires n >= 0 && |bcp| == TriangleSize(n)
  {
    var j := DiagonalPartner(d, i, n);
    var dmax := Min(LOOP_MAX, d - 2);
    !InternalSkipped(d, i, n, bcp) &&
    0 <= d1 <= Min(dmax, n - i - 2) &&
    (if d1 > 0 then 0 else 1) <= d2 <= Min(dmax - d1, j - 1) &&
    CanPair(i + d1 + 1, j - d2 - 1, n, bcp)
  }

  /**
   * The loop nest of calc_internal for one position i of diagonal d, with the
   * energy accumulation replaced by collecting the (d1, d2) it accumulates.
   */
  method InternalLoopPairs(d: int, i: int, n: int, bcp: seq<int>) returns (visited: seq<(int, int)>)
    requires n >= 0 && |bcp| == TriangleSize(n)
    requires 0 <= i < n && 0 <= d <= n - 2
    ensures forall d1, d2 :: (d1, d2) in visited <==> InternalVisits(d, i, n, bcp, d1, d2)
  {
    visited := [];
    if InternalSkipped(d, i, n, bcp) {
      return;
    }
    var j := DiagonalPartner(d, i, n);
    var dmax := Min(LOOP_MAX, d - 2);
    var d1max := Min(dmax, n - i - 2);
    var d1 := 0;
    while d1 <= d1max
      invariant 0 <= d1 <= (if d1max < 0 then 0 else d1max + 1)
      invariant forall a, b :: (a, b) in visited <==> InternalVisits(d, i, n, bcp, a, b) && a < d1
    {
      var d2max := Min(dmax - d1, j - 1);
      var d2 := if d1 > 0 then 0 else 1;
      while d2 <= d2max
        invariant (if d1 > 0 then 0 else 1) <= d2
        invariant d2 <= (if d2max < (if d1 > 0 then 0 else 1) then (if d1 > 0 then 0 else 1) else d2max + 1)
        invariant forall a, b :: (a, b) in visited <==>
          InternalVisits(d, i, n, bcp, a, b) && (a < d1 || (a == d1 && b < d2))
      {
        if CanPair(i + d1 + 1, j - d2 - 1, n, bcp) {
          visited := visited + [(d1, d2)];
        }
        d2 := d2 + 1;
      }
      d1 := d1 + 1;
    }
  }

  /**
   * Every inner pair calc_internal accumulates lies strictly inside (i, j)
   * in the circular sense, spans 1..LOOP_MAX unpaired bases, can pair, and
   * for an interior pair keeps ip < jp (so V(ip, jp) is an interior pair).
   */
  lemma InternalPairBounds(d: int, i: int, n: int, bcp: seq<int>, d1: int, d2: int)
    requires n >= 0 && |bcp| == TriangleSize(n)
    requires 0 <= i < n && 0 <= d <= n - 2
    requires InternalVisits(d, i, n, bcp, d1, d2)
    ensures var j := DiagonalPartner(d, i, n); var ip := i + d1 + 1; var jp := j - d2 - 1;
      i < ip <= n - 1 && 0 <= jp < j &&
      1 <= d1 + d2 <= LOOP_MAX &&
      (IsInterior(i, j) ==> ip < jp) &&
      (IsExterior(i, j) ==> jp < j < i < ip) &&
      CanPair(ip, jp, n, bcp)
  {
  }

  // ---------------------------------------------------------------------
  // Boundary vectors (init_w5_and_w3, calc_w5_and_w3)

  /** w5[k] holds its final value before diagonal d: it is set by init_w5_and_w3 (k <= 0) or on diagonal k - 1 < d. */
  predicate W5Ready(k: int, d: int)
  {
    k <= 0 || k - 1 < d
  }

  /** w3[k] holds its final value before diagonal d: it is set by init_w5_and_w3 (k >= n - 1) or on diagonal n - k - 2 < d. */
  predicate W3Ready(k: int, d: int, n: int)
  {
    k >= n - 1 || n - k - 2 < d
  }

  /**
   * The exterior-loop reads of calc_hairpin_stack_exterior_multibranch for an
   * exterior pair (i, j) on diagonal d: w3[i+1], and w3[i+2] when i != n-1,
   * lie inside w3's n + 1 entries; w5[j-1], and w5[j-2] when j != 0, are at
   * least w5[-1] and below w5[n] (shifted storage: physical elements j and
   * j - 1); and each of them was completed on an earlier diagonal.
   */
  lemma ExteriorLoopReads(d: int, i: int, n: int)
    requires 0 <= i < n && 0 <= d <= n - 2 && IsExterior(i, DiagonalPartner(d, i, n))
    ensures var j := DiagonalPartner(d, i, n);
      0 <= i + 1 <= n && (i != n - 1 ==> i + 2 <= n) &&
      0 <= j - 1 + 1 <= n && (j != 0 ==> 0 <= j - 2 + 1) &&
      W3Ready(i + 1, d, n) && (i != n - 1 ==> W3Ready(i + 2, d, n)) &&
      W5Ready(j - 1, d) && (j != 0 ==> W5Ready(j - 2, d))
  {
    DiagonalPartnerInRange(d, i, n);
  }

  /**
   * The index pairs read by iteration i of calc_w5_and_w3: both WQ lookups
   * are strictly increasing pairs inside 0..n-1 (so their triangle index is
   * inside the n(n-1)/2 allocation), w5[i-1] is at least w5[-1], and w3[n-i]
   * is inside the n+1 entries.
   */
  lemma BoundaryReads(d: int, i: int, n: int)
    requires 0 <= d <= n - 2 && 0 <= i <= d - LOOP_MIN
    ensures 0 <= i < d + 1 < n
    ensures 0 <= n - d - 2 < n - i - 1 < n
    ensures 0 <= UpperTriangleIndex(i, d + 1) < TriangleSize(n)
    ensures 0 <= UpperTriangleIndex(n - d - 2, n - i - 1) < TriangleSize(n)
    ensures -1 <= i - 1 && i - 1 + 1 <= n && 0 <= n - i <= n
  {
    UpperTriangleIndexInRange(i, d + 1, n);
    UpperTriangleIndexInRange(n - d - 2, n - i - 1, n);
  }

  /**
   * init_w5_and_w3.  The array w5 is stored shifted by one: physical element
   * k + 1 holds the source's w5[k], so that w5[-1] exists.
   */
  method InitW5AndW3(n: int, w5: array<real>, w3: array<real>)
    requires n >= 1 && w5.Length == n + 1 && w3.Length == n + 1 && w5 != w3
    modifies w5, w3
    ensures w5[0] == 0.0 && w5[1] == 0.0 && w3[n - 1] == 0.0 && w3[n] == 0.0
    ensures forall k :: 2 <= k <= n ==> w5[k] == old(w5[k])
    ensures forall k :: 0 <= k < n - 1 ==> w3[k] == old(w3[k])
  {
    w5[0], w5[1] := 0.0, 0.0;
    w3[n - 1], w3[n] := 0.0, 0.0;
  }

  /** The prefix accumulation of calc_w5_and_w3 over its first k iterations (w5 given in shifted storage). */
  function W5Scan(w5: seq<real>, wq: seq<real>, d: int, n: int, k: int, sum: (real, real) -> real): real
    requires 0 <= d <= n - 2 && 0 <= k && (k == 0 || k <= d - LOOP_MIN + 1)
    requires |w5| == n + 1 && |wq| == TriangleSize(n)
    decreases k
  {
    if k == 0 then INF
    else
      BoundaryReads(d, k - 1, n);
      sum(W5Scan(w5, wq, d, n, k - 1, sum), w5[k - 1] + wq[UpperTriangleIndex(k - 1, d + 1)])
  }

  /** The suffix accumulation of calc_w5_and_w3 over its first k iterations. */
  function W3Scan(w3: seq<real>, wq: seq<real>, d: int, n: int, k: int, sum: (real, real) -> real): real
    requires 0 <= d <= n - 2 && 0 <= k && (k == 0 || k <= d - LOOP_MIN + 1)
    requires |w3| == n + 1 && |wq| == TriangleSize(n)
    decreases k
  {
    if k == 0 then INF
    else
      BoundaryReads(d, k - 1, n);
      sum(W3Scan(w3, wq, d, n, k - 1, sum), w3[n - (k - 1)] + wq[UpperTriangleIndex(n - d - 2, n - k)])
  }

  /**
   * The loop of calc_w5_and_w3: the log-sums over every way to close the
   * prefix 0..d+1 (resp. the suffix n-d-2..n-1) with a final structure.
   */
  method BoundarySums(d: int, n: int, w5: seq<real>, w3: seq<real>, wq: seq<real>, sum: (real, real) -> real)
    returns (w5tmp: real, w3tmp: real)
    requires 0 <= d <= n - 2 && |w5| == n + 1 && |w3| == n + 1 && |wq| == TriangleSize(n)
    ensures var k := if d - LOOP_MIN + 1 < 0 then 0 else d - LOOP_MIN + 1;
      w5tmp == W5Scan(w5, wq, d, n, k, sum) && w3tmp == W3Scan(w3, wq, d, n, k, sum)
  {
    w5tmp, w3tmp := INF, INF;
    var i := 0;
    while i <= d - LOOP_MIN
      invariant 0 <= i && (i == 0 || i <= d - LOOP_MIN + 1)
      invariant w5tmp == W5Scan(w5, wq, d, n, i, sum)
      invariant w3tmp == W3Scan(w3, wq, d, n, i, sum)
    {
      BoundaryReads(d, i, n);
      w5tmp := sum(w5tmp, w5[i] + wq[UpperTriangleIndex(i, d + 1)]);
      w3tmp := sum(w3tmp, w3[n - i] + wq[UpperTriangleIndex(n - d - 2, n - i - 1)]);
      assert w5tmp == W5Scan(w5, wq, d, n, i + 1, sum) && w3tmp == W3Scan(w3, wq, d, n, i + 1, sum);
      i := i + 1;
    }
  }

  /**
   * calc_w5_and_w3 for diagonal d: extends the prefix energy to w5[d+1] and
   * the suffix energy to w3[n-d-2] (w5 in shifted storage), and changes no
   * other entry.
   */
  method CalcW5AndW3(d: int, n: int, w5: array<real>, w3: array<real>, wq: seq<real>, sum: (real, real) -> real)
    requires 0 <= d <= n - 2 && w5.Length == n + 1 && w3.Length == n + 1 && w5 != w3
    requires |wq| == TriangleSize(n)
    modifies w5, w3
    ensures var k := if d - LOOP_MIN + 1 < 0 then 0 else d - LOOP_MIN + 1;
      w5[d + 2] == sum(old(w5[d + 1]), W5Scan(old(w5[..]), wq, d, n, k, sum)) &&
      w3[n - d - 2] == sum(old(w3[n - d - 1]), W3Scan(old(w3[..]), wq, d, n, k, sum))
    ensures forall m :: 0 <= m <= n && m != d + 2 ==> w5[m] == old(w5[m])
    ensures forall m :: 0 <= m <= n && m != n - d - 2 ==> w3[m] == old(w3[m])
  {
    var w5tmp, w3tmp := BoundarySums(d, n, w5[..], w3[..], wq, sum);
    w5[d + 2] := sum(w5[d + 1], w5tmp);
    w3[n - d - 2] := sum(w3[n - d - 1], w3tmp);
  }

  // ---------------------------------------------------------------------
  // The two-slot rolling buffers of calc_wl

  /** Physical layout of a two-slot buffer: slot 0 is elements 0..n-1, slot 1 is elements n..2n-1. */
  lemma TwoSlotLayout(n: int)
    requires n >= 0
    ensures forall i :: Ind(0, i, n) == i
    ensures forall i :: Ind(1, i, n) == n + i
  {
  }

  /**
   * WL of the pair (i, j) visited at position i of diagonal d, with `cell`
   * standing for the energy terms calc_wl computes from V (wltmp):
   * WL(i, j) = wltmp(i, j) (+) (WL(i+1, j) + b) when i != n-1 and d > 0.
   */
  function WlValue(d: nat, i: int, n: int, cell: (int, int) -> real, sum: (real, real) -> real, b: real): real
    decreases d
  {
    var base := cell(i, DiagonalPartner(d, i, n));
    if i != n - 1 && d > 0 then sum(base, WlValue(d - 1, i + 1, n, cell, sum, b) + b) else base
  }

  /** W of the same pair: W(i, j) = WL(i, j) (+) (W(i, j-1) + b) when j != 0 and d > 0. */
  function WValue(d: nat, i: int, n: int, cell: (int, int) -> real, sum: (real, real) -> real, b: real): real
    decreases d
  {
    var wl := WlValue(d, i, n, cell, sum, b);
    if DiagonalPartner(d, i, n) != 0 && d > 0 then sum(wl, WValue(d - 1, i, n, cell, sum, b) + b) else wl
  }

  /** Slot `slot` of the buffers holds WL and W of diagonal d at every position calc_wl does not skip. */
  ghost predicate SlotHolds(wl: seq<real>, w: seq<real>, slot: int, d: nat, n: int,
                            cell: (int, int) -> real, sum: (real, real) -> real, b: real)
    requires n >= 0 && |wl| == 2 * n && |w| == 2 * n && 0 <= slot < 2
  {
    TwoSlotLayout(n);
    forall i :: 0 <= i < n && !ExteriorTooShort(i, DiagonalPartner(d, i, n)) ==>
      wl[Ind(slot, i, n)] == WlValue(d, i, n, cell, sum, b) &&
      w[Ind(slot, i, n)] == WValue(d, i, n, cell, sum, b)
  }

  /** Slot `slot` of buffer `after` equals that of `before` at every position (all of them, or only the skipped ones). */
  ghost predicate SlotUnchanged(before: seq<real>, after: seq<real>, slot: int, d: int, n: int, skippedOnly: bool)
    requires n >= 0 && |before| == 2 * n && |after| == 2 * n && 0 <= slot < 2
  {
    TwoSlotLayout(n);
    forall i :: 0 <= i < n && (skippedOnly ==> ExteriorTooShort(i, DiagonalPartner(d, i, n))) ==>
      after[Ind(slot, i, n)] == before[Ind(slot, i, n)]
  }

  /** A slot that holds diagonal d keeps holding it when its elements are unchanged. */
  lemma SlotHoldsFrame(wl0: seq<real>, w0: seq<real>, wl1: seq<real>, w1: seq<real>, slot: int, d: nat, n: int,
                       cell: (int, int) -> real, sum: (real, real) -> real, b: real)
    requires n >= 0 && |wl0| == 2 * n && |w0| == 2 * n && |wl1| == 2 * n && |w1| == 2 * n && 0 <= slot < 2
    requires SlotHolds(wl0, w0, slot, d, n, cell, sum, b)
    requires SlotUnchanged(wl0, wl1, slot, d, n, false) && SlotUnchanged(w0, w1, slot, d, n, false)
    ensures SlotHolds(wl1, w1, slot, d, n, cell, sum, b)
  {
  }

  /** The body of calc_wl's loop at position i: one element of slot d%2 of each buffer is written. */
  method CalcWlAt(d: int, i: int, n: int, cell: (int, int) -> real, sum: (real, real) -> real, b: real,
                  wl: array<real>, w: array<real>)
    requires 0 <= d <= n - 2 && 0 <= i < n && wl.Length == 2 * n && w.Length == 2 * n && wl != w
    requires !ExteriorTooShort(i, DiagonalPartner(d, i, n))
    requires d > 0 && i != n - 1 ==>
      (0 <= Ind((d - 1) % 2, i + 1, n) < 2 * n &&
       wl[Ind((d - 1) % 2, i + 1, n)] == WlValue(d - 1, i + 1, n, cell, sum, b))
    requires d > 0 && DiagonalPartner(d, i, n) != 0 ==>
      (0 <= Ind((d - 1) % 2, i, n) < 2 * n &&
       w[Ind((d - 1) % 2, i, n)] == WValue(d - 1, i, n, cell, sum, b))
    modifies wl, w
    ensures 0 <= Ind(d % 2, i, n) < 2 * n
    ensures wl[Ind(d % 2, i, n)] == WlValue(d, i, n, cell, sum, b)
    ensures w[Ind(d % 2, i, n)] == WValue(d, i, n, cell, sum, b)
    ensures forall m :: 0 <= m < 2 * n && m != Ind(d % 2, i, n) ==> wl[m] == old(wl[m]) && w[m] == old(w[m])
  {
    TwoSlotLayout(n);
    var j := DiagonalPartner(d, i, n);
    var at := Ind(d % 2, i, n);
    var wlij := cell(i, j);
    if i != n - 1 && d > 0 {
      wlij := sum(wlij, wl[Ind((d - 1) % 2, i + 1, n)] + b);
    }
    var wij := wlij;
    if j != 0 && d > 0 {
      wij := sum(wij, w[Ind((d - 1) % 2, i, n)] + b);
    }
    wl[at] := wlij;
    w[at] := wij;
  }

  /** Element of a two-slot buffer holding position k of diagonal d: the linear form of Ind(d % 2, k, n). */
  function SlotAt(d: int, k: int, n: int): int
  {
    if d % 2 == 0 then k else n + k
  }

  lemma SlotAtInd(d: int, n: int)
    requires n >= 0
    ensures forall k :: Ind(d % 2, k, n) == SlotAt(d, k, n)
  {
    TwoSlotLayout(n);
  }

  /** Element of a two-slot buffer holding position k of the slot diagonal d does not use. */
  function OtherSlotAt(d: int, k: int, n: int): int
  {
    if d % 2 == 0 then n + k else k
  }

  /** Diagonals d - 1 and d + 1 both use the slot that diagonal d does not. */
  lemma NeighbourSlot(d: int, e: int, n: int)
    requires n >= 0 && (e == d - 1 || e == d + 1)
    ensures forall k :: Ind(e % 2, k, n) == OtherSlotAt(d, k, n)
  {
    TwoSlotLayout(n);
    if d % 2 == 0 {
      assert e % 2 == 1;
    } else {
      assert e % 2 == 0;
    }
  }

  /** Slot d%2 holds WL and W at every position below i that calc_wl does not skip. */
  ghost predicate WlWritten(wl: seq<real>, w: seq<real>, d: int, n: int, i: int,
                            cell: (int, int) -> real, sum: (real, real) -> real, b: real)
    requires 0 <= d <= n - 2 && |wl| == 2 * n && |w| == 2 * n && i <= n
  {
    forall k :: 0 <= k < i && !ExteriorTooShort(k, DiagonalPartner(d, k, n)) ==>
      wl[SlotAt(d, k, n)] == WlValue(d, k, n, cell, sum, b) && w[SlotAt(d, k, n)] == WValue(d, k, n, cell, sum, b)
  }

  /** Slot d%2 still has its original values (wl0, w0) at every position from i on and at every skipped position. */
  ghost predicate WlRestKept(wl: seq<real>, w: seq<real>, wl0: seq<real>, w0: seq<real>, d: int, n: int, i: int)
    requires 0 <= d <= n - 2 && |wl| == 2 * n && |w| == 2 * n && |wl0| == 2 * n && |w0| == 2 * n
  {
    forall k :: 0 <= k < n && (k < i ==> ExteriorTooShort(k, DiagonalPartner(d, k, n))) ==>
      wl[SlotAt(d, k, n)] == wl0[SlotAt(d, k, n)] && w[SlotAt(d, k, n)] == w0[SlotAt(d, k, n)]
  }

  /** The slot diagonal d does not use still has its original values. */
  ghost predicate OtherSlotKept(wl: seq<real>, w: seq<real>, wl0: seq<real>, w0: seq<real>, d: int, n: int)
    requires 0 <= d <= n - 2 && |wl| == 2 * n && |w| == 2 * n && |wl0| == 2 * n && |w0| == 2 * n
  {
    forall k :: 0 <= k < n ==> wl[OtherSlotAt(d, k, n)] == wl0[OtherSlotAt(d, k, n)] && w[OtherSlotAt(d, k, n)] == w0[OtherSlotAt(d, k, n)]
  }

  /**
   * The state of calc_wl's loop on diagonal d after positions 0..i-1:
   * slot d%2 holds WL and W at every position below i that is not skipped,
   * every other element of slot d%2 still has its value from before the
   * loop (wl0, w0), and the other slot is untouched.
   */
  ghost predicate WlProgress(wl: seq<real>, w: seq<real>, wl0: seq<real>, w0: seq<real>, d: int, n: int, i: int,
                             cell: (int, int) -> real, sum: (real, real) -> real, b: real)
    requires 0 <= d <= n - 2 && |wl| == 2 * n && |w| == 2 * n && |wl0| == 2 * n && |w0| == 2 * n
  {
    && 0 <= i <= n
    && WlWritten(wl, w, d, n, i, cell, sum, b)
    && WlRestKept(wl, w, wl0, w0, d, n, i)
    && OtherSlotKept(wl, w, wl0, w0, d, n)
  }

  /** At a position it does not skip, the loop finds in the other slot the two values of diagonal d-1 it reads. */
  lemma WlInputs(wl: seq<real>, w: seq<real>, wl0: seq<real>, w0: seq<real>, d: int, n: int, i: int,
                 cell: (int, int) -> real, sum: (real, real) -> real, b: real)
    requires 1 <= d <= n - 2 && |wl| == 2 * n && |w| == 2 * n && |wl0| == 2 * n && |w0| == 2 * n
    requires SlotHolds(wl0, w0, (d - 1) % 2, d - 1, n, cell, sum, b)
    requires WlProgress(wl, w, wl0, w0, d, n, i, cell, sum, b) && i < n
    requires !ExteriorTooShort(i, DiagonalPartner(d, i, n))
    ensures i != n - 1 ==>
      0 <= Ind((d - 1) % 2, i + 1, n) < 2 * n && wl[Ind((d - 1) % 2, i + 1, n)] == WlValue(d - 1, i + 1, n, cell, sum, b)
    ensures DiagonalPartner(d, i, n) != 0 ==>
      0 <= Ind((d - 1) % 2, i, n) < 2 * n && w[Ind((d - 1) % 2, i, n)] == WValue(d - 1, i, n, cell, sum, b)
  {
    NeighbourSlot(d, d - 1, n);
    PreviousCellsWritten(d, i, n);
  }

  /** Writing position i (or skipping it) extends the loop state from i to i + 1. */
  lemma WlAdvance(wl: seq<real>, w: seq<real>, wl1: seq<real>, w1: seq<real>, wl0: seq<real>, w0: seq<real>,
                  d: int, n: int, i: int, cell: (int, int) -> real, sum: (real, real) -> real, b: real)
    requires 0 <= d <= n - 2 && |wl| == 2 * n && |w| == 2 * n && |wl0| == 2 * n && |w0| == 2 * n
    requires |wl1| == 2 * n && |w1| == 2 * n
    requires WlProgress(wl, w, wl0, w0, d, n, i, cell, sum, b) && i < n
    requires ExteriorTooShort(i, DiagonalPartner(d, i, n)) ==> wl1 == wl && w1 == w
    requires !ExteriorTooShort(i, DiagonalPartner(d, i, n)) ==>
      && wl1[SlotAt(d, i, n)] == WlValue(d, i, n, cell, sum, b)
      && w1[SlotAt(d, i, n)] == WValue(d, i, n, cell, sum, b)
      && (forall m :: 0 <= m < 2 * n && m != SlotAt(d, i, n) ==> wl1[m] == wl[m] && w1[m] == w[m])
    ensures WlProgress(wl1, w1, wl0, w0, d, n, i + 1, cell, sum, b)
  {
    if !ExteriorTooShort(i, DiagonalPartner(d, i, n)) {
      WrittenAdvance(wl, w, wl1, w1, d, n, i, cell, sum, b);
      RestKeptAdvance(wl, w, wl1, w1, wl0, w0, d, n, i);
      OtherSlotKeptAdvance(wl, w, wl1, w1, wl0, w0, d, n, i);
    }
  }

  lemma WrittenAdvance(wl: seq<real>, w: seq<real>, wl1: seq<real>, w1: seq<real>,
                       d: int, n: int, i: int, cell: (int, int) -> real, sum: (real, real) -> real, b: real)
    requires 0 <= d <= n - 2 && |wl| == 2 * n && |w| == 2 * n && |wl1| == 2 * n && |w1| == 2 * n && 0 <= i < n
    requires WlWritten(wl, w, d, n, i, cell, sum, b)
    requires wl1[SlotAt(d, i, n)] == WlValue(d, i, n, cell, sum, b) && w1[SlotAt(d, i, n)] == WValue(d, i, n, cell, sum, b)
    requires forall m :: 0 <= m < 2 * n && m != SlotAt(d, i, n) ==> wl1[m] == wl[m] && w1[m] == w[m]
    ensures WlWritten(wl1, w1, d, n, i + 1, cell, sum, b)
  {
    forall k | 0 <= k < i + 1 && !ExteriorTooShort(k, DiagonalPartner(d, k, n))
      ensures wl1[SlotAt(d, k, n)] == WlValue(d, k, n, cell, sum, b) && w1[SlotAt(d, k, n)] == WValue(d, k, n, cell, sum, b)
    {
      if k < i {
        var m := SlotAt(d, k, n);
        assert 0 <= m < 2 * n && m != SlotAt(d, i, n);
        assert wl1[m] == wl[m] && w1[m] == w[m];
      }
    }
  }

  lemma RestKeptAdvance(wl: seq<real>, w: seq<real>, wl1: seq<real>, w1: seq<real>, wl0: seq<real>, w0: seq<real>,
                        d: int, n: int, i: int)
    requires 0 <= d <= n - 2 && |wl| == 2 * n && |w| == 2 * n && |wl1| == 2 * n && |w1| == 2 * n && 0 <= i < n
    requires |wl0| == 2 * n && |w0| == 2 * n
    requires WlRestKept(wl, w, wl0, w0, d, n, i)
    requires forall m :: 0 <= m < 2 * n && m != SlotAt(d, i, n) ==> wl1[m] == wl[m] && w1[m] == w[m]
    requires !ExteriorTooShort(i, DiagonalPartner(d, i, n))
    ensures WlRestKept(wl1, w1, wl0, w0, d, n, i + 1)
  {
    forall k | 0 <= k < n && (k < i + 1 ==> ExteriorTooShort(k, DiagonalPartner(d, k, n)))
      ensures wl1[SlotAt(d, k, n)] == wl0[SlotAt(d, k, n)] && w1[SlotAt(d, k, n)] == w0[SlotAt(d, k, n)]
    {
      assert k != i;
      assert SlotAt(d, k, n) != SlotAt(d, i, n);
    }
  }

  lemma OtherSlotKeptAdvance(wl: seq<real>, w: seq<real>, wl1: seq<real>, w1: seq<real>, wl0: seq<real>, w0: seq<real>,
                             d: int, n: int, i: int)
    requires 0 <= d <= n - 2 && |wl| == 2 * n && |w| == 2 * n && |wl1| == 2 * n && |w1| == 2 * n && 0 <= i < n
    requires |wl0| == 2 * n && |w0| == 2 * n
    requires OtherSlotKept(wl, w, wl0, w0, d, n)
    requires forall m :: 0 <= m < 2 * n && m != SlotAt(d, i, n) ==> wl1[m] == wl[m] && w1[m] == w[m]
    ensures OtherSlotKept(wl1, w1, wl0, w0, d, n)
  {
    forall k | 0 <= k < n
      ensures wl1[OtherSlotAt(d, k, n)] == wl0[OtherSlotAt(d, k, n)] && w1[OtherSlotAt(d, k, n)] == w0[OtherSlotAt(d, k, n)]
    {
      assert OtherSlotAt(d, k, n) != SlotAt(d, i, n);
    }
  }

  /** One iteration of calc_wl's loop, position i of diagonal d. */
  method CalcWlStep(d: int, n: int, i: int, cell: (int, int) -> real, sum: (real, real) -> real, b: real,
                    wl: array<real>, w: array<real>, ghost wl0: seq<real>, ghost w0: seq<real>)
    requires 0 <= d <= n - 2 && wl.Length == 2 * n && w.Length == 2 * n && wl != w && |wl0| == 2 * n && |w0| == 2 * n
    requires d > 0 ==> SlotHolds(wl0, w0, (d - 1) % 2, d - 1, n, cell, sum, b)
    requires i < n && WlProgress(wl[..], w[..], wl0, w0, d, n, i, cell, sum, b)
    modifies wl, w
    ensures WlProgress(wl[..], w[..], wl0, w0, d, n, i + 1, cell, sum, b)
  {
    ghost var wlb, wb := wl[..], w[..];
    if !ExteriorTooShort(i, DiagonalPartner(d, i, n)) {
      if d > 0 {
        WlInputs(wlb, wb, wl0, w0, d, n, i, cell, sum, b);
      }
      CalcWlAt(d, i, n, cell, sum, b, wl, w);
      SlotAtInd(d, n);
    }
    WlAdvance(wlb, wb, wl[..], w[..], wl0, w0, d, n, i, cell, sum, b);
  }

  /**
   * calc_wl on diagonal d, restricted to the wl and w buffers: given that
   * slot (d-1)%2 holds diagonal d-1, it fills slot d%2 with diagonal d at
   * every position it does not skip, and leaves every other element alone.
   */
  method CalcWl(d: int, n: int, cell: (int, int) -> real, sum: (real, real) -> real, b: real,
                wl: array<real>, w: array<real>)
    requires 0 <= d <= n - 2 && wl.Length == 2 * n && w.Length == 2 * n && wl != w
    requires d > 0 ==> SlotHolds(wl[..], w[..], (d - 1) % 2, d - 1, n, cell, sum, b)
    modifies wl, w
    ensures SlotHolds(wl[..], w[..], d % 2, d, n, cell, sum, b)
    ensures SlotUnchanged(old(wl[..]), wl[..], (d + 1) % 2, d, n, false)
    ensures SlotUnchanged(old(w[..]), w[..], (d + 1) % 2, d, n, false)
    ensures SlotUnchanged(old(wl[..]), wl[..], d % 2, d, n, true)
    ensures SlotUnchanged(old(w[..]), w[..], d % 2, d, n, true)
  {
    ghost var wl0, w0 := wl[..], w[..];
    var i := 0;
    while i < n
      invariant WlProgress(wl[..], w[..], wl0, w0, d, n, i, cell, sum, b)
    {
      CalcWlStep(d, n, i, cell, sum, b, wl, w, wl0, w0);
      i := i + 1;
    }
    SlotAtInd(d, n);
    NeighbourSlot(d, d + 1, n);
  }

  /**
   * The wl/w part of the diagonal loop of prna_new: calling calc_wl on
   * d = 0, 1, ..., n-2 in order always meets calc_wl's requirement on the
   * previous slot, and at the end the two slots hold the last two diagonals.
   */
  method SweepWl(n: int, cell: (int, int) -> real, sum: (real, real) -> real, b: real)
    returns (wl: array<real>, w: array<real>)
    requires n >= 0
    ensures wl.Length == 2 * n && w.Length == 2 * n
    ensures n >= 2 ==> SlotHolds(wl[..], w[..], (n - 2) % 2, n - 2, n, cell, sum, b)
    ensures n >= 3 ==> SlotHolds(wl[..], w[..], (n - 3) % 2, n - 3, n, cell, sum, b)
  {
    wl := new real[2 * n](_ => INF);
    w := new real[2 * n](_ => INF);
    var d := 0;
    while d < n - 1
      invariant 0 <= d <= (if n >= 1 then n - 1 else 0)
      invariant d >= 1 ==> SlotHolds(wl[..], w[..], (d - 1) % 2, d - 1, n, cell, sum, b)
      invariant d >= 2 ==> SlotHolds(wl[..], w[..], (d - 2) % 2, d - 2, n, cell, sum, b)
    {
      ghost var wl0, w0 := wl[..], w[..];
      CalcWl(d, n, cell, sum, b, wl, w);
      if d >= 1 {
        assert (d + 1) % 2 == (d - 1) % 2;
        SlotHoldsFrame(wl0, w0, wl[..], w[..], (d - 1) % 2, d - 1, n, cell, sum, b);
      }
      d := d + 1;
    }
  }
}
