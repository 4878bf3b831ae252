/**
 * ProbKnot structure extraction (prna-omp/prna.cpp): every base picks the
 * partner with the lowest pair free energy, only mutual choices are kept,
 * and helices shorter than a minimum length are pruned.  A structure is
 * the array `pair` with pair[i] == i for an unpaired base.
 */
module PrnaProbKnot {
  import opened Wrappers
  import opened PrnaIndex

  /** The fields of struct prna that the ProbKnot pass reads: length, V table, 3' boundary vector, pairing table. */
  datatype Prna = Prna(n: int, v: seq<real>, w3: seq<real>, bcp: seq<int>)

  predicate WellFormed(f: Prna)
  {
    f.n >= 0 && |f.v| == f.n * f.n && |f.w3| == f.n + 1 && |f.bcp| == TriangleSize(f.n)
  }

  /**
   * free_energy_of_pair: V(i,j) + V(j,i) - W3(0) for a pair the table allows,
   * INF otherwise.
   */
  function FreeEnergyOfPair(f: Prna, i: int, j: int): (r: real)
    requires WellFormed(f)
    ensures !CanPair(i, j, f.n, f.bcp) ==> r == INF
  {
    match (ArrayVal(f.v, i, j, f.n, f.bcp), ArrayVal(f.v, j, i, f.n, f.bcp))
    case (Some(vij), Some(vji)) => vij + vji - f.w3[0]
    case _ => INF
  }

  /** The pair energy does not depend on the order of the two bases, and a base alone has energy INF. */
  lemma FreeEnergySymmetric(f: Prna, i: int, j: int)
    requires WellFormed(f)
    ensures FreeEnergyOfPair(f, i, j) == FreeEnergyOfPair(f, j, i)
    ensures FreeEnergyOfPair(f, i, i) == INF
  {
    CanPairSymmetric(i, j, f.n, f.bcp);
    CanPairOnlyDistinctInRange(i, i, f.n, f.bcp);
  }

  // ---------------------------------------------------------------------
  // Structures as partner maps

  predicate InRangeMap(p: seq<int>)
  {
    forall k :: 0 <= k < |p| ==> 0 <= p[k] < |p|
  }

  /** A consistent structure: every partner is in range and partners point back. */
  predicate Involution(p: seq<int>)
  {
    InRangeMap(p) && forall k :: 0 <= k < |p| ==> p[p[k]] == k
  }

  /** Every pair of the structure encloses at least m - 1 bases. */
  predicate SpansAtLeast(p: seq<int>, m: int)
  {
    forall k :: 0 <= k < |p| && p[k] != k ==> p[k] - k >= m || k - p[k] >= m
  }

  /** q arises from p by unpairing bases only: no partner is added or changed. */
  predicate OnlyUnpairs(p: seq<int>, q: seq<int>)
  {
    |p| == |q| && forall k :: 0 <= k < |p| ==> q[k] == p[k] || q[k] == k
  }

  /** is_paired */
  predicate IsPaired(p: seq<int>, i: int)
    requires 0 <= i < |p|
  {
    p[i] != i
  }

  /** Number of paired bases. */
  function PairCount(p: seq<int>): nat
  {
    |set k | 0 <= k < |p| && p[k] != k|
  }

  /** unpair: base i and its partner both become unpaired. */
  function Unpaired(p: seq<int>, i: int): (r: seq<int>)
    requires 0 <= i < |p| && 0 <= p[i] < |p|
    ensures |r| == |p| && r[i] == i && r[p[i]] == p[i]
    ensures forall k :: 0 <= k < |p| && k != i && k != p[i] ==> r[k] == p[k]
    ensures InRangeMap(p) ==> InRangeMap(r)
  {
    p[i := i][p[i] := p[i]]
  }

  lemma OnlyUnpairsTransitive(p: seq<int>, q: seq<int>, r: seq<int>)
    requires OnlyUnpairs(p, q) && OnlyUnpairs(q, r)
    ensures OnlyUnpairs(p, r)
  {
  }

  lemma SubsetCardinality(a: set<int>, b: set<int>)
    requires a <= b
    ensures |a| <= |b|
    ensures a < b ==> |a| < |b|
  {
    assert b == a + (b - a);
    assert a * (b - a) == {};
  }

  /** Unpairing never raises the pair count, and lowers it once a paired base is released. */
  lemma OnlyUnpairsCount(p: seq<int>, q: seq<int>, k: int)
    requires OnlyUnpairs(p, q)
    ensures PairCount(q) <= PairCount(p)
    ensures 0 <= k < |p| && p[k] != k && q[k] == k ==> PairCount(q) < PairCount(p)
  {
    var a := set k | 0 <= k < |q| && q[k] != k;
    var b := set k | 0 <= k < |p| && p[k] != k;
    SubsetCardinality(a, b);
    if 0 <= k < |p| && p[k] != k && q[k] == k {
      assert k in b - a;
    }
  }

  /**
   * What the greedy and filter passes and the helix pruning rely on:
   * unpairing one base of a consistent structure gives a consistent
   * structure that only unpairs, releases i and its partner, keeps every
   * pair span, and lowers the pair count when i was paired.
   */
  lemma UnpairedKeepsStructure(p: seq<int>, i: int, m: int)
    requires Involution(p) && 0 <= i < |p|
    ensures Involution(Unpaired(p, i)) && OnlyUnpairs(p, Unpaired(p, i))
    ensures !IsPaired(Unpaired(p, i), i) && !IsPaired(Unpaired(p, i), p[i])
    ensures SpansAtLeast(p, m) ==> SpansAtLeast(Unpaired(p, i), m)
    ensures IsPaired(p, i) ==> PairCount(Unpaired(p, i)) < PairCount(p)
  {
    var r := Unpaired(p, i);
    forall k | 0 <= k < |r|
      ensures r[r[k]] == k
    {
      if k != i && k != p[i] {
        assert r[k] == p[k] && p[p[k]] == k && p[p[i]] == i;
      }
    }
    OnlyUnpairsCount(p, r, i);
  }

  /** In a consistent structure a base is paired exactly when its partner is. */
  lemma IsPairedSymmetric(p: seq<int>, i: int)
    requires Involution(p) && 0 <= i < |p|
    ensures IsPaired(p, i) <==> IsPaired(p, p[i])
  {
  }

  /** unpair on the array. */
  method Unpair(pair: array<int>, i: int)
    requires 0 <= i < pair.Length && 0 <= pair[i] < pair.Length
    modifies pair
    ensures pair[..] == Unpaired(old(pair[..]), i)
  {
    var j := pair[i];
    pair[i] := i;
    pair[j] := j;
  }

  // ---------------------------------------------------------------------
  // Greedy partner choice and mutual filter (prna_write_probknot)

  /**
   * p is the partner the greedy scan picks for i: the lowest-energy partner,
   * the first one among equals; i itself (unpaired) when nothing beats the
   * energy of i alone.
   */
  predicate IsGreedyChoice(f: Prna, i: int, p: int)
    requires WellFormed(f)
  {
    0 <= p < f.n &&
    (forall j :: 0 <= j < f.n ==> FreeEnergyOfPair(f, i, p) <= FreeEnergyOfPair(f, i, j)) &&
    (p != i ==> FreeEnergyOfPair(f, i, p) < FreeEnergyOfPair(f, i, i) &&
                forall j :: 0 <= j < p ==> FreeEnergyOfPair(f, i, p) < FreeEnergyOfPair(f, i, j))
  }

  /** The greedy choice is unique. */
  lemma GreedyChoiceUnique(f: Prna, i: int, p: int, q: int)
    requires WellFormed(f) && 0 <= i < f.n
    requires IsGreedyChoice(f, i, p) && IsGreedyChoice(f, i, q)
    ensures p == q
  {
  }

  /** A greedy partner other than i itself is a pair the table allows. */
  lemma GreedyPartnerCanPair(f: Prna, i: int, p: int)
    requires WellFormed(f) && 0 <= i < f.n
    requires IsGreedyChoice(f, i, p) && p != i
    ensures CanPair(i, p, f.n, f.bcp)
  {
    CanPairOnlyDistinctInRange(i, i, f.n, f.bcp);
  }

  /** The inner loop of the greedy pass: scan every j and keep the first strictly better partner. */
  method GreedyPartner(f: Prna, i: int) returns (p: int)
    requires WellFormed(f) && 0 <= i < f.n
    ensures IsGreedyChoice(f, i, p)
  {
    p := i;
    var j := 0;
    while j < f.n
      invariant 0 <= j <= f.n && 0 <= p < f.n
      invariant FreeEnergyOfPair(f, i, p) <= FreeEnergyOfPair(f, i, i)
      invariant forall k :: 0 <= k < j ==> FreeEnergyOfPair(f, i, p) <= FreeEnergyOfPair(f, i, k)
      invariant p != i ==>
        (p < j && FreeEnergyOfPair(f, i, p) < FreeEnergyOfPair(f, i, i) &&
         forall k :: 0 <= k < p ==> FreeEnergyOfPair(f, i, p) < FreeEnergyOfPair(f, i, k))
    {
      if FreeEnergyOfPair(f, i, j) < FreeEnergyOfPair(f, i, p) {
        p := j;
      }
      j := j + 1;
    }
  }

  /** The greedy pass: every base gets its greedy partner. */
  method GreedyPairs(f: Prna) returns (pair: array<int>)
    requires WellFormed(f)
    ensures fresh(pair) && pair.Length == f.n
    ensures forall i :: 0 <= i < f.n ==> IsGreedyChoice(f, i, pair[i])
  {
    pair := new int[f.n];
    var i := 0;
    while i < f.n
      invariant 0 <= i <= f.n
      invariant forall k :: 0 <= k < i ==> IsGreedyChoice(f, k, pair[k])
    {
      pair[i] := GreedyPartner(f, i);
      i := i + 1;
    }
  }

  /** The structure that keeps exactly the mutual choices of p. */
  function MutualPairs(p: seq<int>): (r: seq<int>)
    requires InRangeMap(p)
    ensures |r| == |p|
  {
    seq(|p|, k requires 0 <= k < |p| => if p[p[k]] == k then p[k] else k)
  }

  /** The filter result is a consistent structure obtained by unpairing only, and every pair left is a mutual choice of p. */
  lemma MutualPairsInvolution(p: seq<int>)
    requires InRangeMap(p)
    ensures Involution(MutualPairs(p)) && OnlyUnpairs(p, MutualPairs(p))
    ensures forall k :: 0 <= k < |p| && MutualPairs(p)[k] != k ==> MutualPairs(p)[k] == p[k] && p[p[k]] == k
    ensures forall k :: 0 <= k < |p| && p[p[k]] == k ==> MutualPairs(p)[k] == p[k]
  {
    var r := MutualPairs(p);
    forall k | 0 <= k < |p|
      ensures r[r[k]] == k
    {
      if p[p[k]] == k {
        assert r[p[k]] == p[p[k]];
      }
    }
  }

  /**
   * The filter loop of prna_write_probknot.  It runs in place from left to
   * right, so a later test can see an earlier reset; the result is still
   * the simultaneous mutual filter.
   */
  method MutualFilter(pair: array<int>)
    requires InRangeMap(pair[..])
    modifies pair
    ensures pair[..] == MutualPairs(old(pair[..]))
  {
    ghost var p0 := pair[..];
    var i := 0;
    while i < pair.Length
      invariant 0 <= i <= pair.Length
      invariant forall k :: 0 <= k < i ==> pair[k] == MutualPairs(p0)[k]
      invariant forall k :: i <= k < pair.Length ==> pair[k] == p0[k]
    {
      var k := pair[i];
      assert pair[k] == i <==> p0[k] == i;
      if pair[pair[i]] != i {
        pair[i] := i;
      }
      i := i + 1;
    }
    assert pair[..] == MutualPairs(p0);
  }

  // ---------------------------------------------------------------------
  // Helix pruning (remove_helices_shorter_than)

  /** The state every step of the pruning keeps. */
  ghost predicate Pruning(p0: seq<int>, p: seq<int>)
  {
    Involution(p) && SpansAtLeast(p, 4) && OnlyUnpairs(p0, p)
  }

  /** Unpair one base during pruning. */
  method PruneUnpair(pair: array<int>, i: int, ghost p0: seq<int>)
    requires 0 <= i < pair.Length && Pruning(p0, pair[..])
    modifies pair
    ensures Pruning(p0, pair[..]) && OnlyUnpairs(old(pair[..]), pair[..])
    ensures PairCount(pair[..]) <= PairCount(old(pair[..]))
    ensures IsPaired(old(pair[..]), i) ==> PairCount(pair[..]) < PairCount(old(pair[..]))
    ensures pair[..] == Unpaired(old(pair[..]), i)
  {
    UnpairedKeepsStructure(pair[..], i, 4);
    OnlyUnpairsTransitive(p0, pair[..], Unpaired(pair[..], i));
    OnlyUnpairsCount(pair[..], Unpaired(pair[..], i), i);
    Unpair(pair, i);
  }

  /**
   * The inner walk along a helix starting at pair (i, j): it follows stacked
   * pairs and single bulges (unpairing the bulged base) and stops at the last
   * pair of the helix, which it returns together with the number of pairs
   * counted.  Every read pair[i+1], pair[i+2] stays in range because each
   * pair spans at least four positions.
   */
  method ForwardWalk(pair: array<int>, i0: int, j0: int, ghost p0: seq<int>) returns (i: int, j: int, npair: int)
    requires Pruning(p0, pair[..]) && 0 <= i0 < j0 && i0 < pair.Length && pair[i0] == j0
    modifies pair
    ensures Pruning(p0, pair[..]) && PairCount(pair[..]) <= PairCount(old(pair[..]))
    ensures i0 <= i < j < pair.Length && pair[i] == j && npair >= 1
  {
    i, j, npair := i0, j0, 1;
    while pair[i + 1] == j - 1 || pair[i + 2] == j - 1 || pair[i + 1] == j - 2
      invariant Pruning(p0, pair[..]) && PairCount(pair[..]) <= PairCount(old(pair[..]))
      invariant i0 <= i < j < pair.Length && pair[i] == j && j - i >= 4 && npair >= 1
      decreases j - i
    {
      if pair[i + 1] == j - 1 {
      } else if pair[i + 2] == j - 1 {
        if IsPaired(pair[..], i + 1) {
          PruneUnpair(pair, i + 1, p0);
        }
        i := i + 1;
      } else {
        j := j - 1;
      }
      i := i + 1;
      j := j - 1;
      npair := npair + 1;
    }
  }

  /**
   * The outward walk from a pruned pair (i, j) with i >= 2, unpairing the
   * rest of the short helix.  Each read of the loop guard is short-circuited
   * once it would fall before position 0.
   */
  method OutwardWalk(pair: array<int>, i0: int, j0: int, ghost p0: seq<int>) returns (i: int, j: int)
    requires Pruning(p0, pair[..]) && 2 <= i0 < pair.Length
    modifies pair
    ensures Pruning(p0, pair[..]) && PairCount(pair[..]) <= PairCount(old(pair[..]))
    ensures 0 <= i <= i0
  {
    i, j := i0, j0;
    while (i >= 1 && pair[i - 1] == j + 1) || (i >= 2 && pair[i - 2] == j + 1) || (i >= 1 && pair[i - 1] == j + 2)
      invariant Pruning(p0, pair[..]) && PairCount(pair[..]) <= PairCount(old(pair[..]))
      invariant 0 <= i <= i0
      decreases i
    {
      if pair[i - 1] == j + 1 {
        PruneUnpair(pair, i - 1, p0);
      } else if i >= 2 && pair[i - 2] == j + 1 {
        PruneUnpair(pair, i - 2, p0);
        i := i - 1;
      } else {
        PruneUnpair(pair, i - 1, p0);
        j := j + 1;
      }
      i := i - 1;
      j := j + 1;
    }
  }

  /** The outward walk when the pruned pair starts at position 1: only position 0 is examined. */
  method OutwardWalkFromOne(pair: array<int>, j0: int, ghost p0: seq<int>) returns (i: int, j: int)
    requires Pruning(p0, pair[..]) && 1 < pair.Length
    modifies pair
    ensures Pruning(p0, pair[..]) && PairCount(pair[..]) <= PairCount(old(pair[..]))
    ensures 0 <= i <= 1
  {
    i, j := 1, j0;
    while i >= 1 && (pair[i - 1] == j + 1 || pair[i - 1] == j + 2)
      invariant Pruning(p0, pair[..]) && PairCount(pair[..]) <= PairCount(old(pair[..]))
      invariant 0 <= i <= 1
      decreases i
    {
      if pair[i - 1] == j + 1 {
        PruneUnpair(pair, i - 1, p0);
      } else {
        PruneUnpair(pair, i - 1, p0);
        j := j + 1;
      }
      i := i - 1;
      j := j + 1;
    }
  }

  /**
   * remove_helices_shorter_than, with the outward walk's reads kept inside
   * the array: on a consistent structure whose pairs span at least four
   * positions it only unpairs, so the result is again consistent, keeps the
   * spans, and every pair left was a pair of the input.
   */
  method RemoveHelicesShorterThan(minHelixLength: int, pair: array<int>, n: int)
    requires n == pair.Length && Involution(pair[..]) && SpansAtLeast(pair[..], 4)
    modifies pair
    ensures Involution(pair[..]) && SpansAtLeast(pair[..], 4)
    ensures OnlyUnpairs(old(pair[..]), pair[..])
  {
    ghost var p0 := pair[..];
    var i := 0;
    while i < n - 2
      invariant 0 <= i && Pruning(p0, pair[..])
      decreases PairCount(pair[..]), n - i
    {
      var j := pair[i];
      if j > i {
        ghost var count := PairCount(pair[..]);
        var npair;
        i, j, npair := ForwardWalk(pair, i, j, p0);
        if npair < minHelixLength {
          PruneUnpair(pair, i, p0);
          if i >= 2 {
            i, j := OutwardWalk(pair, i, j, p0);
          } else if i == 1 {
            i, j := OutwardWalkFromOne(pair, j, p0);
          }
        }
      }
      i := i + 1;
    }
  }

  /**
   * The pair-selection part of prna_write_probknot: greedy partners, the
   * mutual filter, then helix pruning when the minimum helix length exceeds
   * one.  The result is a consistent structure in which every pair is a
   * mutual greedy choice; without pruning every mutual greedy choice is kept.
   * Pruning needs every pair the table allows to span at least four
   * positions (the case for a table built by generate_bcp with LOOP_MIN >= 3).
   */
  method ProbKnotPairs(f: Prna, minHelixLength: int) returns (pair: array<int>)
    requires WellFormed(f)
    requires minHelixLength > 1 ==> forall i, j :: CanPair(i, j, f.n, f.bcp) ==> i - j >= 4 || j - i >= 4
    ensures fresh(pair) && pair.Length == f.n && Involution(pair[..])
    ensures forall i :: 0 <= i < f.n && pair[i] != i ==>
      IsGreedyChoice(f, i, pair[i]) && IsGreedyChoice(f, pair[i], i)
    ensures minHelixLength <= 1 ==> forall i, p ::
      (0 <= i < f.n && 0 <= p < f.n && IsGreedyChoice(f, i, p) && IsGreedyChoice(f, p, i)) ==> pair[i] == p
  {
    pair := GreedyPairs(f);
    ghost var g := pair[..];
    MutualFilter(pair);
    MutualPairsInvolution(g);
    if minHelixLength > 1 {
      ghost var m := pair[..];
      forall k | 0 <= k < f.n && m[k] != k
        ensures m[k] - k >= 4 || k - m[k] >= 4
      {
        GreedyPartnerCanPair(f, k, g[k]);
      }
      RemoveHelicesShorterThan(minHelixLength, pair, f.n);
      OnlyUnpairsTransitive(g, m, pair[..]);
    } else {
      forall i, p | 0 <= i < f.n && 0 <= p < f.n && IsGreedyChoice(f, i, p) && IsGreedyChoice(f, p, i)
        ensures pair[i] == p
      {
        GreedyChoiceUnique(f, i, p, g[i]);
        GreedyChoiceUnique(f, p, i, g[p]);
      }
    }
  }

  // ---------------------------------------------------------------------
  // The outward walk as written

  datatype WalkOutcome = Stops(pair: seq<int>, i: int, j: int) | ReadsOutside(index: int)

  /**
   * The outward walk of remove_helices_shorter_than exactly as written,
   * with `fromTwo` selecting the i >= 2 loop or the i == 1 loop.  The loop
   * guard is evaluated left to right and stops at the first true disjunct;
   * a read of pair[] below position 0 is reported instead of performed.
   */
  function OutwardWalkAsWritten(p: seq<int>, i: int, j: int, fromTwo: bool): WalkOutcome
    requires InRangeMap(p) && i <= |p|
    decreases i
  {
    if i - 1 < 0 then ReadsOutside(i - 1)
    else if p[i - 1] == j + 1 then OutwardWalkAsWritten(Unpaired(p, i - 1), i - 1, j + 1, fromTwo)
    else if fromTwo && i - 2 < 0 then ReadsOutside(i - 2)
    else if fromTwo && p[i - 2] == j + 1 then OutwardWalkAsWritten(Unpaired(p, i - 2), i - 2, j + 1, fromTwo)
    else if p[i - 1] == j + 2 then OutwardWalkAsWritten(Unpaired(p, i - 1), i - 1, j + 2, fromTwo)
    else Stops(p, i, j)
  }

  /**
   * A consistent seven-base structure with pairs (0,6) and (1,5), pruned with
   * minimum helix length 3: the inner walk from (0,6) reaches (1,5) with two
   * pairs, (1,5) is unpaired, the i == 1 loop unpairs (0,6), moves to i = 0
   * and then reads pair[-1].
   */
  lemma OutwardWalkFromOneReadsBeforeStart()
    ensures var p := [6, 5, 2, 3, 4, 1, 0];
      Involution(p) && SpansAtLeast(p, 4) &&
      p[0] == 6 && p[1] == 5 && !(p[2] == 4 || p[3] == 4 || p[2] == 3) &&
      OutwardWalkAsWritten(Unpaired(p, 1), 1, 5, false) == ReadsOutside(-1)
  {
    var p := [6, 5, 2, 3, 4, 1, 0];
    assert Unpaired(p, 1) == [6, 1, 2, 3, 4, 5, 0];
    assert Unpaired([6, 1, 2, 3, 4, 5, 0], 0) == [0, 1, 2, 3, 4, 5, 6];
    assert OutwardWalkAsWritten([6, 1, 2, 3, 4, 5, 0], 1, 5, false)
        == OutwardWalkAsWritten([0, 1, 2, 3, 4, 5, 6], 0, 6, false);
  }

  /**
   * A consistent nine-base structure with the helix (0,8), (1,7), (2,6),
   * pruned with minimum helix length 4: the inner walk stops at (2,6) with
   * three pairs, (2,6) is unpaired, the i >= 2 loop unpairs (1,7) and (0,8),
   * moves to i = 0 and then reads pair[-1].
   */
  lemma OutwardWalkReadsBeforeStart()
    ensures var p := [8, 7, 6, 3, 4, 5, 2, 1, 0];
      Involution(p) && SpansAtLeast(p, 4) &&
      p[0] == 8 && p[1] == 7 && p[2] == 6 && !(p[3] == 5 || p[4] == 5 || p[3] == 4) &&
      OutwardWalkAsWritten(Unpaired(p, 2), 2, 6, true) == ReadsOutside(-1)
  {
    var p := [8, 7, 6, 3, 4, 5, 2, 1, 0];
    assert Unpaired(p, 2) == [8, 7, 2, 3, 4, 5, 6, 1, 0];
    assert Unpaired([8, 7, 2, 3, 4, 5, 6, 1, 0], 1) == [8, 1, 2, 3, 4, 5, 6, 7, 0];
    assert Unpaired([8, 1, 2, 3, 4, 5, 6, 7, 0], 0) == [0, 1, 2, 3, 4, 5, 6, 7, 8];
    assert OutwardWalkAsWritten([8, 7, 2, 3, 4, 5, 6, 1, 0], 2, 6, true)
        == OutwardWalkAsWritten([8, 1, 2, 3, 4, 5, 6, 7, 0], 1, 7, true)
        == OutwardWalkAsWritten([0, 1, 2, 3, 4, 5, 6, 7, 8], 0, 8, true);
  }
}
