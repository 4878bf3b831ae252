/**
 * The table of the HIGHEST best orders of the order search
 * (bn-sycl/main.cpp): the scores `maxScore` and the graphs `bestGraph`
 * that belong to them, the counter `c` of main, `swap`, `sortGraph` and
 * the insertion-and-bubble block that main runs after every step.  Scores
 * are only compared; they are modelled as reals.
 */
module BnTopScores {
  import opened Sequences
  import BnCombinatorics

  /** Size of the table. */
  const HIGHEST: nat := 3

  /** A parent graph: NODE_N rows of NODE_N flags. */
  type Graph = seq<seq<bool>>

  /** The zero-initialised graph of a global array. */
  function EmptyGraph(): (g: Graph)
    ensures |g| == BnCombinatorics.NODE_N
    ensures forall i :: 0 <= i < |g| ==> |g[i]| == BnCombinatorics.NODE_N && forall j :: 0 <= j < |g[i]| ==> !g[i][j]
  {
    seq(BnCombinatorics.NODE_N, _ => seq(BnCombinatorics.NODE_N, _ => false))
  }

  /** Best first: no score is below a later one. */
  predicate NonIncreasing(s: seq<real>)
  {
    forall p, q :: 0 <= p < q < |s| ==> s[p] >= s[q]
  }

  /** The first `count` scores are pairwise different. */
  predicate DistinctPrefix(s: seq<real>, count: int)
  {
    forall p, q :: 0 <= p < q < count && q < |s| ==> s[p] != s[q]
  }

  /**
   * The state of the bubble pass of main: every score but the one at b is
   * in order, the one at b beats everything after it, and it is beaten by
   * every score it has been compared with so far (those between a and b).
   */
  predicate Bubbling(s: seq<real>, a: int, b: int)
  {
    && -1 <= a < b < |s|
    && (forall p, q :: 0 <= p < q < |s| && p != b && q != b ==> s[p] >= s[q])
    && (forall q :: b < q < |s| ==> s[b] >= s[q])
    && (forall p :: a < p < b ==> s[p] >= s[b])
  }

  /**
   * One comparison of the bubble pass: a score that beats its predecessor
   * is next to it and moves up one place; otherwise it has stopped.
   */
  lemma BubbleStep(s: seq<real>, a: int, b: int)
    requires Bubbling(s, a, b) && 0 <= a
    ensures s[b] > s[a] ==> b == a + 1 && Bubbling(Swapped(s, a, b), a - 1, a)
    ensures s[b] <= s[a] ==> Bubbling(s, a - 1, b)
  {
    if s[b] > s[a] {
      if b != a + 1 {
        BeatenByEarlier(s, a, b);
      }
    }
  }

  /** A score not next to the moved one is at least the moved one: it beats the score in between. */
  lemma BeatenByEarlier(s: seq<real>, a: int, b: int)
    requires Bubbling(s, a, b) && 0 <= a && a + 1 < b
    ensures s[a] >= s[b]
  {
    assert s[a] >= s[a + 1];
  }

  /** A bubble pass that has compared the moved score with every earlier one leaves the scores in order. */
  lemma BubblingDone(s: seq<real>, b: int)
    requires Bubbling(s, -1, b)
    ensures NonIncreasing(s)
  {
  }

  /**
   * What a replacement in the full table achieves: every score kept is at
   * least the one that was dropped, and the new score is kept.
   */
  lemma ReplaceKeepsBest(s: seq<real>, x: real, t: seq<real>)
    requires |s| > 0 && NonIncreasing(s) && x > s[|s| - 1]
    requires multiset(t) == multiset(s[|s| - 1 := x])
    ensures x in t
    ensures forall k :: 0 <= k < |t| ==> t[k] >= s[|s| - 1]
  {
    var last := |s| - 1;
    assert s[last := x][last] == x;
    assert x in multiset(s[last := x]);
    forall k | 0 <= k < |t|
      ensures t[k] >= s[last]
    {
      assert t[k] in multiset(t);
      assert t[k] in s[last := x];
    }
  }

  class TopScores {
    var maxScore: array<real>
    var bestGraph: array<Graph>
    /** Number of filled entries; HIGHEST + 1 once the table has been sorted. */
    var c: int

    ghost predicate Valid()
      reads this, maxScore, bestGraph
    {
      && maxScore.Length == HIGHEST && bestGraph.Length == HIGHEST
      && 0 <= c <= HIGHEST + 1
      && (c <= HIGHEST ==> DistinctPrefix(maxScore[..], c))
      && (c > HIGHEST ==> NonIncreasing(maxScore[..]))
    }

    /** The table as pairs of a score and its graph. */
    function Entries(): (r: seq<(real, Graph)>)
      requires maxScore.Length == bestGraph.Length
      reads this, maxScore, bestGraph
      ensures |r| == maxScore.Length
      ensures forall k :: 0 <= k < |r| ==> r[k] == (maxScore[k], bestGraph[k])
    {
      var scores, graphs := maxScore[..], bestGraph[..];
      seq(|scores|, k requires 0 <= k < |scores| => (scores[k], graphs[k]))
    }

    /** The globals as main finds them: maxScore = {-999999999, 0, 0}, zero graphs, c = 0. */
    constructor ()
      ensures Valid() && fresh(maxScore) && fresh(bestGraph)
      ensures maxScore[..] == [-999999999.0, 0.0, 0.0] && c == 0
      ensures forall k :: 0 <= k < HIGHEST ==> bestGraph[k] == EmptyGraph()
    {
      var scores := new real[HIGHEST];
      scores[0], scores[1], scores[2] := -999999999.0, 0.0, 0.0;
      maxScore := scores;
      bestGraph := new Graph[HIGHEST](_ => EmptyGraph());
      c := 0;
      assert scores[..] == [-999999999.0, 0.0, 0.0];
    }

    /** swap: exchange the graphs at a and b (the scores are exchanged by the caller). */
    method Swap(a: int, b: int)
      requires 0 <= a < bestGraph.Length && 0 <= b < bestGraph.Length
      modifies bestGraph
      ensures bestGraph[..] == Swapped(old(bestGraph[..]), a, b)
    {
      var tmp := bestGraph[a];
      bestGraph[a] := bestGraph[b];
      bestGraph[b] := tmp;
    }

    /** Swap followed by the caller's exchange of the two scores: the entries at a and b trade places. */
    method Exchange(a: int, b: int)
      requires maxScore.Length == bestGraph.Length
      requires 0 <= a < maxScore.Length && 0 <= b < maxScore.Length
      modifies maxScore, bestGraph
      ensures maxScore[..] == Swapped(old(maxScore[..]), a, b)
      ensures Entries() == Swapped(old(Entries()), a, b)
    {
      Swap(a, b);
      var tmp := maxScore[a];
      maxScore[a] := maxScore[b];
      maxScore[b] := tmp;
    }

    /** The inner loop of sortGraph: the first position of the largest score from j on. */
    method MaxFrom(j: int) returns (max: real, maxi: int)
      requires 0 <= j < maxScore.Length
      ensures j <= maxi < maxScore.Length && max == maxScore[maxi]
      ensures forall i :: j <= i < maxScore.Length ==> maxScore[i] <= max
      ensures forall i :: j <= i < maxi ==> maxScore[i] < max
    {
      max := maxScore[j];
      maxi := j;
      for i := j + 1 to maxScore.Length
        invariant j <= maxi < i && max == maxScore[maxi]
        invariant forall k :: j <= k < i ==> maxScore[k] <= max
        invariant forall k :: j <= k < maxi ==> maxScore[k] < max
      {
        if maxScore[i] > max {
          max := maxScore[i];
          maxi := i;
        }
      }
    }

    /** sortGraph: selection sort of the scores, best first, each graph moving with its score. */
    method SortGraph()
      requires maxScore.Length == bestGraph.Length
      modifies maxScore, bestGraph
      ensures NonIncreasing(maxScore[..])
      ensures multiset(Entries()) == multiset(old(Entries()))
      ensures multiset(maxScore[..]) == multiset(old(maxScore[..]))
    {
      var n := maxScore.Length;
      var j := 0;
      while j < n - 1
        invariant 0 <= j <= n
        invariant n > 0 ==> j < n
        invariant forall p, q :: 0 <= p < q < n && p < j ==> maxScore[p] >= maxScore[q]
        invariant multiset(Entries()) == multiset(old(Entries()))
        invariant multiset(maxScore[..]) == multiset(old(maxScore[..]))
      {
        var max, maxi := MaxFrom(j);
        ghost var e, s := Entries(), maxScore[..];
        Exchange(j, maxi);
        SwapKeepsMultiset(e, j, maxi);
        SwapKeepsMultiset(s, j, maxi);
        j := j + 1;
      }
    }

    /** The bubble pass of main: move the new last score up while it beats the one before it. */
    method Bubble()
      requires maxScore.Length == bestGraph.Length
      requires Bubbling(maxScore[..], maxScore.Length - 2, maxScore.Length - 1)
      modifies maxScore, bestGraph
      ensures NonIncreasing(maxScore[..])
      ensures multiset(Entries()) == multiset(old(Entries()))
      ensures multiset(maxScore[..]) == multiset(old(maxScore[..]))
    {
      var b := maxScore.Length - 1;
      var a := maxScore.Length - 2;
      while a >= 0
        invariant Bubbling(maxScore[..], a, b)
        invariant multiset(Entries()) == multiset(old(Entries()))
        invariant multiset(maxScore[..]) == multiset(old(maxScore[..]))
      {
        BubbleStep(maxScore[..], a, b);
        if maxScore[b] > maxScore[a] {
          ghost var e, s := Entries(), maxScore[..];
          Exchange(a, b);
          SwapKeepsMultiset(e, a, b);
          SwapKeepsMultiset(s, a, b);
          b := a;
        }
        a := a - 1;
      }
      BubblingDone(maxScore[..], b);
    }

    /** The duplicate tests of main: whether `score` is among the first `count` scores. */
    method Holds(score: real, count: int) returns (found: bool)
      requires 0 <= count <= maxScore.Length
      ensures found <==> score in maxScore[..count]
    {
      found := false;
      var j := 0;
      while j < count
        invariant 0 <= j <= count
        invariant found <==> score in maxScore[..j]
      {
        if maxScore[j] == score {
          found := true;
        }
        assert maxScore[..j + 1] == maxScore[..j] + [maxScore[j]];
        j := j + 1;
      }
    }

    /** The filling branch: a score not yet in the table takes the next free entry. */
    method Insert(preScore: real, preGraph: Graph)
      requires Valid() && c < HIGHEST
      modifies this`c, maxScore, bestGraph
      ensures Valid()
      ensures preScore in old(maxScore[..c]) ==>
        c == old(c) && maxScore[..] == old(maxScore[..]) && bestGraph[..] == old(bestGraph[..])
      ensures preScore !in old(maxScore[..c]) ==>
        && c == old(c) + 1
        && maxScore[..] == old(maxScore[..])[old(c) := preScore]
        && bestGraph[..] == old(bestGraph[..])[old(c) := preGraph]
    {
      var found := Holds(preScore, c);
      if !found {
        maxScore[c] := preScore;
        bestGraph[c] := preGraph;
        c := c + 1;
      }
    }

    /**
     * The branch for a sorted table: a score not in the table and better
     * than its last entry replaces that entry and bubbles up to its place.
     */
    method Replace(preScore: real, preGraph: Graph)
      requires Valid() && c > HIGHEST
      modifies maxScore, bestGraph
      ensures Valid()
      ensures preScore in old(maxScore[..]) || preScore <= old(maxScore[HIGHEST - 1]) ==>
        maxScore[..] == old(maxScore[..]) && bestGraph[..] == old(bestGraph[..])
      ensures preScore !in old(maxScore[..]) && preScore > old(maxScore[HIGHEST - 1]) ==>
        && multiset(Entries()) == multiset(old(Entries())[HIGHEST - 1 := (preScore, preGraph)])
        && multiset(maxScore[..]) == multiset(old(maxScore[..])[HIGHEST - 1 := preScore])
    {
      var found := Holds(preScore, HIGHEST);
      assert maxScore[..HIGHEST] == maxScore[..];
      if !found && preScore > maxScore[HIGHEST - 1] {
        ghost var e, scores := Entries(), maxScore[..];
        maxScore[HIGHEST - 1] := preScore;
        bestGraph[HIGHEST - 1] := preGraph;
        assert Entries() == e[HIGHEST - 1 := (preScore, preGraph)];
        assert maxScore[..] == scores[HIGHEST - 1 := preScore];
        Bubble();
      }
    }

    /**
     * The block of main that runs after each step with the accepted score
     * and graph: fill the table with new scores, sort it once it is full
     * (the score of that step is not looked at), and from then on replace
     * the last entry when a better new score comes.
     */
    method Update(preScore: real, preGraph: Graph)
      requires Valid()
      modifies this`c, maxScore, bestGraph
      ensures Valid()
      ensures old(c) < HIGHEST && preScore in old(maxScore[..c]) ==>
        c == old(c) && maxScore[..] == old(maxScore[..]) && bestGraph[..] == old(bestGraph[..])
      ensures old(c) < HIGHEST && preScore !in old(maxScore[..c]) ==>
        && c == old(c) + 1
        && maxScore[..] == old(maxScore[..])[old(c) := preScore]
        && bestGraph[..] == old(bestGraph[..])[old(c) := preGraph]
      ensures old(c) == HIGHEST ==>
        && c == HIGHEST + 1
        && multiset(Entries()) == multiset(old(Entries()))
        && multiset(maxScore[..]) == multiset(old(maxScore[..]))
      ensures old(c) > HIGHEST && (preScore in old(maxScore[..]) || preScore <= old(maxScore[HIGHEST - 1])) ==>
        c == old(c) && maxScore[..] == old(maxScore[..]) && bestGraph[..] == old(bestGraph[..])
      ensures old(c) > HIGHEST && preScore !in old(maxScore[..]) && preScore > old(maxScore[HIGHEST - 1]) ==>
        && c == old(c)
        && multiset(Entries()) == multiset(old(Entries())[HIGHEST - 1 := (preScore, preGraph)])
        && multiset(maxScore[..]) == multiset(old(maxScore[..])[HIGHEST - 1 := preScore])
    {
      if c < HIGHEST {
        Insert(preScore, preGraph);
      } else if c == HIGHEST {
        SortGraph();
        c := c + 1;
      } else {
        Replace(preScore, preGraph);
      }
    }
  }
}
