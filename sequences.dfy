/** Exchanging two entries of a sequence, and sums of integer sequences. */
module Sequences {
  /** The sequence with the entries at a and b exchanged. */
  function Swapped<T>(s: seq<T>, a: int, b: int): (r: seq<T>)
    requires 0 <= a < |s| && 0 <= b < |s|
    ensures |r| == |s| && r[a] == s[b] && r[b] == s[a]
    ensures forall k :: 0 <= k < |s| && k != a && k != b ==> r[k] == s[k]
  {
    s[a := s[b]][b := s[a]]
  }

  lemma SwapKeepsMultiset<T>(s: seq<T>, a: int, b: int)
    requires 0 <= a < |s| && 0 <= b < |s|
    ensures multiset(Swapped(s, a, b)) == multiset(s)
  {
  }

  function Sum(s: seq<int>): int
  {
    if |s| == 0 then 0 else Sum(s[..|s| - 1]) + s[|s| - 1]
  }

  lemma {:induction false} SumUpdate(s: seq<int>, p: int, v: int)
    requires 0 <= p < |s|
    ensures Sum(s[p := v]) == Sum(s) - s[p] + v
  {
    var last := |s| - 1;
    if p == last {
      assert s[p := v][..last] == s[..last];
    } else {
      assert s[p := v][..last] == s[..last][p := v];
      SumUpdate(s[..last], p, v);
    }
  }

  /** Exchanging two entries keeps the sum. */
  lemma SumSwap(s: seq<int>, a: int, b: int)
    requires 0 <= a < |s| && 0 <= b < |s|
    ensures Sum(Swapped(s, a, b)) == Sum(s)
  {
    SumUpdate(s, a, s[b]);
    SumUpdate(s[a := s[b]], b, s[a]);
  }
}
