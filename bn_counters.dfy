/**
 * The counters of the order search (bn-sycl/main.cpp): incr, a
 * little-endian binary counter over an int array that carries by
 * recursion, and incrS, which counts digit n modulo STATE_N and hands its
 * carry to incr.  The digits are plain ints, as in the source; the lemmas
 * say what the counters compute when the digits are in range.
 */
module BnCounters {
  import opened Wrappers

  /** Number of states of a variable (a header constant; only its positivity is used). */
  const STATE_N: Positive

  /**
   * The carry of incr(bit, n) comes to rest inside the array: some digit
   * at or after n is below 1, and it is reached before the end.
   */
  predicate CarryStops(s: seq<int>, n: int)
    requires 0 <= n
    decreases |s| - n
  {
    n < |s| && (s[n] < 1 || CarryStops(s, n + 1))
  }

  /** The digit at which the carry of incr(bit, n) stops: the first one at or after n below 1. */
  function CarryEnd(s: seq<int>, n: int): (k: int)
    requires 0 <= n && CarryStops(s, n)
    ensures n <= k < |s| && s[k] < 1
    ensures forall t :: n <= t < k ==> s[t] >= 1
    decreases |s| - n
  {
    if s[n] < 1 then n else CarryEnd(s, n + 1)
  }

  /** The digits after incr(bit, n): those from n up to the carry's end are cleared, the end is bumped. */
  function Incremented(s: seq<int>, n: int): (r: seq<int>)
    requires 0 <= n && CarryStops(s, n)
  {
    var k := CarryEnd(s, n);
    seq(|s|, t requires 0 <= t < |s| => if n <= t < k then 0 else if t == k then s[t] + 1 else s[t])
  }

  /** Whether the carry stops only depends on the digits from n on. */
  lemma {:induction false} CarryStopsFrame(s: seq<int>, s': seq<int>, n: int)
    requires 0 <= n && |s| == |s'|
    requires forall t :: n <= t < |s| ==> s[t] == s'[t]
    ensures CarryStops(s, n) == CarryStops(s', n)
    decreases |s| - n
  {
    if n < |s| {
      CarryStopsFrame(s, s', n + 1);
    }
  }

  /** One step of the recursion: a digit that carries is cleared and the carry moves to n + 1. */
  lemma IncrementedCarry(s: seq<int>, n: int)
    requires 0 <= n && CarryStops(s, n) && s[n] >= 1
    ensures CarryStops(s[n := 0], n + 1)
    ensures Incremented(s, n) == Incremented(s[n := 0], n + 1)
  {
    CarryStopsFrame(s, s[n := 0], n + 1);
    CarryEndFrame(s, s[n := 0], n + 1);
  }

  lemma {:induction false} CarryEndFrame(s: seq<int>, s': seq<int>, n: int)
    requires 0 <= n && |s| == |s'|
    requires forall t :: n <= t < |s| ==> s[t] == s'[t]
    requires CarryStops(s, n) && CarryStops(s', n)
    ensures CarryEnd(s, n) == CarryEnd(s', n)
    decreases |s| - n
  {
    if s[n] >= 1 {
      CarryStopsFrame(s, s', n + 1);
      CarryEndFrame(s, s', n + 1);
    }
  }

  /** incr: bump digit n; a digit that reaches 2 is cleared and the carry goes on at n + 1. */
  method Incr(bit: array<int>, n: int)
    requires 0 <= n && CarryStops(bit[..], n)
    modifies bit
    ensures bit[..] == Incremented(old(bit[..]), n)
    decreases bit.Length - n
  {
    ghost var s := bit[..];
    bit[n] := bit[n] + 1;
    if bit[n] >= 2 {
      bit[n] := 0;
      assert bit[..] == s[n := 0];
      IncrementedCarry(s, n);
      Incr(bit, n + 1);
    } else {
      assert bit[..] == Incremented(s, n);
    }
  }

  // ---------------------------------------------------------------------
  // What incr computes on binary digits

  /** The digits from n on, read as a little-endian binary number. */
  function BinaryValue(s: seq<int>, n: int): int
    requires 0 <= n
    decreases |s| - n
  {
    if n >= |s| then 0 else s[n] + 2 * BinaryValue(s, n + 1)
  }

  predicate BinaryFrom(s: seq<int>, n: int)
  {
    forall t :: 0 <= n <= t < |s| ==> 0 <= s[t] <= 1
  }

  function Pow2(e: nat): nat
  {
    if e == 0 then 1 else 2 * Pow2(e - 1)
  }

  lemma {:induction false} BinaryValueFrame(s: seq<int>, s': seq<int>, n: int)
    requires 0 <= n && |s| == |s'|
    requires forall t :: n <= t < |s| ==> s[t] == s'[t]
    ensures BinaryValue(s, n) == BinaryValue(s', n)
    decreases |s| - n
  {
    if n < |s| {
      BinaryValueFrame(s, s', n + 1);
    }
  }

  /** Binary digits from n on hold a value in [0, 2^(|s| - n)). */
  lemma {:induction false} BinaryValueBounds(s: seq<int>, n: int)
    requires 0 <= n <= |s| && BinaryFrom(s, n)
    ensures 0 <= BinaryValue(s, n) < Pow2(|s| - n)
    decreases |s| - n
  {
    if n < |s| {
      BinaryValueBounds(s, n + 1);
    }
  }

  /**
   * On binary digits the carry stays inside the array exactly when the
   * number is not already the largest one the digits can hold.
   */
  lemma {:induction false} CarryStopsIffNotFull(s: seq<int>, n: int)
    requires 0 <= n <= |s| && BinaryFrom(s, n)
    ensures CarryStops(s, n) <==> BinaryValue(s, n) + 1 < Pow2(|s| - n)
    decreases |s| - n
  {
    if n < |s| {
      CarryStopsIffNotFull(s, n + 1);
      BinaryValueBounds(s, n + 1);
    }
  }

  /**
   * incr adds one to the binary number held from position n on, keeps the
   * digits binary and leaves the digits below n alone.
   */
  lemma {:induction false} IncrementedValue(s: seq<int>, n: int)
    requires 0 <= n && CarryStops(s, n) && BinaryFrom(s, n)
    ensures |Incremented(s, n)| == |s|
    ensures BinaryFrom(Incremented(s, n), n)
    ensures BinaryValue(Incremented(s, n), n) == BinaryValue(s, n) + 1
    ensures forall t :: 0 <= t < n ==> Incremented(s, n)[t] == s[t]
    decreases |s| - n
  {
    var r := Incremented(s, n);
    if s[n] < 1 {
      BinaryValueFrame(r, s, n + 1);
    } else {
      var s' := s[n := 0];
      IncrementedCarry(s, n);
      IncrementedValue(s', n + 1);
      BinaryValueFrame(s', s, n + 1);
    }
  }

  // ---------------------------------------------------------------------
  // incrS

  /** The carry of incrS(bit, n) is absorbed: digit n does not wrap, or incr's carry stops in the array. */
  predicate StateCarryStops(s: seq<int>, n: int)
  {
    0 <= n < |s| && (s[n] + 1 >= STATE_N ==> CarryStops(s, n + 1))
  }

  /** The digits after incrS(bit, n). */
  function StateIncremented(s: seq<int>, n: int): (r: seq<int>)
    requires StateCarryStops(s, n)
  {
    if s[n] + 1 < STATE_N then
      s[n := s[n] + 1]
    else
      CarryStopsFrame(s, s[n := 0], n + 1);
      Incremented(s[n := 0], n + 1)
  }

  /** incrS: bump digit n; when it reaches STATE_N it is cleared and incr carries into n + 1. */
  method IncrS(bit: array<int>, n: int)
    requires StateCarryStops(bit[..], n)
    modifies bit
    ensures bit[..] == StateIncremented(old(bit[..]), n)
  {
    ghost var s := bit[..];
    bit[n] := bit[n] + 1;
    if bit[n] >= STATE_N {
      bit[n] := 0;
      assert bit[..] == s[n := 0];
      CarryStopsFrame(s, s[n := 0], n + 1);
      Incr(bit, n + 1);
    }
  }

  /**
   * The number incrS counts: digit n is worth one and every digit above
   * it is a binary digit worth STATE_N times its binary weight (the carry
   * goes into incr, a binary counter).
   */
  function MixedValue(s: seq<int>, n: int): int
    requires 0 <= n < |s|
  {
    s[n] + STATE_N * BinaryValue(s, n + 1)
  }

  /**
   * incrS adds one to the mixed-radix number, keeps digit n below
   * STATE_N and the digits above it binary, and leaves the digits below n
   * alone.
   */
  lemma StateIncrementedValue(s: seq<int>, n: int)
    requires StateCarryStops(s, n) && 0 <= s[n] < STATE_N && BinaryFrom(s, n + 1)
    ensures |StateIncremented(s, n)| == |s|
    ensures 0 <= StateIncremented(s, n)[n] < STATE_N && BinaryFrom(StateIncremented(s, n), n + 1)
    ensures MixedValue(StateIncremented(s, n), n) == MixedValue(s, n) + 1
    ensures forall t :: 0 <= t < n ==> StateIncremented(s, n)[t] == s[t]
  {
    var r := StateIncremented(s, n);
    if s[n] + 1 < STATE_N {
      BinaryValueFrame(r, s, n + 1);
    } else {
      var s' := s[n := 0];
      CarryStopsFrame(s, s', n + 1);
      IncrementedValue(s', n + 1);
      BinaryValueFrame(s', s, n + 1);
      assert STATE_N * (BinaryValue(s, n + 1) + 1) == STATE_N * BinaryValue(s, n + 1) + STATE_N;
    }
  }
}
