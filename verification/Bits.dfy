/** Sequences of bits and the search for a run of clear ones. */
module Bits {
  import opened Common

  predicate InRange(v: nat, first: nat, count: nat) { first <= v < first + count }

  function SetBits(bits: seq<bool>, first: nat, count: nat, value: bool): seq<bool> {
    seq(|bits|, i requires 0 <= i < |bits| => if InRange(i, first, count) then value else bits[i])
  }

  predicate ClearRun(bits: seq<bool>, first: nat, count: nat) {
    first + count <= |bits| && forall i | first <= i < first + count :: !bits[i]
  }

  predicate FirstFit(bits: seq<bool>, first: nat, count: nat) {
    ClearRun(bits, first, count) && forall j: nat | j < first :: !ClearRun(bits, j, count)
  }

  /** How many bits before n are clear in a row. */
  ghost predicate Streak(bits: seq<bool>, n: nat, streak: nat) {
    && streak <= n <= |bits|
    && (forall i | n - streak <= i < n :: !bits[i])
    && (streak < n ==> bits[n - streak - 1])
  }

  /** One more clear bit completes the first run of count, or shows there is none yet. */
  lemma StreakFits(bits: seq<bool>, n: nat, streak: nat, count: nat)
    requires Streak(bits, n, streak) && 0 < count && streak <= count
    requires forall j: nat | j + count < n :: !ClearRun(bits, j, count)
    ensures streak == count ==> FirstFit(bits, n - count, count)
    ensures streak < count ==> forall j: nat | j + count <= n :: !ClearRun(bits, j, count)
  {
    if streak < count && count <= n {
      forall j: nat | j + count <= n ensures !ClearRun(bits, j, count) {
        if j + count == n { assert bits[n - streak - 1] && j <= n - streak - 1 < j + count; }
      }
    }
  }

  /** The loop of bitmap_scan over a bitmap held as a value. */
  method FindRun(bits: seq<bool>, count: nat) returns (start: Option<nat>)
    requires count > 0
    ensures start.Some? ==> FirstFit(bits, start.value, count)
    ensures start.None? ==> forall j: nat :: !ClearRun(bits, j, count)
  {
    var counter := 0;
    for next := 0 to |bits|
      invariant Streak(bits, next, counter) && counter < count
      invariant forall j: nat | j + count <= next :: !ClearRun(bits, j, count)
    {
      counter := if !bits[next] then counter + 1 else 0;
      StreakFits(bits, next + 1, counter, count);
      if counter == count {
        return Some(next + 1 - count);
      }
    }
    return None;
  }

  lemma FirstFitUnique(bits: seq<bool>, i: nat, j: nat, count: nat)
    requires FirstFit(bits, i, count) && FirstFit(bits, j, count)
    ensures i == j
  {}
}
