/**
 * The two `shortest_superstring` drivers.  Each round searches for the best
 * pair, falls back to (0, 1) with overlap 0 if the search kept nothing,
 * merges the pair, compacts the working set and decrements `count`, until
 * one string is left; that string is returned.  The working set is the
 * first `count` slots of the caller's array, here `slots`.
 */
module Superstring {
  import opened Text
  import opened Overlap
  import opened Merge
  import opened Pairs
  import opened Search
  import opened Compaction
  import opened Greedy

  /**
   * The chunks of one round of the parallel search for a working set of n
   * strings: every pair handed out is in range, and every candidate pair is
   * handed to some thread (as the collapsed double loop does).
   */
  ghost predicate IsSchedule(chunks: seq<seq<Pair>>, n: nat) {
    ChunksInRange(chunks, n) && HandsOutAll(chunks, n)
  }

  /**
   * One round of the sequential loop: search, fallback, merge, compaction.
   * It merges the global best that comes first in row-major scan order
   * among those with its contents.
   */
  method SequentialRound(slots: seq<String>, count: nat) returns (next: seq<String>, best: Best)
    requires 2 <= count <= |slots|
    ensures |next| == |slots|
    ensures IsFirstGlobalBest(slots[..count], best)
    ensures IsGlobalBest(slots[..count], best)
    ensures next[..count - 1] == NextWorkingSet(slots[..count], best)
  {
    var ws := slots[..count];
    best := FindBestPair(ws);
    assert best.i != -1;
    LongestOverlapIsMax(ws[best.i], ws[best.j]);
    if best.i == -1 {
      best := Best(0, 0, 1);
    }
    var merged := MergeStrings(slots[best.i], slots[best.j], best.overlap);
    next := CompactInPlace(slots, count, best.i, best.j, merged);
  }

  /**
   * One round of the parallel loop: the threads' search over `chunks`,
   * fallback, merge, staged compaction.  It merges a global best of the
   * working set whenever the chunks hand out every candidate.
   */
  method ParallelRound(slots: seq<String>, count: nat, chunks: seq<seq<Pair>>) returns (next: seq<String>, best: Best)
    requires 2 <= count <= |slots|
    requires IsSchedule(chunks, count)
    ensures |next| == |slots|
    ensures IsGlobalBest(slots[..count], best)
    ensures next[..count - 1] == NextWorkingSet(slots[..count], best)
  {
    var ws := slots[..count];
    assert |ws| == count;
    best := ParallelBestPair(ws, chunks);
    assert best.i != -1;
    LongestOverlapIsMax(ws[best.i], ws[best.j]);
    if best.i == -1 {
      best := Best(0, 0, 1);
    }
    var merged := MergeStrings(slots[best.i], slots[best.j], best.overlap);
    next := CompactStaged(slots, count, best.i, best.j, merged);
  }

  /** A round along a global best keeps the drivers' loop invariants. */
  lemma RoundKeepsInvariants(inputs: seq<String>, ws: seq<String>, best: Best)
    requires |ws| >= 2 && |inputs| >= 1 && IsGlobalBest(ws, best)
    requires Covered(inputs, ws) && TotalLength(ws) <= TotalLength(inputs)
    requires GreedyResult(ws) == GreedyResult(inputs)
    ensures Covered(inputs, NextWorkingSet(ws, best))
    ensures TotalLength(NextWorkingSet(ws, best)) <= TotalLength(inputs)
    ensures GreedyResult(NextWorkingSet(ws, best)) == GreedyResult(inputs)
  {
    LongestOverlapIsMax(ws[best.i], ws[best.j]);
    RoundInvariants(inputs, ws, best.i, best.j, best.overlap);
    GreedyResultAnyBest(ws, best);
  }

  /**
   * The sequential driver.  It runs exactly n - 1 rounds and leaves
   * `count` at 1; the result contains every input, is no longer than all
   * inputs together, is the single input itself when there is only one,
   * and equals the reference run.
   */
  method ShortestSuperstring(inputs: seq<String>) returns (result: String, count: nat, rounds: nat)
    requires |inputs| >= 1
    ensures count == 1 && rounds == |inputs| - 1
    ensures forall x :: x in inputs ==> IsSubstring(x, result)
    ensures |result| <= TotalLength(inputs)
    ensures |inputs| == 1 ==> result == inputs[0]
    ensures result == GreedyResult(inputs)
  {
    var slots := inputs;
    count := |inputs|;
    rounds := 0;
    CoveredInitially(inputs);
    assert slots[..count] == inputs;
    while count > 1
      invariant 1 <= count <= |slots| == |inputs|
      invariant rounds == |inputs| - count
      invariant Covered(inputs, slots[..count])
      invariant TotalLength(slots[..count]) <= TotalLength(inputs)
      invariant GreedyResult(slots[..count]) == GreedyResult(inputs)
      invariant rounds == 0 ==> slots == inputs
      decreases count
    {
      var next, best := SequentialRound(slots, count);
      RoundKeepsInvariants(inputs, slots[..count], best);
      slots := next;
      count := count - 1;
      rounds := rounds + 1;
    }
    result := slots[0];
    assert slots[..1] == [result];
  }

  /**
   * The parallel driver.  `schedule(r)` is how round r's pairs are shared
   * among the threads, any way that hands out every candidate.  It has the
   * same guarantees as the sequential driver and returns the same string.
   */
  method ParallelShortestSuperstring(inputs: seq<String>, schedule: nat -> seq<seq<Pair>>)
    returns (result: String, count: nat, rounds: nat)
    requires |inputs| >= 1
    requires forall r: nat :: r < |inputs| - 1 ==> IsSchedule(schedule(r), |inputs| - r)
    ensures count == 1 && rounds == |inputs| - 1
    ensures forall x :: x in inputs ==> IsSubstring(x, result)
    ensures |result| <= TotalLength(inputs)
    ensures |inputs| == 1 ==> result == inputs[0]
    ensures result == GreedyResult(inputs)
  {
    var slots := inputs;
    count := |inputs|;
    rounds := 0;
    CoveredInitially(inputs);
    assert slots[..count] == inputs;
    while count > 1
      invariant 1 <= count <= |slots| == |inputs|
      invariant rounds == |inputs| - count
      invariant Covered(inputs, slots[..count])
      invariant TotalLength(slots[..count]) <= TotalLength(inputs)
      invariant GreedyResult(slots[..count]) == GreedyResult(inputs)
      invariant rounds == 0 ==> slots == inputs
      decreases count
    {
      assert IsSchedule(schedule(rounds), count);
      var next, best := ParallelRound(slots, count, schedule(rounds));
      RoundKeepsInvariants(inputs, slots[..count], best);
      slots := next;
      count := count - 1;
      rounds := rounds + 1;
    }
    result := slots[0];
    assert slots[..1] == [result];
  }
}
