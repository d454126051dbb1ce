/**
 * The overlap of two strings: the length of the longest suffix of `a` that
 * is also a prefix of `b`.  The sequential program finds it with an
 * ascending scan that keeps the last match; the parallel program with a
 * descending scan that stops at the first match.  Both are modelled here,
 * next to a reference definition, and both are shown to return it.
 */
module Overlap {
  import opened Text

  function Min(x: nat, y: nat): nat {
    if x < y then x else y
  }

  /** The last k characters of a are the first k characters of b. */
  predicate IsOverlap(a: String, b: String, k: nat) {
    k <= |a| && k <= |b| && a[|a| - k..] == b[..k]
  }

  /** k is an overlap and no longer one exists. */
  predicate IsMaxOverlap(a: String, b: String, k: nat) {
    IsOverlap(a, b, k) && forall m :: k < m <= Min(|a|, |b|) ==> !IsOverlap(a, b, m)
  }

  /**
   * The characters from position t on of the length-k suffix of a agree
   * with those of the length-k prefix of b, compared one at a time.
   */
  predicate MatchesFrom(a: String, b: String, k: nat, t: nat)
    requires k <= |a| && k <= |b| && t <= k
    decreases k - t
  {
    t == k || (a[|a| - k + t] == b[t] && MatchesFrom(a, b, k, t + 1))
  }

  lemma {:induction false} MatchesFromPointwise(a: String, b: String, k: nat, t: nat)
    requires k <= |a| && k <= |b| && t <= k
    ensures MatchesFrom(a, b, k, t) <==> forall u :: t <= u < k ==> a[|a| - k + u] == b[u]
    decreases k - t
  {
    if t < k {
      MatchesFromPointwise(a, b, k, t + 1);
    }
  }

  /** Comparing character by character decides an overlap. */
  lemma MatchesIsOverlap(a: String, b: String, k: nat)
    requires k <= |a| && k <= |b|
    ensures MatchesFrom(a, b, k, 0) <==> IsOverlap(a, b, k)
  {
    MatchesFromPointwise(a, b, k, 0);
    if MatchesFrom(a, b, k, 0) {
      assert a[|a| - k..] == b[..k];
    }
  }

  /** The longest overlap of length at most n. */
  function LongestOverlapUpTo(a: String, b: String, n: nat): nat
    requires n <= Min(|a|, |b|)
    decreases n
  {
    if n == 0 || MatchesFrom(a, b, n, 0) then n
    else LongestOverlapUpTo(a, b, n - 1)
  }

  lemma {:induction false} LongestOverlapUpToIsMax(a: String, b: String, n: nat)
    requires n <= Min(|a|, |b|)
    ensures LongestOverlapUpTo(a, b, n) <= n && IsOverlap(a, b, LongestOverlapUpTo(a, b, n))
    ensures forall m :: LongestOverlapUpTo(a, b, n) < m <= n ==> !IsOverlap(a, b, m)
    decreases n
  {
    if n == 0 {
      assert a[|a|..] == b[..0];
    } else {
      MatchesIsOverlap(a, b, n);
      if !IsOverlap(a, b, n) {
        LongestOverlapUpToIsMax(a, b, n - 1);
      }
    }
  }

  /**
   * The reference overlap: the longest suffix of a that is a prefix of b.
   * Its properties are stated by `LongestOverlapIsMax`, so that the pair
   * searches can mention overlaps without carrying them along.
   */
  function LongestOverlap(a: String, b: String): nat {
    LongestOverlapUpTo(a, b, Min(|a|, |b|))
  }

  lemma LongestOverlapIsMax(a: String, b: String)
    ensures IsMaxOverlap(a, b, LongestOverlap(a, b))
  {
    LongestOverlapUpToIsMax(a, b, Min(|a|, |b|));
  }

  /** There is only one longest overlap. */
  lemma MaxOverlapUnique(a: String, b: String, k: nat)
    requires IsMaxOverlap(a, b, k)
    ensures k == LongestOverlap(a, b)
  {
    LongestOverlapIsMax(a, b);
  }

  /**
   * `calculate_overlap`: tries every length i from 1 up to the shorter
   * length and remembers the last i whose suffix/prefix comparison matched.
   */
  method CalculateOverlap(a: String, b: String) returns (maxOverlap: nat)
    ensures IsMaxOverlap(a, b, maxOverlap)
    ensures maxOverlap == LongestOverlap(a, b)
  {
    maxOverlap := 0;
    assert a[|a|..] == b[..0];
    var i := 1;
    while i <= |a| && i <= |b|
      invariant 1 <= i <= Min(|a|, |b|) + 1
      invariant maxOverlap < i && IsOverlap(a, b, maxOverlap)
      invariant forall m :: maxOverlap < m < i ==> !IsOverlap(a, b, m)
    {
      // strncmp of the length-i suffix of a against the prefix of b
      if a[|a| - i..] == b[..i] {
        maxOverlap := i;
      }
      i := i + 1;
    }
    MaxOverlapUnique(a, b, maxOverlap);
  }

  /**
   * The inner loop of `calculate_overlap_simd`: compares every position of
   * the length-i suffix of a with the length-i prefix of b, without leaving
   * early, and clears the flag on any mismatch.
   */
  method SuffixMatchesPrefix(a: String, b: String, i: nat) returns (isMatch: bool)
    requires i <= |a| && i <= |b|
    ensures isMatch <==> IsOverlap(a, b, i)
  {
    isMatch := true;
    var k := 0;
    while k < i
      invariant 0 <= k <= i
      invariant isMatch <==> forall t :: 0 <= t < k ==> a[|a| - i + t] == b[t]
    {
      if a[|a| - i + k] != b[k] {
        isMatch := false;
      }
      k := k + 1;
    }
    if isMatch {
      assert a[|a| - i..] == b[..i];
    } else {
      var t :| 0 <= t < i && a[|a| - i + t] != b[t];
      assert a[|a| - i..][t] != b[..i][t];
    }
  }

  /**
   * `calculate_overlap_simd`: tries lengths from the shorter length down to
   * 1 and returns the first that matches, or 0 when none does.
   */
  method CalculateOverlapSimd(a: String, b: String) returns (maxOverlap: nat)
    ensures IsMaxOverlap(a, b, maxOverlap)
    ensures maxOverlap == LongestOverlap(a, b)
  {
    maxOverlap := 0;
    var minLength := if |a| < |b| then |a| else |b|;
    var i := minLength;
    while i > 0
      invariant 0 <= i <= minLength
      invariant maxOverlap == 0
      invariant forall m :: i < m <= minLength ==> !IsOverlap(a, b, m)
    {
      var isMatch := SuffixMatchesPrefix(a, b, i);
      if isMatch {
        maxOverlap := i;
        break;
      }
      i := i - 1;
    }
    assert a[|a|..] == b[..0];
    MaxOverlapUnique(a, b, maxOverlap);
  }
}
