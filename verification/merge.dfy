/**
 * `merge_strings`: the two programs carry the same text.  The merged string
 * is `a` followed by what is left of `b` once its first `overlapLen`
 * characters, shared with the end of `a`, are dropped.
 */
module Merge {
  import opened Text
  import opened Overlap

  function MergeStrings(a: String, b: String, overlapLen: nat): (r: String)
    requires overlapLen <= |a| && overlapLen <= |b|
    ensures |r| == |a| + |b| - overlapLen
    ensures r[..|a|] == a
    ensures IsOverlap(a, b, overlapLen) ==> r[|r| - |b|..] == b
  {
    var r := a + b[overlapLen..];
    assert r[|r| - |b|..] == a[|a| - overlapLen..] + b[overlapLen..];
    assert IsOverlap(a, b, overlapLen) ==> b == b[..overlapLen] + b[overlapLen..];
    r
  }

  /** A merge along a genuine overlap contains both of its parts. */
  lemma MergeContainsBoth(a: String, b: String, overlapLen: nat)
    requires IsOverlap(a, b, overlapLen)
    ensures IsSubstring(a, MergeStrings(a, b, overlapLen))
    ensures IsSubstring(b, MergeStrings(a, b, overlapLen))
  {
    var r := MergeStrings(a, b, overlapLen);
    assert OccursAt(a, r, 0);
    assert OccursAt(b, r, |r| - |b|);
  }
}
