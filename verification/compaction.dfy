/**
 * Compaction of the working set after a merge.  The working set is the
 * first `count` slots of the string array; the merged string goes to the
 * lower of the two merged positions and the higher one is removed by
 * moving every later slot one place to the left.  The last slot of the
 * old range is left holding its old value, as the C array does.  The
 * sequential program moves the slots in place; the parallel program copies
 * them to a staging buffer first and then back.
 */
module Compaction {
  import opened Text

  /** The working set after a merge: `merged` at lo, entry hi gone, every other entry in its old order. */
  function Compacted(ws: seq<String>, lo: nat, hi: nat, merged: String): (r: seq<String>)
    requires lo < hi < |ws|
    ensures |r| == |ws| - 1
  {
    seq(|ws| - 1, k requires 0 <= k < |ws| - 1 => if k == lo then merged else if k < hi then ws[k] else ws[k + 1])
  }

  /** The compacted working set is the entries before lo, the merge, the entries strictly between, and those after hi. */
  lemma CompactedParts(ws: seq<String>, lo: nat, hi: nat, merged: String)
    requires lo < hi < |ws|
    ensures Compacted(ws, lo, hi, merged) == ws[..lo] + [merged] + ws[lo + 1..hi] + ws[hi + 1..]
  {
  }

  /** Replace-at-lo, remove-at-hi: position lo holds the merge and every untouched entry keeps its relative order. */
  lemma CompactedKeepsOthers(ws: seq<String>, lo: nat, hi: nat, merged: String)
    requires lo < hi < |ws|
    ensures Compacted(ws, lo, hi, merged)[lo] == merged
    ensures forall t :: 0 <= t < hi && t != lo ==> Compacted(ws, lo, hi, merged)[t] == ws[t]
    ensures forall t :: hi < t < |ws| ==> Compacted(ws, lo, hi, merged)[t - 1] == ws[t]
  {
  }

  /** The multiset of the working set loses the two merged strings and gains the merge. */
  lemma CompactedMultiset(ws: seq<String>, lo: nat, hi: nat, merged: String)
    requires lo < hi < |ws|
    ensures multiset(Compacted(ws, lo, hi, merged)) == multiset(ws) - multiset{ws[lo], ws[hi]} + multiset{merged}
  {
    CompactedParts(ws, lo, hi, merged);
    assert ws == ws[..lo] + [ws[lo]] + ws[lo + 1..hi] + [ws[hi]] + ws[hi + 1..];
  }

  /** The total length of the working set changes by the merge's length less the two merged strings. */
  lemma CompactedTotalLength(ws: seq<String>, lo: nat, hi: nat, merged: String)
    requires lo < hi < |ws|
    ensures TotalLength(Compacted(ws, lo, hi, merged)) + |ws[lo]| + |ws[hi]| == TotalLength(ws) + |merged|
  {
    var a, b, c := ws[..lo], ws[lo + 1..hi], ws[hi + 1..];
    CompactedParts(ws, lo, hi, merged);
    assert ws == a + [ws[lo]] + b + [ws[hi]] + c;
    TotalLengthAppend(a + [ws[lo]] + b + [ws[hi]], c);
    TotalLengthAppend(a + [ws[lo]] + b, [ws[hi]]);
    TotalLengthAppend(a + [ws[lo]], b);
    TotalLengthAppend(a, [ws[lo]]);
    TotalLengthAppend(a + [merged] + b, c);
    TotalLengthAppend(a + [merged], b);
    TotalLengthAppend(a, [merged]);
    assert TotalLength([ws[lo]]) == |ws[lo]| by { assert [ws[lo]][..0] == []; }
    assert TotalLength([ws[hi]]) == |ws[hi]| by { assert [ws[hi]][..0] == []; }
    assert TotalLength([merged]) == |merged| by { assert [merged][..0] == []; }
  }

  /** The slots after removing position hi of the first count: later slots one place left, the last slot unchanged. */
  function ShiftedSlots(slots: seq<String>, count: nat, hi: nat): (r: seq<String>)
    requires hi < count <= |slots|
  {
    slots[..hi] + slots[hi + 1..count] + slots[count - 1..]
  }

  /**
   * The in-place shift of the sequential program: `strings[k] = strings[k + 1]`
   * for k from hi up to count - 2.  Slots below hi are unchanged, slot hi + t
   * receives the old slot hi + 1 + t, and the slots from count - 1 on keep
   * their values.
   */
  method ShiftLeft(slots: seq<String>, count: nat, hi: nat) returns (r: seq<String>)
    requires hi < count <= |slots|
    ensures |r| == |slots|
    ensures r[..hi] == slots[..hi]
    ensures forall k :: hi <= k < count - 1 ==> r[k] == slots[k + 1]
    ensures r[count - 1..] == slots[count - 1..]
    ensures r == ShiftedSlots(slots, count, hi)
  {
    r := slots;
    var k := hi;
    while k < count - 1
      invariant hi <= k <= count - 1
      invariant |r| == |slots|
      invariant r[..hi] == slots[..hi]
      invariant forall t :: hi <= t < k ==> r[t] == slots[t + 1]
      invariant r[k..] == slots[k..]
    {
      r := r[k := r[k + 1]];
      k := k + 1;
    }
    assert r == ShiftedSlots(slots, count, hi);
  }

  /**
   * The staged shift of the parallel program: the count - hi - 1 slots after
   * hi are first copied into `tmp`, then copied back starting at hi.  It
   * leaves the slots exactly as the in-place shift does.
   */
  method StagedShift(slots: seq<String>, count: nat, hi: nat) returns (r: seq<String>)
    requires hi < count <= |slots|
    ensures |r| == |slots|
    ensures r[..hi] == slots[..hi]
    ensures forall k :: hi <= k < count - 1 ==> r[k] == slots[k + 1]
    ensures r[count - 1..] == slots[count - 1..]
    ensures r == ShiftedSlots(slots, count, hi)
  {
    r := slots;
    var elems := count - hi - 1;
    if elems > 0 {
      var tmp: seq<String> := [];
      var t := 0;
      while t < elems
        invariant 0 <= t <= elems
        invariant |tmp| == t
        invariant forall u :: 0 <= u < t ==> tmp[u] == slots[hi + 1 + u]
      {
        tmp := tmp + [r[hi + 1 + t]];
        t := t + 1;
      }
      t := 0;
      while t < elems
        invariant 0 <= t <= elems
        invariant |r| == |slots|
        invariant forall k :: 0 <= k < hi ==> r[k] == slots[k]
        invariant forall k :: hi <= k < hi + t ==> r[k] == slots[k + 1]
        invariant forall k :: hi + t <= k < |slots| ==> r[k] == slots[k]
      {
        r := r[hi + t := tmp[t]];
        t := t + 1;
      }
    }
    assert r == ShiftedSlots(slots, count, hi);
  }

  /** Installing the merge at lo and shifting out hi turns the working set into `Compacted`. */
  lemma ReplaceThenShift(slots: seq<String>, count: nat, lo: nat, hi: nat, merged: String)
    requires lo < hi < count <= |slots|
    ensures ShiftedSlots(slots[lo := merged], count, hi)[..count - 1] == Compacted(slots[..count], lo, hi, merged)
  {
  }

  /**
   * The compaction of the sequential program: replace at the lower index,
   * then remove the higher one by the in-place shift.  The first count - 1
   * slots become the compacted working set.
   */
  method CompactInPlace(slots: seq<String>, count: nat, bi: nat, bj: nat, merged: String) returns (next: seq<String>)
    requires bi < count && bj < count && bi != bj && count <= |slots|
    ensures |next| == |slots|
    ensures next[..count - 1] == Compacted(slots[..count], if bi < bj then bi else bj, if bi > bj then bi else bj, merged)
    ensures next[count - 1..] == slots[count - 1..]
  {
    var idxToReplace := if bi < bj then bi else bj;
    var idxToRemove := if bi > bj then bi else bj;
    next := slots[idxToReplace := merged];
    next := ShiftLeft(next, count, idxToRemove);
    ReplaceThenShift(slots, count, idxToReplace, idxToRemove, merged);
  }

  /** The compaction of the parallel program: the same replacement, then the staged shift. */
  method CompactStaged(slots: seq<String>, count: nat, bi: nat, bj: nat, merged: String) returns (next: seq<String>)
    requires bi < count && bj < count && bi != bj && count <= |slots|
    ensures |next| == |slots|
    ensures next[..count - 1] == Compacted(slots[..count], if bi < bj then bi else bj, if bi > bj then bi else bj, merged)
    ensures next[count - 1..] == slots[count - 1..]
  {
    var idxToReplace := if bi < bj then bi else bj;
    var idxToRemove := if bi > bj then bi else bj;
    next := slots[idxToReplace := merged];
    next := StagedShift(next, count, idxToRemove);
    ReplaceThenShift(slots, count, idxToReplace, idxToRemove, merged);
  }
}
