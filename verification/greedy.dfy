/**
 * One round of the greedy heuristic on the working set as a value, the
 * facts a round preserves, and a reference definition of the whole run.
 * The reference merges, each round, some global best, chosen without
 * regard to any scan order.  Because the tie-break reads only contents,
 * all global bests have the same contents.  So the result depends only on
 * the multiset of strings the run starts from, and any search that returns
 * some global best each round (sequential or parallel, whatever the thread
 * schedule) ends with the same string.
 */
module Greedy {
  import opened Text
  import opened Overlap
  import opened Merge
  import opened Pairs
  import opened Compaction

  /** The string a round produces from the chosen pair. */
  function MergedString(ws: seq<String>, b: Best): String
    requires WellFormed(ws, b) && b != Unset
  {
    LongestOverlapIsMax(ws[b.i], ws[b.j]);
    MergeStrings(ws[b.i], ws[b.j], b.overlap)
  }

  /** The working set after the round that merges pair b. */
  function NextWorkingSet(ws: seq<String>, b: Best): seq<String>
    requires WellFormed(ws, b) && b != Unset
  {
    var lo := if b.i < b.j then b.i else b.j;
    var hi := if b.i > b.j then b.i else b.j;
    Compacted(ws, lo, hi, MergedString(ws, b))
  }

  /** Every input occurs in some entry of the working set. */
  ghost predicate Covered(inputs: seq<String>, ws: seq<String>) {
    forall x :: x in inputs ==> exists e :: e in ws && IsSubstring(x, e)
  }

  lemma CoveredInitially(inputs: seq<String>)
    ensures Covered(inputs, inputs)
  {
    forall x | x in inputs
      ensures exists e :: e in inputs && IsSubstring(x, e)
    {
      SubstringReflexive(x);
    }
  }

  /**
   * A round that merges two distinct entries along a genuine overlap keeps
   * every input covered, and shrinks the total length of the working set
   * by exactly that overlap.
   */
  lemma RoundInvariants(inputs: seq<String>, ws: seq<String>, i: nat, j: nat, overlap: nat)
    requires i < |ws| && j < |ws| && i != j
    requires IsOverlap(ws[i], ws[j], overlap)
    ensures var lo, hi := (if i < j then i else j), (if i > j then i else j);
            var next := Compacted(ws, lo, hi, MergeStrings(ws[i], ws[j], overlap));
            && (Covered(inputs, ws) ==> Covered(inputs, next))
            && TotalLength(next) + overlap == TotalLength(ws)
  {
    var lo, hi := (if i < j then i else j), (if i > j then i else j);
    var merged := MergeStrings(ws[i], ws[j], overlap);
    var next := Compacted(ws, lo, hi, merged);
    MergeContainsBoth(ws[i], ws[j], overlap);
    CompactedKeepsOthers(ws, lo, hi, merged);
    CompactedTotalLength(ws, lo, hi, merged);
    if Covered(inputs, ws) {
      forall x | x in inputs
        ensures exists e :: e in next && IsSubstring(x, e)
      {
        var e :| e in ws && IsSubstring(x, e);
        var t :| 0 <= t < |ws| && ws[t] == e;
        if t == lo || t == hi {
          SubstringTransitive(x, e, merged);
          assert next[lo] == merged;
        } else if t < hi {
          assert next[t] == e;
        } else {
          assert next[t - 1] == e;
        }
      }
    }
  }

  /** Some global best of a working set of at least two strings, chosen without regard to any scan order. */
  ghost function ChosenBest(ws: seq<String>): (b: Best)
    requires |ws| >= 2
    ensures WellFormed(ws, b) && b != Unset
  {
    GlobalBestExists(ws);
    var b :| IsGlobalBest(ws, b);
    b
  }

  /** The chosen pair is a global best. */
  lemma ChosenBestIsGlobal(ws: seq<String>)
    requires |ws| >= 2
    ensures IsGlobalBest(ws, ChosenBest(ws))
  {
    GlobalBestExists(ws);
  }

  /** The reference run: merge some global best until one string is left. */
  ghost function GreedyResult(ws: seq<String>): String
    requires |ws| >= 1
    decreases |ws|
  {
    if |ws| == 1 then ws[0] else GreedyResult(NextWorkingSet(ws, ChosenBest(ws)))
  }

  /** Removing one position takes one copy of its string out of the multiset. */
  lemma RemoveOne(s: seq<String>, k: nat)
    requires k < |s|
    ensures multiset(s[..k] + s[k + 1..]) == multiset(s) - multiset{s[k]}
  {
    assert s == s[..k] + [s[k]] + s[k + 1..];
  }

  /** A string of the multiset sits at some position. */
  lemma FindIndex(s: seq<String>, x: String) returns (k: nat)
    requires x in multiset(s)
    ensures k < |s| && s[k] == x
  {
    assert x in s;
    k :| 0 <= k < |s| && s[k] == x;
  }

  /** Another position's string survives taking one copy of ws[i] out of the multiset. */
  lemma OtherStaysIn(ws: seq<String>, i: nat, j: nat)
    requires i < |ws| && j < |ws| && i != j
    ensures ws[j] in multiset(ws) - multiset{ws[i]}
  {
    RemoveOne(ws, i);
    var rest := ws[..i] + ws[i + 1..];
    assert ws[j] == rest[if j < i then j else j - 1];
    assert ws[j] in rest;
  }

  /** A position other than i' holding a string of the multiset left after taking one copy of ws[i'] out. */
  lemma FindOtherIndex(ws: seq<String>, i: nat, y: String) returns (j: nat)
    requires i < |ws| && y in multiset(ws) - multiset{ws[i]}
    ensures j < |ws| && j != i && ws[j] == y
  {
    RemoveOne(ws, i);
    var rest := ws[..i] + ws[i + 1..];
    var k := FindIndex(rest, y);
    j := if k < i then k else k + 1;
    assert rest[k] == ws[j];
  }

  /** A candidate pair of one working set has a counterpart, with the same two strings, in any permutation of it. */
  lemma PairTransfer(ws: seq<String>, ws': seq<String>, p: Pair) returns (q: Pair)
    requires multiset(ws) == multiset(ws') && IsCandidate(|ws|, p)
    ensures IsCandidate(|ws'|, q) && ws'[q.i] == ws[p.i] && ws'[q.j] == ws[p.j]
  {
    assert ws[p.i] in multiset(ws);
    var i' := FindIndex(ws', ws[p.i]);
    OtherStaysIn(ws, p.i, p.j);
    var j' := FindOtherIndex(ws', i', ws[p.j]);
    q := Pair(i', j');
  }

  /** Permuting the working set does not change the contents of its global bests. */
  lemma BestKeyDependsOnMultiset(ws: seq<String>, ws': seq<String>, b: Best, b': Best)
    requires multiset(ws) == multiset(ws')
    requires IsGlobalBest(ws, b) && IsGlobalBest(ws', b')
    ensures KeyOf(ws, b) == KeyOf(ws', b')
  {
    var q := PairTransfer(ws', ws, Pair(b'.i, b'.j));
    assert KeyAt(ws, q) == KeyOf(ws', b');
    var q' := PairTransfer(ws, ws', Pair(b.i, b.j));
    assert KeyAt(ws', q') == KeyOf(ws, b);
    if KeyOf(ws, b) != KeyOf(ws', b') {
      BeatsTotal(KeyOf(ws, b), KeyOf(ws', b'));
    }
  }

  /** A round trades the two merged strings for their merge in the multiset of the working set. */
  lemma NextMultiset(ws: seq<String>, b: Best)
    requires WellFormed(ws, b) && b != Unset
    ensures multiset(NextWorkingSet(ws, b)) == multiset(ws) - multiset{ws[b.i], ws[b.j]} + multiset{MergedString(ws, b)}
  {
    var lo, hi := (if b.i < b.j then b.i else b.j), (if b.i > b.j then b.i else b.j);
    CompactedMultiset(ws, lo, hi, MergedString(ws, b));
    assert multiset{ws[lo], ws[hi]} == multiset{ws[b.i], ws[b.j]};
  }

  /** Rounds on two permutations of a working set, each along a global best, give the same merge and again permutations. */
  lemma RoundsAgree(ws: seq<String>, ws': seq<String>, b: Best, b': Best)
    requires multiset(ws) == multiset(ws')
    requires IsGlobalBest(ws, b) && IsGlobalBest(ws', b')
    ensures MergedString(ws, b) == MergedString(ws', b')
    ensures multiset(NextWorkingSet(ws, b)) == multiset(NextWorkingSet(ws', b'))
  {
    BestKeyDependsOnMultiset(ws, ws', b, b');
    NextMultiset(ws, b);
    NextMultiset(ws', b');
  }

  /** The reference result depends only on the multiset of strings. */
  lemma {:induction false} GreedyResultOfMultiset(ws: seq<String>, ws': seq<String>)
    requires |ws| >= 1 && multiset(ws) == multiset(ws')
    ensures |ws'| == |ws|
    ensures GreedyResult(ws) == GreedyResult(ws')
    decreases |ws|
  {
    assert |multiset(ws)| == |ws| && |multiset(ws')| == |ws'|;
    if |ws| == 1 {
      assert ws'[0] in multiset(ws);
    } else {
      var b, b' := ChosenBest(ws), ChosenBest(ws');
      ChosenBestIsGlobal(ws);
      ChosenBestIsGlobal(ws');
      RoundsAgree(ws, ws', b, b');
      GreedyResultOfMultiset(NextWorkingSet(ws, b), NextWorkingSet(ws', b'));
    }
  }

  /** Merging any global best, not only the first in scan order, leaves the reference result unchanged. */
  lemma GreedyResultAnyBest(ws: seq<String>, b: Best)
    requires |ws| >= 2 && IsGlobalBest(ws, b)
    ensures GreedyResult(NextWorkingSet(ws, b)) == GreedyResult(ws)
  {
    var b0 := ChosenBest(ws);
    ChosenBestIsGlobal(ws);
    RoundsAgree(ws, ws, b0, b);
    GreedyResultOfMultiset(NextWorkingSet(ws, b0), NextWorkingSet(ws, b));
  }
}
