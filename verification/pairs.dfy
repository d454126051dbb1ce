/**
 * Candidate pairs and the tie-break comparator shared by every search in
 * both programs: the sequential scan, each thread's local scan, and the
 * critical-section fold of the threads' results.
 */
module Pairs {
  import opened Text
  import opened Overlap

  /** An ordered pair of working-set positions: `i` gives the suffix side, `j` the prefix side. */
  datatype Pair = Pair(i: int, j: int)

  /** `max_overlap`, `best_i`, `best_j` of a search; all three -1 mean "no pair evaluated yet". */
  datatype Best = Best(overlap: int, i: int, j: int)

  const Unset: Best := Best(-1, -1, -1)

  /** What the tie-break looks at: the overlap and the two strings, never their positions. */
  datatype Key = Key(overlap: int, left: String, right: String)

  /**
   * k is strictly better than c: a larger overlap, or the same overlap and a
   * lexicographically smaller left string, or both of those equal and a
   * smaller right string.
   */
  predicate Beats(k: Key, c: Key) {
    || k.overlap > c.overlap
    || (&& k.overlap == c.overlap
        && (StrLess(k.left, c.left) || (k.left == c.left && StrLess(k.right, c.right))))
  }

  lemma BeatsTransitive(a: Key, b: Key, c: Key)
    requires Beats(a, b) && Beats(b, c)
    ensures Beats(a, c)
  {
    if a.overlap == b.overlap == c.overlap {
      if StrLess(a.left, b.left) && StrLess(b.left, c.left) {
        StrLessTransitive(a.left, b.left, c.left);
      } else if a.left == b.left == c.left {
        StrLessTransitive(a.right, b.right, c.right);
      }
    }
  }

  /** Two different keys are always ordered one way or the other. */
  lemma BeatsTotal(a: Key, b: Key)
    requires a != b
    ensures Beats(a, b) || Beats(b, a)
  {
    StrCmpAntisymmetric(a.left, b.left);
    StrCmpAntisymmetric(a.right, b.right);
    StrCmpZeroIffEqual(a.left, b.left);
    StrCmpZeroIffEqual(a.right, b.right);
  }

  /** No key beats itself. */
  lemma BeatsIrreflexive(k: Key)
    ensures !Beats(k, k)
  {
    StrCmpZeroIffEqual(k.left, k.left);
    StrCmpZeroIffEqual(k.right, k.right);
  }

  lemma BeatsAsymmetric(a: Key, b: Key)
    requires Beats(a, b)
    ensures !Beats(b, a)
  {
    StrCmpAntisymmetric(a.left, b.left);
    StrCmpAntisymmetric(a.right, b.right);
  }

  /** "Not beaten by" is transitive: it is the reflexive closure of the reverse order. */
  lemma NotBeatenTransitive(a: Key, b: Key, c: Key)
    requires !Beats(a, b) && !Beats(b, c)
    ensures !Beats(a, c)
  {
    if Beats(a, c) {
      if a != b {
        BeatsTotal(a, b);
        if b != c {
          BeatsTotal(b, c);
          BeatsTransitive(a, c, b);
        }
      }
    }
  }

  /** Both positions lie in the first n slots. */
  predicate InBounds(n: int, p: Pair) {
    0 <= p.i < n && 0 <= p.j < n
  }

  /** A pair the searches evaluate: in bounds and of two different positions. */
  predicate IsCandidate(n: int, p: Pair) {
    InBounds(n, p) && p.i != p.j
  }

  function KeyAt(s: seq<String>, p: Pair): Key
    requires InBounds(|s|, p)
  {
    Key(LongestOverlap(s[p.i], s[p.j]), s[p.i], s[p.j])
  }

  /** A search state is either unset or a candidate carrying its true overlap. */
  predicate WellFormed(s: seq<String>, b: Best) {
    b == Unset || (IsCandidate(|s|, Pair(b.i, b.j)) && b.overlap == LongestOverlap(s[b.i], s[b.j]))
  }

  function KeyOf(s: seq<String>, b: Best): Key
    requires WellFormed(s, b) && b != Unset
  {
    KeyAt(s, Pair(b.i, b.j))
  }

  /**
   * The `is_better` test, literally: the candidate (overlap, i, j) replaces
   * `best` when its overlap is larger, or when the overlaps are equal, some
   * pair was already kept, and strcmp prefers the candidate's strings.
   */
  predicate Better(s: seq<String>, overlap: int, i: int, j: int, best: Best)
    requires overlap != -1 ==> 0 <= i < |s| && 0 <= j < |s|
    requires best.overlap != -1 ==> 0 <= best.i < |s| && 0 <= best.j < |s|
  {
    if overlap > best.overlap then true
    else if overlap == best.overlap && best.overlap != -1 then
      var cmp1 := StrCmp(s[i], s[best.i]);
      cmp1 < 0 || (cmp1 == 0 && StrCmp(s[j], s[best.j]) < 0)
    else false
  }

  /** On well-formed states `is_better` is exactly "beats on contents", and anything beats "unset". */
  lemma BetterIsBeats(s: seq<String>, b: Best, best: Best)
    requires WellFormed(s, b) && b != Unset && WellFormed(s, best)
    ensures Better(s, b.overlap, b.i, b.j, best) <==> (best == Unset || Beats(KeyOf(s, b), KeyOf(s, best)))
  {
    if best != Unset {
      StrCmpZeroIffEqual(s[b.i], s[best.i]);
    }
  }

  /** A kept pair is never beaten by its own contents. */
  lemma SelfNotBeaten(s: seq<String>, b: Best)
    requires WellFormed(s, b)
    ensures b != Unset ==> !Beats(KeyOf(s, b), KeyOf(s, b))
  {
    if b != Unset {
      BeatsIrreflexive(KeyOf(s, b));
    }
  }

  /** One iteration of a scan: a candidate that is better than the kept pair replaces it; i == j is skipped. */
  function Step(s: seq<String>, best: Best, p: Pair): (r: Best)
    requires InBounds(|s|, p) && WellFormed(s, best)
    ensures WellFormed(s, r)
  {
    if p.i == p.j then best
    else
      var overlap := LongestOverlap(s[p.i], s[p.j]);
      if Better(s, overlap, p.i, p.j, best) then Best(overlap, p.i, p.j) else best
  }

  /**
   * The critical section: a thread's local best replaces the shared best
   * under the same comparator.  A thread that saw no pair (overlap -1)
   * leaves the shared best alone, and the result is never worse than
   * either input.
   */
  function Combine(s: seq<String>, acc: Best, local: Best): (r: Best)
    requires WellFormed(s, acc) && WellFormed(s, local)
    ensures WellFormed(s, r)
    ensures r == acc || r == local
    ensures local == Unset ==> r == acc
    ensures acc == Unset ==> r == local
    ensures r != Unset && acc != Unset ==> !Beats(KeyOf(s, acc), KeyOf(s, r))
    ensures r != Unset && local != Unset ==> !Beats(KeyOf(s, local), KeyOf(s, r))
  {
    SelfNotBeaten(s, acc);
    SelfNotBeaten(s, local);
    if local != Unset && acc != Unset then
      BetterDecides(s, acc, local);
      if Better(s, local.overlap, local.i, local.j, acc) then local else acc
    else if Better(s, local.overlap, local.i, local.j, acc) then local else acc
  }

  /** Whichever way `is_better` decides between two kept pairs, the one it keeps is not beaten by the other. */
  lemma BetterDecides(s: seq<String>, acc: Best, local: Best)
    requires WellFormed(s, acc) && WellFormed(s, local) && acc != Unset && local != Unset
    ensures Better(s, local.overlap, local.i, local.j, acc) ==> !Beats(KeyOf(s, acc), KeyOf(s, local))
    ensures !Better(s, local.overlap, local.i, local.j, acc) ==> !Beats(KeyOf(s, local), KeyOf(s, acc))
  {
    BetterIsBeats(s, local, acc);
    if Beats(KeyOf(s, local), KeyOf(s, acc)) {
      BeatsAsymmetric(KeyOf(s, local), KeyOf(s, acc));
    }
  }

  /**
   * b is the comparator-best candidate listed in ps (pairs with i == j are
   * listed but never evaluated); b is unset exactly when ps lists no
   * candidate at all.
   */
  predicate IsBestOf(s: seq<String>, ps: seq<Pair>, b: Best)
    requires forall p :: p in ps ==> InBounds(|s|, p)
  {
    && WellFormed(s, b)
    && (b == Unset <==> forall p :: p in ps ==> p.i == p.j)
    && (b != Unset ==>
          && Pair(b.i, b.j) in ps
          && forall p :: p in ps && p.i != p.j ==> !Beats(KeyAt(s, p), KeyOf(s, b)))
  }

  /** b is a best candidate of the whole working set s: no pair of distinct positions beats it. */
  ghost predicate IsGlobalBest(s: seq<String>, b: Best) {
    && WellFormed(s, b)
    && b != Unset
    && forall p {:trigger KeyAt(s, p)} :: IsCandidate(|s|, p) ==> !Beats(KeyAt(s, p), KeyOf(s, b))
  }

  /** Folding the best of ps with the best of qs through `Combine` gives the best of ps + qs. */
  lemma CombineBestOf(s: seq<String>, ps: seq<Pair>, qs: seq<Pair>, b1: Best, b2: Best)
    requires forall p :: p in ps + qs ==> InBounds(|s|, p)
    requires IsBestOf(s, ps, b1) && IsBestOf(s, qs, b2)
    ensures IsBestOf(s, ps + qs, Combine(s, b1, b2))
  {
    var r := Combine(s, b1, b2);
    if r != Unset {
      forall p | p in ps + qs && p.i != p.j
        ensures !Beats(KeyAt(s, p), KeyOf(s, r))
      {
        if p in ps {
          NotBeatenTransitive(KeyAt(s, p), KeyOf(s, b1), KeyOf(s, r));
        } else {
          NotBeatenTransitive(KeyAt(s, p), KeyOf(s, b2), KeyOf(s, r));
        }
      }
    }
  }

  /** Extending a scan by one pair keeps it the best of what it has seen. */
  lemma StepBestOf(s: seq<String>, ps: seq<Pair>, b: Best, p: Pair)
    requires forall q :: q in ps + [p] ==> InBounds(|s|, q)
    requires IsBestOf(s, ps, b)
    ensures IsBestOf(s, ps + [p], Step(s, b, p))
  {
    assert p in ps + [p];
    var single := if p.i == p.j then Unset else Best(LongestOverlap(s[p.i], s[p.j]), p.i, p.j);
    SelfNotBeaten(s, single);
    assert IsBestOf(s, [p], single);
    assert Step(s, b, p) == Combine(s, b, single);
    CombineBestOf(s, ps, [p], b, single);
  }

  /** The scan every search performs, as a left fold of `Step` over a list of pairs. */
  function ScanPairs(s: seq<String>, ps: seq<Pair>): (r: Best)
    requires forall p :: p in ps ==> InBounds(|s|, p)
    ensures WellFormed(s, r)
    decreases |ps|
  {
    if |ps| == 0 then Unset else Step(s, ScanPairs(s, ps[..|ps| - 1]), ps[|ps| - 1])
  }

  /** Scanning one more pair is one more `Step`. */
  lemma ScanExtend(s: seq<String>, ps: seq<Pair>, p: Pair)
    requires forall q :: q in ps + [p] ==> InBounds(|s|, q)
    ensures ScanPairs(s, ps + [p]) == Step(s, ScanPairs(s, ps), p)
  {
    assert (ps + [p])[..|ps|] == ps;
  }

  lemma {:induction false} ScanPairsIsBest(s: seq<String>, ps: seq<Pair>)
    requires forall p :: p in ps ==> InBounds(|s|, p)
    ensures IsBestOf(s, ps, ScanPairs(s, ps))
    decreases |ps|
  {
    if |ps| > 0 {
      var init := ps[..|ps| - 1];
      assert ps == init + [ps[|ps| - 1]];
      ScanPairsIsBest(s, init);
      StepBestOf(s, init, ScanPairs(s, init), ps[|ps| - 1]);
    }
  }

  /**
   * The scan keeps the first of equally good pairs: its result sits at some
   * position t of the list, and no candidate before t has the same contents.
   */
  lemma {:induction false} ScanPairsFirst(s: seq<String>, ps: seq<Pair>) returns (t: nat)
    requires forall p :: p in ps ==> InBounds(|s|, p)
    requires ScanPairs(s, ps) != Unset
    ensures t < |ps| && ps[t] == Pair(ScanPairs(s, ps).i, ScanPairs(s, ps).j)
    ensures forall u :: 0 <= u < t && ps[u].i != ps[u].j ==> KeyAt(s, ps[u]) != KeyOf(s, ScanPairs(s, ps))
    decreases |ps|
  {
    var init, last := ps[..|ps| - 1], ps[|ps| - 1];
    assert forall u :: 0 <= u < |init| ==> init[u] == ps[u];
    assert last in ps;
    var b0 := ScanPairs(s, init);
    var b := ScanPairs(s, ps);
    if last.i != last.j && Better(s, LongestOverlap(s[last.i], s[last.j]), last.i, last.j, b0) {
      t := |ps| - 1;
      ScanPairsIsBest(s, init);
      var bl := Best(LongestOverlap(s[last.i], s[last.j]), last.i, last.j);
      BetterIsBeats(s, bl, b0);
      forall u | 0 <= u < t && ps[u].i != ps[u].j
        ensures KeyAt(s, ps[u]) != KeyOf(s, b)
      {
        assert init[u] in init;
      }
    } else {
      t := ScanPairsFirst(s, init);
    }
  }

  /** The best of a list that names every candidate is a global best. */
  lemma BestOfAllIsGlobal(s: seq<String>, ps: seq<Pair>, b: Best)
    requires forall p :: p in ps ==> InBounds(|s|, p)
    requires forall p :: IsCandidate(|s|, p) ==> p in ps
    requires |s| >= 2
    requires IsBestOf(s, ps, b)
    ensures IsGlobalBest(s, b)
  {
    assert IsCandidate(|s|, Pair(0, 1));
  }

  /** Every ordered pair of positions below n, row by row. */
  function AllPairs(n: nat): (r: seq<Pair>)
    ensures forall p :: p in r <==> InBounds(n, p)
  {
    Rows(n, n)
  }

  /** The first j pairs of row i: (i, 0), ..., (i, j - 1). */
  function RowPrefix(i: int, j: nat): (r: seq<Pair>)
    ensures |r| == j && forall k :: 0 <= k < j ==> r[k] == Pair(i, k)
    ensures forall p :: p in r <==> p.i == i && 0 <= p.j < j
  {
    var r := seq(j, k => Pair(i, k));
    assert forall p: Pair | p.i == i && 0 <= p.j < j :: r[p.j] == p;
    r
  }

  /** A row prefix grows by one pair at a time. */
  lemma RowPrefixNext(i: int, j: nat)
    ensures RowPrefix(i, j + 1) == RowPrefix(i, j) + [Pair(i, j)]
  {
  }

  /** The first `rows` rows of n pairs each. */
  function Rows(rows: nat, n: nat): (r: seq<Pair>)
    ensures forall p :: p in r <==> 0 <= p.i < rows && 0 <= p.j < n
    decreases rows
  {
    if rows == 0 then []
    else
      Rows(rows - 1, n) + RowPrefix(rows - 1, n)
  }

  /** A working set of at least two strings has a global best, and any two global bests have equal contents. */
  lemma GlobalBestExists(s: seq<String>)
    requires |s| >= 2
    ensures IsGlobalBest(s, ScanPairs(s, AllPairs(|s|)))
  {
    ScanPairsIsBest(s, AllPairs(|s|));
    BestOfAllIsGlobal(s, AllPairs(|s|), ScanPairs(s, AllPairs(|s|)));
  }

  /** All global bests carry the same overlap and the same two strings. */
  lemma GlobalBestUnique(s: seq<String>, b1: Best, b2: Best)
    requires IsGlobalBest(s, b1) && IsGlobalBest(s, b2)
    ensures KeyOf(s, b1) == KeyOf(s, b2)
    ensures b1.overlap == b2.overlap && s[b1.i] == s[b2.i] && s[b1.j] == s[b2.j]
  {
    var p1, p2 := Pair(b1.i, b1.j), Pair(b2.i, b2.j);
    assert IsCandidate(|s|, p1) && IsCandidate(|s|, p2);
    if KeyOf(s, b1) != KeyOf(s, b2) {
      BeatsTotal(KeyOf(s, b1), KeyOf(s, b2));
    }
  }
}
