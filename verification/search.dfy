/**
 * The best-pair searches.  The sequential program scans every ordered pair
 * of distinct positions row by row with `calculate_overlap`.  The parallel
 * program hands the pairs out to threads; each thread scans its share with
 * `calculate_overlap_simd` into a local best, and the local bests are then
 * folded one thread at a time into the shared best in a critical section.
 * The thread schedule is a parameter: a list of chunks of pairs, one per
 * thread, in the order the threads enter the critical section.
 */
module Search {
  import opened Text
  import opened Overlap
  import opened Pairs

  /** p is visited before q by the row-major scan of the sequential search. */
  predicate Before(p: Pair, q: Pair) {
    p.i < q.i || (p.i == q.i && p.j < q.j)
  }

  /** A list of pairs strictly increasing in scan order. */
  predicate ScanOrdered(ps: seq<Pair>) {
    forall u, v :: 0 <= u < v < |ps| ==> Before(ps[u], ps[v])
  }

  /** The row-major list of pairs is strictly increasing in scan order. */
  lemma {:induction false} RowsSorted(k: nat, n: nat)
    ensures ScanOrdered(Rows(k, n))
    decreases k
  {
    if k > 0 {
      RowsSorted(k - 1, n);
      var prev := Rows(k - 1, n);
      var row := RowPrefix(k - 1, n);
      assert Rows(k, n) == prev + row;
      forall u | 0 <= u < |prev|
        ensures prev[u].i < k - 1
      {
        assert prev[u] in prev;
      }
    }
  }

  /**
   * What the sequential search promises: nothing with fewer than two
   * strings; otherwise a global best with no candidate of the same contents
   * before it in scan order.
   */
  ghost predicate IsFirstGlobalBest(s: seq<String>, best: Best) {
    if |s| < 2 then best == Unset
    else
      && IsGlobalBest(s, best)
      && forall p :: IsCandidate(|s|, p) && Before(p, Pair(best.i, best.j)) ==> KeyAt(s, p) != KeyOf(s, best)
  }

  /**
   * What a complete scan of all pairs yields: nothing with fewer than two
   * strings, otherwise a global best with no equal candidate before it in
   * scan order.
   */
  lemma FullScan(s: seq<String>)
    ensures IsFirstGlobalBest(s, ScanPairs(s, AllPairs(|s|)))
  {
    var all := AllPairs(|s|);
    ScanPairsIsBest(s, all);
    if |s| >= 2 {
      GlobalBestExists(s);
      RowsSorted(|s|, |s|);
      FirstInScanOrder(s, all);
    } else {
      assert forall p :: p in all ==> p.i == p.j;
    }
  }

  /**
   * When a scan visits every candidate in scan order, the pair it keeps has
   * no candidate with the same contents before it.
   */
  lemma FirstInScanOrder(s: seq<String>, ps: seq<Pair>)
    requires forall p :: p in ps ==> InBounds(|s|, p)
    requires forall p :: IsCandidate(|s|, p) ==> p in ps
    requires ScanOrdered(ps)
    requires ScanPairs(s, ps) != Unset
    ensures var b := ScanPairs(s, ps);
      forall p :: IsCandidate(|s|, p) && Before(p, Pair(b.i, b.j)) ==> KeyAt(s, p) != KeyOf(s, b)
  {
    var b := ScanPairs(s, ps);
    var t := ScanPairsFirst(s, ps);
    forall p | IsCandidate(|s|, p) && Before(p, Pair(b.i, b.j))
      ensures KeyAt(s, p) != KeyOf(s, b)
    {
      var u :| 0 <= u < |ps| && ps[u] == p;
    }
  }

  /**
   * The search of `shortest_superstring`: with two or more strings it always
   * ends with a pair of distinct in-range positions (so the (0, 1) fallback
   * is never taken), no candidate beats it under the tie-break, and it is
   * the first pair in scan order with its contents.  With fewer than two
   * strings nothing is evaluated.  It is the scan of all pairs in row-major
   * order.
   */
  method FindBestPair(s: seq<String>) returns (best: Best)
    ensures IsFirstGlobalBest(s, best)
    ensures best == ScanPairs(s, AllPairs(|s|))
  {
    best := Unset;
    var i := 0;
    while i < |s|
      invariant 0 <= i <= |s|
      invariant best == ScanPairs(s, Rows(i, |s|))
    {
      best := ScanRow(s, i, best, Rows(i, |s|));
      assert Rows(i + 1, |s|) == Rows(i, |s|) + RowPrefix(i, |s|);
      i := i + 1;
    }
    FullScan(s);
  }

  /**
   * Row i of the sequential scan: the inner loop over j.  Started from the
   * scan of the pairs `ps` visited before the row, it ends with the scan of
   * `ps` followed by the whole row, which is the best of those pairs.
   */
  method ScanRow(s: seq<String>, i: nat, best0: Best, ghost ps: seq<Pair>) returns (best: Best)
    requires i < |s|
    requires forall p :: p in ps ==> InBounds(|s|, p)
    requires best0 == ScanPairs(s, ps)
    ensures IsBestOf(s, ps + RowPrefix(i, |s|), best)
    ensures best == ScanPairs(s, ps + RowPrefix(i, |s|))
  {
    best := best0;
    var j := 0;
    ghost var visited := ps;
    assert ps + RowPrefix(i, 0) == ps;
    while j < |s|
      invariant 0 <= j <= |s|
      invariant visited == ps + RowPrefix(i, j)
      invariant forall p :: p in visited ==> InBounds(|s|, p)
      invariant best == ScanPairs(s, visited)
    {
      ScanPairsIsBest(s, visited);
      best := VisitPair(s, i, j, best, visited);
      visited := RowStep(s, ps, i, j, visited);
      j := j + 1;
    }
    ScanPairsIsBest(s, visited);
  }

  /** The visited pairs of row i grow by one column, and so does their scan. */
  lemma RowStep(s: seq<String>, ps: seq<Pair>, i: nat, j: nat, visited: seq<Pair>) returns (visited': seq<Pair>)
    requires i < |s| && j < |s|
    requires forall p :: p in ps ==> InBounds(|s|, p)
    requires visited == ps + RowPrefix(i, j)
    ensures visited' == visited + [Pair(i, j)] == ps + RowPrefix(i, j + 1)
    ensures forall p :: p in visited' ==> InBounds(|s|, p)
    ensures ScanPairs(s, visited') == Step(s, ScanPairs(s, visited), Pair(i, j))
  {
    visited' := visited + [Pair(i, j)];
    RowPrefixNext(i, j);
    ScanExtend(s, visited, Pair(i, j));
  }

  /**
   * The body of the inner loop: evaluate (i, j) unless i == j and keep the
   * better pair.  The best of the pairs `ps` visited so far becomes the best
   * of `ps` followed by (i, j).
   */
  method VisitPair(s: seq<String>, i: nat, j: nat, best0: Best, ghost ps: seq<Pair>) returns (best: Best)
    requires i < |s| && j < |s| && WellFormed(s, best0)
    requires forall p :: p in ps ==> InBounds(|s|, p)
    requires IsBestOf(s, ps, best0)
    ensures IsBestOf(s, ps + [Pair(i, j)], best)
    ensures best == Step(s, best0, Pair(i, j))
  {
    best := best0;
    if i != j {
      var currentOverlap := CalculateOverlap(s[i], s[j]);
      if Better(s, currentOverlap, i, j, best) {
        best := Best(currentOverlap, i, j);
      }
    }
    StepBestOf(s, ps, best0, Pair(i, j));
  }

  /**
   * One thread's search: the same comparator over the pairs of its chunk,
   * in chunk order, with the descending overlap scan.  The result is the
   * comparator-best candidate of the chunk, or unset (overlap -1, indices
   * -1) when the chunk holds no pair of distinct positions.
   */
  method LocalBestPair(s: seq<String>, chunk: seq<Pair>) returns (best: Best)
    requires forall p :: p in chunk ==> InBounds(|s|, p)
    ensures IsBestOf(s, chunk, best)
    ensures best == ScanPairs(s, chunk)
  {
    best := Unset;
    var k := 0;
    while k < |chunk|
      invariant 0 <= k <= |chunk|
      invariant best == ScanPairs(s, chunk[..k])
    {
      var p := chunk[k];
      assert p in chunk;
      if p.i != p.j {
        var currentOverlap := CalculateOverlapSimd(s[p.i], s[p.j]);
        if Better(s, currentOverlap, p.i, p.j, best) {
          best := Best(currentOverlap, p.i, p.j);
        }
      }
      assert chunk[..k + 1][..k] == chunk[..k];
      k := k + 1;
    }
    assert chunk[..|chunk|] == chunk;
    ScanPairsIsBest(s, chunk);
  }

  /** All chunks one after another: the pair space as the threads share it out. */
  function Flatten(chunks: seq<seq<Pair>>): seq<Pair>
    decreases |chunks|
  {
    if |chunks| == 0 then [] else Flatten(chunks[..|chunks| - 1]) + chunks[|chunks| - 1]
  }

  lemma {:induction false} FlattenAppend(cs: seq<seq<Pair>>, ds: seq<seq<Pair>>)
    ensures Flatten(cs + ds) == Flatten(cs) + Flatten(ds)
    decreases |ds|
  {
    if |ds| == 0 {
      assert cs + ds == cs;
    } else {
      var front, last := ds[..|ds| - 1], ds[|ds| - 1];
      assert (cs + ds)[..|cs + ds| - 1] == cs + front;
      FlattenAppend(cs, front);
      assert Flatten(cs + ds) == Flatten(cs + front) + last;
      assert Flatten(ds) == Flatten(front) + last;
    }
  }

  /** Every pair handed to a thread is in range for a working set of n strings. */
  predicate ChunksInRange(chunks: seq<seq<Pair>>, n: nat) {
    forall p :: p in Flatten(chunks) ==> InBounds(n, p)
  }

  /** Every candidate pair of a working set of n strings is handed to some thread. */
  ghost predicate HandsOutAll(chunks: seq<seq<Pair>>, n: nat) {
    forall p :: IsCandidate(n, p) ==> p in Flatten(chunks)
  }

  /**
   * The search of the parallel `shortest_superstring`: each thread computes
   * its local best and folds it into the shared best through `Combine`.
   * Whatever the chunks and their order, the result is the comparator-best
   * candidate of all of them together; when the chunks name every candidate
   * (as the collapsed loop does) it is a global best, hence has the same
   * overlap and strings as the sequential search's pair.
   */
  method ParallelBestPair(s: seq<String>, chunks: seq<seq<Pair>>) returns (best: Best)
    requires ChunksInRange(chunks, |s|)
    ensures IsBestOf(s, Flatten(chunks), best)
    ensures |s| >= 2 && HandsOutAll(chunks, |s|) ==> IsGlobalBest(s, best)
  {
    best := Unset;
    var c := 0;
    while c < |chunks|
      invariant 0 <= c <= |chunks|
      invariant forall p :: p in Flatten(chunks[..c]) ==> InBounds(|s|, p)
      invariant IsBestOf(s, Flatten(chunks[..c]), best)
    {
      FlattenAppend(chunks[..c + 1], chunks[c + 1..]);
      assert chunks[..c + 1] + chunks[c + 1..] == chunks;
      assert chunks[..c + 1][..c] == chunks[..c];
      var local := LocalBestPair(s, chunks[c]);
      CombineBestOf(s, Flatten(chunks[..c]), chunks[c], best, local);
      best := Combine(s, best, local);
      c := c + 1;
    }
    assert chunks[..|chunks|] == chunks;
    if |s| >= 2 && HandsOutAll(chunks, |s|) {
      BestOfAllIsGlobal(s, Flatten(chunks), best);
    }
  }
}
