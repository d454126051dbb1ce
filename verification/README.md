# Greedy shortest common superstring, modelled in Dafny

This project models the greedy shortest-common-superstring heuristic of
`shortest_superstring.c` (sequential) and `shortest_superstring_parallel.c`
(OpenMP). Both programs keep a working set of strings. Each round they merge
the pair whose suffix/prefix overlap is longest, breaking ties by content,
and they stop when one string is left.

The model has these parts:

- `text.dfy` (module `Text`): C strings as `seq<char>`, `strcmp` as `StrCmp`, "is a substring of", and the total length of a list.
- `overlap.dfy` (`Overlap`): the overlap. There is a reference definition (`LongestOverlap`), the ascending scan of `calculate_overlap`, and the descending early-exit scan of `calculate_overlap_simd` with its inner comparison loop.
- `merge.dfy` (`Merge`): `merge_strings`. The two files carry the same text, so it is modelled once.
- `pairs.dfy` (`Pairs`): the search state `(max_overlap, best_i, best_j)` with -1 for "unset", and the `is_better` test. It also holds the content key `(overlap, strings[i], strings[j])` with its strict total order, the critical-section step `Combine`, and the notions "best of a list of pairs" and "global best".
- `search.dfy` (`Search`): the row-major sequential search, one thread's search over its chunk of pairs, and the parallel search. The parallel search folds the threads' local bests in critical-section order.
- `compaction.dfy` (`Compaction`): replace-at-lo / remove-at-hi. It has the in-place shift of the sequential program and the staged copy through `tmp` of the parallel one.
- `greedy.dfy` (`Greedy`): one round on the working set as a value, and what a round preserves. It also holds a reference run, `GreedyResult`. Each round it merges some global best, chosen without regard to scan order or threads. Its result depends only on the multiset of the inputs.
- `superstring.dfy` (`Superstring`): both `shortest_superstring` drivers.

The working set is the caller's array: `slots`, a sequence of fixed length n, plus `count`. Slots at or after `count` keep stale values, as the C array does.

The thread schedule of the parallel search is a parameter. Each round gets a list of chunks of index pairs: one chunk per thread, listed in the order the threads enter the critical section. Any schedule that hands every candidate pair to some thread is allowed.

The comparator orders contents, not positions. So the parallel search is shown to agree with the sequential one on contents: the same overlap, the same two strings, and so the same merged string. Positions can differ when the working set holds duplicates. Over a whole run, both drivers are proved to return `GreedyResult(inputs)`, whatever the schedule.

Points where the text around the code and the code differ, resolved in favour of the code:

- The comment at `shortest_superstring.c:112` says the `(0, 1)` fallback fires when there are fewer than two strings "or all equal". With two or more strings the first candidate already beats overlap -1. `Search.FindBestPair` proves this, so the fallback is unreachable even when all strings are equal. The fallback is still modelled, as written.
- The overlap of a string with an identical string is its full length, because the scans try `min(len a, len b)` itself. The merge of two equal strings is then that string.

## Model

| member | source | states |
|---|---|---|
| Text.StrCmp | shortest_superstring.c:87-95 | strcmp's sign is -1, 0 or 1; which sign is fixed lexicographically by StrCmpFirstDifference and StrCmpProperPrefix |
| Text.StrCmpZeroIffEqual | shortest_superstring.c:87-95 | strcmp returns 0 exactly when the two strings are equal |
| Text.StrCmpAntisymmetric | shortest_superstring.c:87-95 | swapping the arguments of strcmp negates its result |
| Text.StrCmpFirstDifference | shortest_superstring.c:80-95 | the first differing character decides strcmp's order: a string whose first difference from another has the smaller character compares smaller, which with the proper-prefix rule makes the order lexicographic |
| Text.StrCmpProperPrefix | shortest_superstring.c:87-95 | a proper prefix compares smaller than the longer string, as strcmp's terminating NUL makes it |
| Text.StrLessTransitive | shortest_superstring.c:87-95 | strcmp's "less than" is transitive |
| Overlap.LongestOverlapIsMax | shortest_superstring.c:9-14 | the overlap of a and b is an overlap and no longer overlap up to min(len a, len b) exists |
| Overlap.CalculateOverlap | shortest_superstring.c:14-26 | the ascending scan returns a genuine overlap that is maximal, equal to the reference overlap |
| Overlap.MatchesIsOverlap | shortest_superstring.c:21 | comparing the length-k suffix of a with the prefix of b character by character succeeds exactly when the two slices are equal |
| Overlap.SuffixMatchesPrefix | shortest_superstring_parallel.c:24-37 | the inner loop leaves is_match true exactly when the length-i suffix of a equals the length-i prefix of b |
| Overlap.CalculateOverlapSimd | shortest_superstring_parallel.c:16-47 | the descending early-exit scan returns the maximal overlap, the same value as the ascending scan |
| Merge.MergeStrings | shortest_superstring.c:35-52 | the merge has length len a + len b - overlap, starts with a, and ends with b when the overlap is genuine |
| Merge.MergeContainsBoth | shortest_superstring_parallel.c:56-73 | a merge along a genuine overlap contains both a and b as substrings |
| Pairs.BeatsTransitive | shortest_superstring.c:82-96 | the tie-break order on (overlap, strings[i], strings[j]) is transitive |
| Pairs.BeatsTotal | shortest_superstring.c:82-96 | of two different content triples one always beats the other |
| Pairs.BeatsAsymmetric | shortest_superstring.c:82-96 | a triple that beats another is not beaten by it |
| Pairs.BeatsIrreflexive | shortest_superstring.c:82-96 | no content triple beats itself, so a pair never replaces an equal one |
| Pairs.BetterIsBeats | shortest_superstring.c:82-96 | on well-formed states is_better holds exactly when nothing is kept yet or the candidate's triple beats the kept one |
| Pairs.Combine | shortest_superstring_parallel.c:124-143 | the critical section keeps the shared best or the thread's best, ignores a thread whose overlap is -1, and keeps one not beaten by either |
| Pairs.CombineBestOf | shortest_superstring_parallel.c:124-143 | combining the best of one set of pairs with the best of another gives the best of both together |
| Pairs.ScanPairsIsBest | shortest_superstring_parallel.c:93-121 | scanning a list of pairs with is_better ends unset exactly when the list has no distinct pair, and otherwise with a listed pair that nothing listed beats |
| Pairs.ScanPairsFirst | shortest_superstring.c:82-102 | a scan keeps the first of equally good pairs: no earlier listed candidate has the same contents as the one it ends with |
| Pairs.GlobalBestExists | shortest_superstring.c:69-105 | a working set of two or more strings has a global best |
| Pairs.GlobalBestUnique | shortest_superstring.c:82-102 | any two global bests have the same overlap and the same two strings |
| Search.RowsSorted | shortest_superstring.c:69-70 | the nested loops visit the pairs in strictly increasing row-major order |
| Search.VisitPair | shortest_superstring.c:71-102 | if the kept pair is the best of the pairs visited so far, then after one inner iteration it is the best of those pairs and (i, j): unset exactly when no visited pair has distinct positions, otherwise a visited candidate that no visited candidate beats |
| Search.ScanRow | shortest_superstring.c:70-104 | the inner loop over row i turns the row-major scan of the earlier pairs into the row-major scan of those pairs and the whole row, whose result is the best of all of them |
| Search.FirstInScanOrder | shortest_superstring.c:82-105 | when every candidate is scanned in row-major order, no candidate before the kept one has the same contents |
| Search.FullScan | shortest_superstring.c:64-116 | scanning all pairs yields nothing below two strings and otherwise a global best that is the first in scan order with its contents |
| Search.FindBestPair | shortest_superstring.c:64-116 | with count at least 2 the search ends with distinct in-range indices, so the fallback is unreachable; no pair beats it; it is the first scanned pair with its contents; with fewer strings nothing is chosen; it is the row-major scan of all pairs |
| Search.LocalBestPair | shortest_superstring_parallel.c:91-122 | a thread's search yields its chunk's comparator-best pair, or overlap and indices -1 when the chunk has no distinct pair |
| Search.FlattenAppend | shortest_superstring_parallel.c:93-95 | the pairs handed to a list of threads are the pairs of the first threads followed by those of the rest |
| Search.ParallelBestPair | shortest_superstring_parallel.c:89-144 | for any chunks in any critical-section order the fold is the best of all chunks; when every candidate is handed out it is a global best, so it matches the sequential search in overlap and strings |
| Compaction.CompactedKeepsOthers | shortest_superstring.c:123-137 | after a round the merge sits at lo; entries before hi other than lo stay put; entries after hi move one place left |
| Compaction.CompactedMultiset | shortest_superstring.c:126-137 | a round removes one copy of each merged string from the working set's multiset and adds the merge |
| Compaction.ShiftLeft | shortest_superstring.c:134-137 | the in-place shift leaves [0, hi) unchanged, moves slot k + 1 to k for hi <= k < count - 1, and leaves the slots from count - 1 on alone |
| Compaction.StagedShift | shortest_superstring_parallel.c:170-186 | the copy to tmp and back gives the same slots as the in-place shift |
| Compaction.CompactInPlace | shortest_superstring.c:121-137 | replace at min(i, j) then in-place shift: the first count - 1 slots become the compacted working set and the slots from count - 1 on keep their old values |
| Compaction.CompactStaged | shortest_superstring_parallel.c:158-186 | replace at min(i, j) then staged shift: the first count - 1 slots become the same compacted working set and the slots from count - 1 on keep their old values |
| Greedy.RoundInvariants | shortest_superstring.c:119-141 | a round along a genuine overlap keeps every input a substring of some entry and lowers the total length by exactly the overlap |
| Greedy.PairTransfer | shortest_superstring.c:69-73 | a pair of distinct positions in one ordering of the working set has a pair with the same two strings in any permutation |
| Greedy.BestKeyDependsOnMultiset | shortest_superstring.c:82-102 | global bests of two permutations of a working set have the same overlap and strings |
| Greedy.RoundsAgree | shortest_superstring_parallel.c:146-168 | rounds along any global bests of permuted working sets produce the same merged string and again permuted working sets |
| Greedy.GreedyResultOfMultiset | shortest_superstring.c:63-146 | the greedy result depends only on the multiset of the strings it starts from |
| Greedy.GreedyResultAnyBest | shortest_superstring.c:112-131 | merging any global best leads to the same final string as the reference run, so neither the scan order nor the thread schedule changes the result |
| Superstring.SequentialRound | shortest_superstring.c:64-141 | one sequential round merges a global best of the working set, the first in row-major scan order among those with its contents, and leaves the first count - 1 slots holding the compacted working set |
| Superstring.ParallelRound | shortest_superstring_parallel.c:84-187 | one parallel round, for any chunks that hand out every candidate, merges a global best and leaves the first count - 1 slots holding the compacted working set |
| Superstring.ShortestSuperstring | shortest_superstring.c:60-147 | the sequential driver runs exactly n - 1 rounds, ends with count 1, returns a string containing every input, no longer than the inputs together, the input itself when n is 1, and the reference result |
| Superstring.ParallelShortestSuperstring | shortest_superstring_parallel.c:82-192 | for every schedule that hands out all candidates, the parallel driver has the same guarantees and returns the same string as the sequential one |

## Left out

- Both `main` functions are not modelled. They do the input parsing with `scanf`, the 1024-byte token limit, the n == 0 case and the printing. The drivers require at least one input, which `main` guarantees.
- OpenMP mechanics are not modelled: threads, `collapse(2)` with `guided` scheduling, `nowait`, barriers, `simd`, `omp_set_num_threads` and `NUM_THREADS`. The parallel search is a sequential fold over an arbitrary list of chunks. The staged shift is modelled as the two copy loops run one after the other.
- Timing with `omp_get_wtime` and the reports on stderr are left out. They carry no semantics.
- Memory management is left out: `malloc`, `free` and `strdup`, the `exit` on allocation failure, and the unchecked `tmp` allocation. Strings are immutable values, and the returned copy of `strings[0]` is that value.
- C `int` and `size_t` overflow of lengths and indices is not modelled. Lengths and indices are unbounded.
- `strcmp` compares characters by code point, which stands in for C's unsigned-byte comparison. `strncmp` of a length-i suffix against the prefix of b is modelled as equality of the two length-i slices. These agree on C strings, which contain no NUL.
- Strings are any sequences of characters, NUL included. The model does not restrict them to C strings. Every proved fact holds for all sequences.
- No optimality or approximation ratio is claimed, because the source promises none.
