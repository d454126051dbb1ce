/**
 * C strings as the algorithm sees them: the characters in front of the
 * terminating NUL, so `strlen` is `|s|`.  The type admits '\0' as an
 * element; every fact here holds for any sequence of characters.
 * This module holds the string facts the rest of the model leans on:
 * the `strcmp` order, "is a substring of", and the total length of a
 * list of strings.
 */
module Text {

  type String = seq<char>

  /**
   * `strcmp` with its sign normalised to -1, 0 or 1: the first differing
   * character decides, and a proper prefix compares smaller.  Characters are
   * compared by code point, which stands in for C's unsigned-byte compare.
   */
  function StrCmp(a: String, b: String): (r: int)
    ensures r == -1 || r == 0 || r == 1
    decreases |a|
  {
    if |a| == 0 && |b| == 0 then 0
    else if |a| == 0 then -1
    else if |b| == 0 then 1
    else if a[0] < b[0] then -1
    else if b[0] < a[0] then 1
    else StrCmp(a[1..], b[1..])
  }

  /** `strcmp` returns 0 exactly on equal strings. */
  lemma {:induction false} StrCmpZeroIffEqual(a: String, b: String)
    ensures StrCmp(a, b) == 0 <==> a == b
    decreases |a|
  {
    if |a| > 0 && |b| > 0 && a[0] == b[0] {
      StrCmpZeroIffEqual(a[1..], b[1..]);
      assert a == [a[0]] + a[1..] && b == [b[0]] + b[1..];
    }
  }

  /** `strcmp(a, b) < 0`: the strict lexicographic order on strings. */
  predicate StrLess(a: String, b: String) {
    StrCmp(a, b) < 0
  }

  /** Swapping the arguments of `strcmp` flips the sign of its result. */
  lemma {:induction false} StrCmpAntisymmetric(a: String, b: String)
    ensures StrCmp(b, a) == -StrCmp(a, b)
    decreases |a|
  {
    if |a| > 0 && |b| > 0 && a[0] == b[0] {
      StrCmpAntisymmetric(a[1..], b[1..]);
    }
  }

  /** A proper prefix compares smaller than the longer string. */
  lemma {:induction false} StrCmpProperPrefix(a: String, b: String)
    requires |a| < |b| && b[..|a|] == a
    ensures StrCmp(a, b) == -1
    decreases |a|
  {
    if |a| > 0 {
      assert a[0] == b[0];
      assert b[1..][..|a| - 1] == a[1..];
      StrCmpProperPrefix(a[1..], b[1..]);
    }
  }

  /**
   * The first differing character decides: when a and b agree on their
   * first k characters and a's next character is smaller, a compares smaller.
   */
  lemma {:induction false} StrCmpFirstDifference(a: String, b: String, k: nat)
    requires k < |a| && k < |b| && a[..k] == b[..k] && a[k] < b[k]
    ensures StrCmp(a, b) == -1
    decreases k
  {
    if k > 0 {
      assert a[0] == b[0];
      assert a[1..][..k - 1] == b[1..][..k - 1];
      StrCmpFirstDifference(a[1..], b[1..], k - 1);
    }
  }

  /** The lexicographic order is transitive. */
  lemma {:induction false} StrLessTransitive(a: String, b: String, c: String)
    requires StrLess(a, b) && StrLess(b, c)
    ensures StrLess(a, c)
    decreases |a|
  {
    if |a| == 0 || |b| == 0 || |c| == 0 {
    } else if a[0] == b[0] && b[0] == c[0] {
      StrLessTransitive(a[1..], b[1..], c[1..]);
    }
  }

  /** x occurs in y starting at position k. */
  predicate OccursAt(x: String, y: String, k: int) {
    0 <= k && k + |x| <= |y| && y[k..k + |x|] == x
  }

  /** x occurs in y as a contiguous block. */
  predicate IsSubstring(x: String, y: String) {
    exists k :: 0 <= k <= |y| && OccursAt(x, y, k)
  }

  lemma SubstringReflexive(x: String)
    ensures IsSubstring(x, x)
  {
    assert OccursAt(x, x, 0);
  }

  /** A substring of a substring is a substring. */
  lemma SubstringTransitive(x: String, y: String, z: String)
    requires IsSubstring(x, y) && IsSubstring(y, z)
    ensures IsSubstring(x, z)
  {
    var k :| 0 <= k <= |y| && OccursAt(x, y, k);
    var l :| 0 <= l <= |z| && OccursAt(y, z, l);
    assert z[l..l + |y|] == y;
    forall t | 0 <= t < |x|
      ensures z[l + k + t] == x[t]
    {
      assert y[k + t] == x[t];
      assert z[l + (k + t)] == y[k + t];
    }
    assert z[l + k..l + k + |x|] == x;
    assert OccursAt(x, z, l + k);
  }

  /** The sum of the lengths of a list of strings. */
  function TotalLength(ws: seq<String>): nat
    decreases |ws|
  {
    if |ws| == 0 then 0 else TotalLength(ws[..|ws| - 1]) + |ws[|ws| - 1]|
  }

  lemma {:induction false} TotalLengthAppend(xs: seq<String>, ys: seq<String>)
    ensures TotalLength(xs + ys) == TotalLength(xs) + TotalLength(ys)
    decreases |ys|
  {
    if |ys| > 0 {
      assert (xs + ys)[..|xs + ys| - 1] == xs + ys[..|ys| - 1];
      TotalLengthAppend(xs, ys[..|ys| - 1]);
    } else {
      assert xs + ys == xs;
    }
  }
}
