/** The shared contract of every matcher: the list of offsets at which a pattern
    occurs in a text, in increasing order. */
module Occurrences {
  import opened Affixes

  /** `pattern` occurs in `text` at offset `i`: `text[i..i+m) == pattern`. */
  predicate IsOccurrence(pattern: seq<char>, text: seq<char>, i: int)
  {
    0 <= i && i + |pattern| <= |text| && text[i..i + |pattern|] == pattern
  }

  predicate StrictlyIncreasing(s: seq<nat>)
  {
    forall a, b :: 0 <= a < b < |s| ==> s[a] < s[b]
  }

  /** Number of candidate offsets for a pattern of length `m` in a text of length
      `n`, i.e. the length of Python's `range(n - m + 1)`. */
  function WindowCount(m: nat, n: nat): (r: nat)
  {
    if m <= n then n - m + 1 else 0
  }

  /** The occurrences of `pattern` in `text` that start below `k`, in increasing order. */
  function OccBelow(pattern: seq<char>, text: seq<char>, k: nat): (r: seq<nat>)
    ensures StrictlyIncreasing(r)
    ensures forall i {:trigger i in r} :: i in r <==> i < k && IsOccurrence(pattern, text, i)
    ensures forall a :: 0 <= a < |r| ==> r[a] < k
  {
    if k == 0 then []
    else OccBelow(pattern, text, k - 1) + (if IsOccurrence(pattern, text, k - 1) then [k - 1] else [])
  }

  /** Every offset `i` in `[0, n - m]` with `text[i..i+m) == pattern`, in increasing order. */
  function Occ(pattern: seq<char>, text: seq<char>): (r: seq<nat>)
    ensures StrictlyIncreasing(r)
    ensures forall i {:trigger i in r} :: i in r <==> IsOccurrence(pattern, text, i)
    ensures forall i :: i in r ==> i + |pattern| <= |text|
    ensures |pattern| > |text| ==> r == []
  {
    OccBelow(pattern, text, WindowCount(|pattern|, |text|))
  }

  lemma FirstIsMember(s: seq<nat>)
    ensures s != [] ==> s[0] in s
  {
  }

  /** Two strictly increasing lists with the same elements are equal. */
  lemma {:induction false} IncreasingUnique(a: seq<nat>, b: seq<nat>)
    requires StrictlyIncreasing(a) && StrictlyIncreasing(b)
    requires forall x :: x in a <==> x in b
    ensures a == b
    decreases |a|
  {
    if a == [] {
      FirstIsMember(b);
    } else {
      assert a[|a| - 1] in b;
      var la, lb := a[|a| - 1], b[|b| - 1];
      assert lb in a;
      assert la == lb;
      var a', b' := a[..|a| - 1], b[..|b| - 1];
      forall x
        ensures x in a' <==> x in b'
      {
        assert x in a' <==> x in a && x < la;
        assert x in b' <==> x in b && x < lb;
      }
      IncreasingUnique(a', b');
      assert a == a' + [la] && b == b' + [lb];
    }
  }

  /** `Occ` is the only list meeting its contract: any strictly increasing list that
      holds exactly the occurrences is `Occ`. */
  lemma OccUnique(pattern: seq<char>, text: seq<char>, r: seq<nat>)
    requires StrictlyIncreasing(r)
    requires forall i :: i in r <==> IsOccurrence(pattern, text, i)
    ensures r == Occ(pattern, text)
  {
    IncreasingUnique(r, Occ(pattern, text));
  }

  /** An occurrence starting at `i - m` is exactly the pattern ending the prefix `text[..i]`. */
  lemma OccurrenceEndsAt(pattern: seq<char>, text: seq<char>, i: nat)
    requires |pattern| <= i <= |text|
    ensures IsOccurrence(pattern, text, i - |pattern|) <==> EndsWith(text[..i], pattern)
  {
    assert text[..i][i - |pattern|..] == text[i - |pattern|..i];
  }

  /** One mismatching symbol rules an occurrence out. */
  lemma MismatchNotOccurrence(pattern: seq<char>, text: seq<char>, k: nat, d: nat)
    requires k + |pattern| <= |text| && d < |pattern|
    requires text[k + d] != pattern[d]
    ensures !IsOccurrence(pattern, text, k)
  {
    assert text[k..k + |pattern|][d] == text[k + d];
  }

  /** The empty pattern occurs at every offset `0..n`. */
  lemma EmptyPatternOcc(text: seq<char>)
    ensures Occ([], text) == seq(|text| + 1, j => j)
  {
    var all: seq<nat> := seq(|text| + 1, j => j);
    forall i
      ensures i in all <==> IsOccurrence([], text, i)
    {
      if IsOccurrence([], text, i) {
        assert all[i] == i;
      }
    }
    OccUnique([], text, all);
  }

  /** A scan state that is the longest prefix of `pattern` ending `text[..i+1]`
      equals `m` exactly when an occurrence ends at `text[i]`. */
  lemma FullStateIsOccurrence(pattern: seq<char>, text: seq<char>, i: nat, k: nat)
    requires i < |text|
    requires IsLongestPrefixSuffix(pattern, text[..i + 1], |pattern|, k)
    ensures k == |pattern| <==> |pattern| <= i + 1 && IsOccurrence(pattern, text, i + 1 - |pattern|)
  {
    assert pattern[..|pattern|] == pattern;
    if |pattern| <= i + 1 {
      OccurrenceEndsAt(pattern, text, i + 1);
    }
  }

  /** `range(n - m + 1)` is empty exactly when the pattern is longer than the
      text; otherwise its last offset `n - m` is where the last window starts. */
  lemma WindowCountRange(m: nat, n: nat)
    ensures WindowCount(m, n) == 0 <==> n < m
    ensures WindowCount(m, n) > 0 ==> (WindowCount(m, n) - 1) + m == n
  {
  }

  /** An occurrence at `k` is appended after those below `k`. */
  lemma OccBelowExtend(pattern: seq<char>, text: seq<char>, k: nat)
    requires IsOccurrence(pattern, text, k)
    ensures OccBelow(pattern, text, k + 1) == OccBelow(pattern, text, k) + [k]
  {
  }

  /** A non-occurrence at `k` adds nothing. */
  lemma OccBelowSkip(pattern: seq<char>, text: seq<char>, k: nat)
    requires !IsOccurrence(pattern, text, k)
    ensures OccBelow(pattern, text, k + 1) == OccBelow(pattern, text, k)
  {
  }

  /** How the occurrences completed within `text[..i]` grow when one more symbol is
      read: the only new one is the window ending at `text[i]`. */
  lemma OccBelowStep(pattern: seq<char>, text: seq<char>, i: nat)
    requires i < |text|
    ensures OccBelow(pattern, text, WindowCount(|pattern|, i + 1)) ==
      if |pattern| <= i + 1 && IsOccurrence(pattern, text, i + 1 - |pattern|)
      then OccBelow(pattern, text, WindowCount(|pattern|, i)) + [i + 1 - |pattern|]
      else OccBelow(pattern, text, WindowCount(|pattern|, i))
  {
    var m := |pattern|;
    if m <= i + 1 {
      var k: nat := i + 1 - m;
      assert WindowCount(m, i) == k && WindowCount(m, i + 1) == k + 1;
      if IsOccurrence(pattern, text, k) {
        OccBelowExtend(pattern, text, k);
      } else {
        OccBelowSkip(pattern, text, k);
      }
    } else {
      assert WindowCount(m, i) == 0 && WindowCount(m, i + 1) == 0;
    }
  }
}
