/** Knuth-Morris-Pratt: the prefix (failure) function and the single-pass scan
    that falls back through it. */
module Kmp {
  import opened Affixes
  import opened Occurrences

  /** `pi` is the prefix table of `p`: for each `q`, `pi[q]` is the length of the
      longest proper prefix of `p[..q+1]` that is also a suffix of it. */
  ghost predicate IsPrefixTable(p: seq<char>, pi: seq<nat>)
  {
    && |pi| == |p|
    && forall q :: 0 <= q < |p| ==> IsPrefixEntry(p, pi, q)
  }

  /** `pi[q]` is the length of the longest proper prefix of `p[..q+1]` that is also a suffix of it. */
  ghost predicate IsPrefixEntry(p: seq<char>, pi: seq<nat>, q: nat)
  {
    q < |p| && q < |pi| && IsLongestPrefixSuffix(p, p[..q + 1], q, pi[q])
  }

  /** The fall-back loop shared by the builder and the scan: starting from the
      longest prefix `p[..q0]` (shorter than `bound`) that ends `s`, it follows
      `q = pi[q - 1]` while `p[q]` differs from the next symbol `c`.  It stops at a
      `q` that `c` extends (or at 0), and no longer candidate is extended by `c`. */
  method FallBackLoop(p: seq<char>, pi: seq<nat>, s: seq<char>, c: char, q0: nat, bound: nat)
    returns (q: nat)
    requires q0 < bound <= |p| && q0 <= |pi|
    requires forall r :: 0 <= r < q0 ==> IsPrefixEntry(p, pi, r)
    requires IsLongestPrefixSuffix(p, s, bound - 1, q0)
    ensures q <= q0
    ensures EndsWith(s, p[..q])
    ensures forall j :: q < j < bound && EndsWith(s, p[..j]) ==> p[j] != c
    ensures q == 0 || p[q] == c
  {
    q := q0;
    while q > 0 && p[q] != c
      invariant q <= q0
      invariant EndsWith(s, p[..q])
      invariant forall j :: q < j < bound && EndsWith(s, p[..j]) ==> p[j] != c
      decreases q
    {
      assert IsPrefixEntry(p, pi, q - 1) && p[..q - 1 + 1] == p[..q];
      FallBack(p, s, q, pi[q - 1]);
      q := pi[q - 1];
    }
  }

  /** One step of the builder: from the longest proper border `k0` of `p[..q]`,
      compute the longest proper border of `p[..q+1]`. */
  method PrefixStep(p: seq<char>, pi: seq<nat>, q: nat, k0: nat) returns (k: nat)
    requires 1 <= q < |p| && q <= |pi|
    requires forall r :: 0 <= r < q ==> IsPrefixEntry(p, pi, r)
    requires IsLongestPrefixSuffix(p, p[..q], q - 1, k0)
    ensures IsLongestPrefixSuffix(p, p[..q + 1], q, k)
  {
    k := FallBackLoop(p, pi, p[..q], p[q], k0, q);
    Extend(p, p[..q], p[q], k, q);
    assert p[..q] + [p[q]] == p[..q + 1];
    if p[k] == p[q] {
      k := k + 1;
    }
  }

  /** Builds the prefix table, keeping a candidate border length `k` and falling
      back along `pi` while the next symbol does not extend it. */
  method ComputePrefixFunction(pattern: seq<char>) returns (pi: seq<nat>)
    ensures IsPrefixTable(pattern, pi)
    ensures |pi| > 0 ==> pi[0] == 0
    ensures forall q :: 0 <= q < |pi| ==> pi[q] <= q
  {
    var m := |pattern|;
    pi := seq(m, _ => 0);
    var k: nat := 0;
    var q: nat := 1;
    while q < m
      invariant 1 <= q && |pi| == m
      invariant m > 0 ==> q <= m && k == pi[q - 1]
      invariant forall r :: 0 <= r < q && r < m ==> IsPrefixEntry(pattern, pi, r)
    {
      assert IsPrefixEntry(pattern, pi, q - 1) && pattern[..q - 1 + 1] == pattern[..q];
      k := PrefixStep(pattern, pi, q, k);
      ghost var old_pi := pi;
      pi := pi[q := k];
      forall r | 0 <= r <= q
        ensures IsPrefixEntry(pattern, pi, r)
      {
        if r < q {
          assert IsPrefixEntry(pattern, old_pi, r);
        }
      }
      q := q + 1;
    }
    if m > 0 {
      assert IsPrefixEntry(pattern, pi, 0);
    }
    forall r | 0 <= r < m
      ensures pi[r] <= r
    {
      assert IsPrefixEntry(pattern, pi, r);
    }
  }

  /** After a full match KMP falls back to `pi[m - 1]`, so the scan state is
      always a proper prefix: the longest prefix of length at most `m - 1` that
      ends what was read. */
  lemma Restart(p: seq<char>, pi: seq<nat>, s: seq<char>, k: nat)
    requires |p| >= 1 && IsPrefixTable(p, pi)
    requires IsLongestPrefixSuffix(p, s, |p|, k)
    ensures IsLongestPrefixSuffix(p, s, |p| - 1, if k == |p| then pi[k - 1] else k)
  {
    var m := |p|;
    if k == m {
      assert IsPrefixEntry(p, pi, m - 1) && p[..m - 1 + 1] == p;
      FallBack(p, s, m, pi[m - 1]);
    }
  }

  /** One step of the scan: from the longest partial match `q0` (shorter than the
      pattern) ending `text[..i]`, read `text[i]`; report whether an occurrence ends
      at `text[i]`, and return the longest partial match ending `text[..i+1]`. */
  method KmpStep(pattern: seq<char>, pi: seq<nat>, text: seq<char>, i: nat, q0: nat)
    returns (q: nat, matched: bool)
    requires |pattern| >= 1 && i < |text|
    requires IsPrefixTable(pattern, pi)
    requires IsLongestPrefixSuffix(pattern, text[..i], |pattern| - 1, q0)
    ensures matched <==> |pattern| <= i + 1 && IsOccurrence(pattern, text, i + 1 - |pattern|)
    ensures IsLongestPrefixSuffix(pattern, text[..i + 1], |pattern| - 1, q)
  {
    var m := |pattern|;
    var s := text[..i];
    var c := text[i];
    assert s + [c] == text[..i + 1];
    q := FallBackLoop(pattern, pi, s, c, q0, m);
    Extend(pattern, s, c, q, m);
    if pattern[q] == c {
      q := q + 1;
    }
    FullStateIsOccurrence(pattern, text, i, q);
    Restart(pattern, pi, text[..i + 1], q);
    matched := q == m;
    if q == m {
      q := pi[q - 1];
    }
  }

  /** Every offset at which a non-empty `pattern` occurs in `text`, in increasing
      order, overlapping occurrences included. */
  method KnuthMorrisPratt(pattern: seq<char>, text: seq<char>) returns (occurrences: seq<nat>)
    requires |pattern| >= 1
    ensures forall i :: i in occurrences <==> IsOccurrence(pattern, text, i)
    ensures StrictlyIncreasing(occurrences)
    ensures occurrences == Occ(pattern, text)
  {
    occurrences := [];
    var n := |text|;
    var m := |pattern|;
    var pi := ComputePrefixFunction(pattern);
    var q: nat := 0;
    var i: nat := 0;
    while i < n
      invariant i <= n
      invariant IsLongestPrefixSuffix(pattern, text[..i], m - 1, q)
      invariant occurrences == OccBelow(pattern, text, WindowCount(m, i))
    {
      var matched;
      q, matched := KmpStep(pattern, pi, text, i, q);
      OccBelowStep(pattern, text, i);
      if matched {
        occurrences := occurrences + [i - m + 1];
      }
      i := i + 1;
    }
  }

  /** The prefix table of a pattern is unique: `IsPrefixTable` determines it. */
  lemma PrefixTableUnique(p: seq<char>, pi1: seq<nat>, pi2: seq<nat>)
    requires IsPrefixTable(p, pi1) && IsPrefixTable(p, pi2)
    ensures pi1 == pi2
  {
    forall q | 0 <= q < |p|
      ensures pi1[q] == pi2[q]
    {
      assert IsPrefixEntry(p, pi1, q) && IsPrefixEntry(p, pi2, q);
      LongestPrefixSuffixUnique(p, p[..q + 1], q, pi1[q], pi2[q]);
    }
  }

  /** The prefix table of "ababaca" is [0, 0, 1, 2, 3, 0, 1]: every table meeting
      `IsPrefixTable`, in particular the one `ComputePrefixFunction` returns, is it. */
  lemma PrefixTableExample(pi: seq<nat>)
    requires IsPrefixTable("ababaca", pi)
    ensures pi == [0, 0, 1, 2, 3, 0, 1]
  {
    var p := "ababaca";
    assert IsLongestPrefixSuffix(p, p[..1], 0, 0) by {
      assert p[..1][1..] == p[..0];
    }
    assert IsPrefixEntry(p, pi, 0);
    LongestPrefixSuffixUnique(p, p[..1], 0, pi[0], 0);
    assert IsLongestPrefixSuffix(p, p[..2], 1, 0) by {
      assert p[..2][2..] == p[..0];
      forall j | 0 < j <= 1
        ensures !EndsWith(p[..2], p[..j])
      {
        MismatchNotSuffix(p[..2], p[..j], 0);
      }
    }
    assert IsPrefixEntry(p, pi, 1);
    LongestPrefixSuffixUnique(p, p[..2], 1, pi[1], 0);
    assert IsLongestPrefixSuffix(p, p[..3], 2, 1) by {
      assert p[..3][2..] == p[..1];
      forall j | 1 < j <= 2
        ensures !EndsWith(p[..3], p[..j])
      {
        MismatchNotSuffix(p[..3], p[..j], 0);
      }
    }
    assert IsPrefixEntry(p, pi, 2);
    LongestPrefixSuffixUnique(p, p[..3], 2, pi[2], 1);
    assert IsLongestPrefixSuffix(p, p[..4], 3, 2) by {
      assert p[..4][2..] == p[..2];
      forall j | 2 < j <= 3
        ensures !EndsWith(p[..4], p[..j])
      {
        MismatchNotSuffix(p[..4], p[..j], 0);
      }
    }
    assert IsPrefixEntry(p, pi, 3);
    LongestPrefixSuffixUnique(p, p[..4], 3, pi[3], 2);
    assert IsLongestPrefixSuffix(p, p[..5], 4, 3) by {
      assert p[..5][2..] == p[..3];
      forall j | 3 < j <= 4
        ensures !EndsWith(p[..5], p[..j])
      {
        MismatchNotSuffix(p[..5], p[..j], 0);
      }
    }
    assert IsPrefixEntry(p, pi, 4);
    LongestPrefixSuffixUnique(p, p[..5], 4, pi[4], 3);
    assert IsLongestPrefixSuffix(p, p[..6], 5, 0) by {
      assert p[..6][6..] == p[..0];
      forall j | 0 < j <= 5
        ensures !EndsWith(p[..6], p[..j])
      {
        if j == 1 {
          MismatchNotSuffix(p[..6], p[..j], 0);
        } else if j == 2 {
          MismatchNotSuffix(p[..6], p[..j], 1);
        } else if j == 3 {
          MismatchNotSuffix(p[..6], p[..j], 0);
        } else if j == 4 {
          MismatchNotSuffix(p[..6], p[..j], 3);
        } else {
          MismatchNotSuffix(p[..6], p[..j], 0);
        }
      }
    }
    assert IsPrefixEntry(p, pi, 5);
    LongestPrefixSuffixUnique(p, p[..6], 5, pi[5], 0);
    assert IsLongestPrefixSuffix(p, p[..7], 6, 1) by {
      assert p[..7][6..] == p[..1];
      forall j | 1 < j <= 6
        ensures !EndsWith(p[..7], p[..j])
      {
        if j == 2 {
          MismatchNotSuffix(p[..7], p[..j], 0);
        } else if j == 3 {
          MismatchNotSuffix(p[..7], p[..j], 1);
        } else if j == 4 {
          MismatchNotSuffix(p[..7], p[..j], 0);
        } else if j == 5 {
          MismatchNotSuffix(p[..7], p[..j], 3);
        } else {
          MismatchNotSuffix(p[..7], p[..j], 0);
        }
      }
    }
    assert IsPrefixEntry(p, pi, 6);
    LongestPrefixSuffixUnique(p, p[..7], 6, pi[6], 1);
  }
}
