/** Prefix/suffix vocabulary shared by the KMP and finite-automaton matchers.
    Python strings are modelled as `seq<char>`; `p[..k]` is Python's `p[:k]`. */
module Affixes {

  /** Python's `s.endswith(u)`: `u` is a suffix of `s`. */
  predicate EndsWith(s: seq<char>, u: seq<char>)
  {
    |u| <= |s| && s[|s| - |u|..] == u
  }

  /** `endswith` on the edges: the empty string ends every string, and nothing
      ends a shorter string; in between, `u` ends `s` exactly when every symbol
      of `u` matches the symbol of `s` it is aligned with. */
  lemma EndsWithPositions(s: seq<char>, u: seq<char>)
    ensures EndsWith(s, [])
    ensures |s| < |u| ==> !EndsWith(s, u)
    ensures EndsWith(s, u) <==>
      |u| <= |s| && forall d :: 0 <= d < |u| ==> s[|s| - |u| + d] == u[d]
  {
    if |u| <= |s| && forall d :: 0 <= d < |u| ==> s[|s| - |u| + d] == u[d] {
      assert s[|s| - |u|..] == u;
    }
  }

  /** `k` is the length of the longest prefix of `p`, among those of length at most
      `bound`, that is a suffix of `s`.  With `s == p[..q+1]` and `bound == q` this is
      the KMP prefix function; with `bound == |p|` it is the automaton state after `s`. */
  ghost predicate IsLongestPrefixSuffix(p: seq<char>, s: seq<char>, bound: nat, k: nat)
    requires bound <= |p|
  {
    && k <= bound
    && EndsWith(s, p[..k])
    && forall j {:trigger EndsWith(s, p[..j])} :: k < j <= bound ==> !EndsWith(s, p[..j])
  }

  /** At most one length is the longest. */
  lemma LongestPrefixSuffixUnique(p: seq<char>, s: seq<char>, bound: nat, k1: nat, k2: nat)
    requires bound <= |p|
    requires IsLongestPrefixSuffix(p, s, bound, k1)
    requires IsLongestPrefixSuffix(p, s, bound, k2)
    ensures k1 == k2
  {
  }

  /** A suffix of a suffix is a suffix. */
  lemma EndsWithTrans(s: seq<char>, t: seq<char>, u: seq<char>)
    requires EndsWith(s, t) && EndsWith(t, u)
    ensures EndsWith(s, u)
  {
    assert s[|s| - |u|..] == s[|s| - |t|..][|t| - |u|..];
  }

  /** Of two suffixes of the same sequence, the shorter is a suffix of the longer. */
  lemma EndsWithShorter(s: seq<char>, t: seq<char>, u: seq<char>)
    requires EndsWith(s, t) && EndsWith(s, u) && |u| <= |t|
    ensures EndsWith(t, u)
  {
    assert t[|t| - |u|..] == s[|s| - |t|..][|t| - |u|..];
  }

  /** Appending the same symbol to both sides preserves being a suffix. */
  lemma EndsWithSnoc(s: seq<char>, u: seq<char>, c: char)
    requires EndsWith(s, u)
    ensures EndsWith(s + [c], u + [c])
  {
    assert (s + [c])[|s + [c]| - |u + [c]|..] == s[|s| - |u|..] + [c];
  }

  /** A non-empty suffix of `s + [c]` ends in `c`, and the rest of it is a suffix of `s`. */
  lemma EndsWithSnocInv(s: seq<char>, c: char, u: seq<char>)
    requires |u| >= 1 && EndsWith(s + [c], u)
    ensures u[|u| - 1] == c
    ensures EndsWith(s, u[..|u| - 1])
  {
    assert (s + [c])[|s + [c]| - |u|..] == s[|s| - (|u| - 1)..] + [c];
  }

  /** One mismatching position rules a suffix out. */
  lemma MismatchNotSuffix(s: seq<char>, u: seq<char>, d: nat)
    requires d < |u| <= |s|
    requires s[|s| - |u| + d] != u[d]
    ensures !EndsWith(s, u)
  {
    assert s[|s| - |u|..][d] == s[|s| - |u| + d];
  }

  lemma PrefixSnoc(p: seq<char>, j: nat)
    requires j < |p|
    ensures p[..j + 1] == p[..j] + [p[j]]
  {
  }

  /** Falling back from a matched prefix `p[..q]` to its longest proper border
      `p[..k]` (KMP's `q = pi[q - 1]`) keeps a suffix of `s`, and skips no prefix
      length strictly between `k` and `q` that is a suffix of `s`. */
  lemma FallBack(p: seq<char>, s: seq<char>, q: nat, k: nat)
    requires 1 <= q <= |p|
    requires EndsWith(s, p[..q])
    requires IsLongestPrefixSuffix(p, p[..q], q - 1, k)
    ensures EndsWith(s, p[..k])
    ensures forall j :: k < j < q ==> !EndsWith(s, p[..j])
  {
    EndsWithTrans(s, p[..q], p[..k]);
    forall j | k < j < q
      ensures !EndsWith(s, p[..j])
    {
      if EndsWith(s, p[..j]) {
        EndsWithShorter(s, p[..q], p[..j]);
        assert false;
      }
    }
  }

  /** The step shared by the prefix-function builder and the KMP scan: once the
      fall-back loop stops at `k` (either `k == 0` or `p[k] == c`, and no longer
      candidate below `bound` extends by `c`), the next state is `k + 1` when `p[k]`
      matches `c` and `0` otherwise, and it is the longest one for `s + [c]`. */
  lemma Extend(p: seq<char>, s: seq<char>, c: char, k: nat, bound: nat)
    requires k < bound <= |p|
    requires EndsWith(s, p[..k])
    requires forall j :: k < j < bound && EndsWith(s, p[..j]) ==> p[j] != c
    requires k == 0 || p[k] == c
    ensures IsLongestPrefixSuffix(p, s + [c], bound, if p[k] == c then k + 1 else 0)
  {
    var next := if p[k] == c then k + 1 else 0;
    if p[k] == c {
      PrefixSnoc(p, k);
      EndsWithSnoc(s, p[..k], c);
    }
    forall j | next < j <= bound
      ensures !EndsWith(s + [c], p[..j])
    {
      if EndsWith(s + [c], p[..j]) {
        EndsWithSnocInv(s, c, p[..j]);
        assert false;
      }
    }
  }

  /** The automaton composition step: the longest prefix of `p` ending `s + [c]`
      is the longest prefix of `p` ending `p[..q] + [c]`, where `q` is the longest
      prefix of `p` ending `s`. */
  lemma AutomatonStep(p: seq<char>, s: seq<char>, c: char, q: nat, r: nat)
    requires IsLongestPrefixSuffix(p, s, |p|, q)
    requires IsLongestPrefixSuffix(p, p[..q] + [c], |p|, r)
    ensures IsLongestPrefixSuffix(p, s + [c], |p|, r)
  {
    EndsWithSnoc(s, p[..q], c);
    EndsWithTrans(s + [c], p[..q] + [c], p[..r]);
    forall j | r < j <= |p|
      ensures !EndsWith(s + [c], p[..j])
    {
      if EndsWith(s + [c], p[..j]) {
        EndsWithSnocInv(s, c, p[..j]);
        assert p[..j][..j - 1] == p[..j - 1];
        EndsWithShorter(s, p[..q], p[..j - 1]);
        EndsWithSnoc(p[..q], p[..j - 1], c);
        PrefixSnoc(p, j - 1);
        assert false;
      }
    }
  }
}
