/** String matching with a finite automaton: a brute-force transition table over a
    declared alphabet, then one state-machine pass over the text. */
module FiniteAutomaton {
  import opened Affixes
  import opened Occurrences

  /** One row per state `0..m`; row `q` maps each alphabet symbol to the next state. */
  type TransitionTable = seq<map<char, nat>>

  /** The result of a match: the occurrences, or the `KeyError` Python raises at
      the first text position whose symbol has no entry in the table. */
  datatype MatchResult = Matched(occurrences: seq<nat>) | KeyError(position: nat, symbol: char)

  function Min(a: int, b: int): (r: int)
  {
    if a <= b then a else b
  }

  /** `delta[q][c]` is the length of the longest prefix of `p` that is a suffix of
      `p[..q] + [c]`, for every state `q` in `0..m` and every symbol `c` of `alphabet`. */
  ghost predicate IsTransitionTable(p: seq<char>, alphabet: set<char>, delta: TransitionTable)
  {
    && |delta| == |p| + 1
    && forall q :: 0 <= q <= |p| ==> IsTransitionRow(p, alphabet, q, delta[q])
  }

  /** Row `q` of the table: an entry for every alphabet symbol `c`, holding the longest
      prefix of `p` that ends `p[..q] + [c]`, which is at most `min(m, q + 1)`. */
  ghost predicate IsTransitionRow(p: seq<char>, alphabet: set<char>, q: nat, row: map<char, nat>)
  {
    && q <= |p|
    && row.Keys == alphabet
    && forall c :: c in row ==> row[c] <= Min(|p|, q + 1) && IsLongestPrefixSuffix(p, p[..q] + [c], |p|, row[c])
  }

  /** `transition[q][c]`: start at `k = min(m, q + 1)` and decrement until
      `p[..k]` is a suffix of `p[..q] + [c]`; `k = 0` always is, so the loop stops. */
  method LargestSuffixPrefix(p: seq<char>, q: nat, c: char) returns (k: nat)
    requires q <= |p|
    ensures k <= Min(|p|, q + 1)
    ensures IsLongestPrefixSuffix(p, p[..q] + [c], |p|, k)
  {
    var m := |p|;
    k := Min(m, q + 1);
    while !EndsWith(p[..q] + [c], p[..k])
      invariant k <= Min(m, q + 1)
      invariant forall j :: k < j <= m ==> !EndsWith(p[..q] + [c], p[..j])
      decreases k
    {
      k := k - 1;
    }
  }

  /** Fills row `q` of the table: one entry per alphabet symbol. */
  method ComputeRow(p: seq<char>, alphabet: set<char>, q: nat) returns (row: map<char, nat>)
    requires q <= |p|
    ensures IsTransitionRow(p, alphabet, q, row)
  {
    row := map c | c in alphabet :: 0;
    var rest := alphabet;
    while rest != {}
      invariant rest <= alphabet && row.Keys == alphabet
      invariant forall c :: c in row && c !in rest ==>
        row[c] <= Min(|p|, q + 1) && IsLongestPrefixSuffix(p, p[..q] + [c], |p|, row[c])
      decreases |rest|
    {
      var c :| c in rest;
      var k := LargestSuffixPrefix(p, q, c);
      row := row[c := k];
      rest := rest - {c};
    }
  }

  /** Builds the whole table: a row for every state `0..m` and an entry for every
      alphabet symbol in each row. */
  method ComputeTransitionFunction(pattern: seq<char>, alphabet: set<char>) returns (delta: TransitionTable)
    ensures IsTransitionTable(pattern, alphabet, delta)
  {
    var m := |pattern|;
    delta := [];
    var q: nat := 0;
    while q < m + 1
      invariant q <= m + 1 && |delta| == q
      invariant forall r :: 0 <= r < q ==> IsTransitionRow(pattern, alphabet, r, delta[r])
    {
      var row := ComputeRow(pattern, alphabet, q);
      ghost var previous := delta;
      delta := delta + [row];
      forall r | 0 <= r <= q
        ensures IsTransitionRow(pattern, alphabet, r, delta[r])
      {
        if r < q {
          assert delta[r] == previous[r];
        }
      }
      q := q + 1;
    }
  }

  /** One transition of the automaton: if `q` is the longest prefix of the pattern
      ending `text[..i]`, then `delta[q][text[i]]` is the longest one ending
      `text[..i+1]`, and it is `m` exactly when an occurrence ends at `text[i]`. */
  lemma Advance(pattern: seq<char>, alphabet: set<char>, delta: TransitionTable, text: seq<char>, i: nat, q: nat)
    requires i < |text| && text[i] in alphabet
    requires IsTransitionTable(pattern, alphabet, delta)
    requires IsLongestPrefixSuffix(pattern, text[..i], |pattern|, q)
    ensures text[i] in delta[q]
    ensures IsLongestPrefixSuffix(pattern, text[..i + 1], |pattern|, delta[q][text[i]])
    ensures delta[q][text[i]] == |pattern| <==> |pattern| <= i + 1 && IsOccurrence(pattern, text, i + 1 - |pattern|)
  {
    assert IsTransitionRow(pattern, alphabet, q, delta[q]);
    AutomatonStep(pattern, text[..i], text[i], q, delta[q][text[i]]);
    assert text[..i] + [text[i]] == text[..i + 1];
    FullStateIsOccurrence(pattern, text, i, delta[q][text[i]]);
  }

  /** What the scan has recorded after reading `text[..i]`: the occurrences that
      end there for a non-empty pattern, and offsets `1..i` for the empty one. */
  function Reported(pattern: seq<char>, text: seq<char>, i: nat): (r: seq<nat>)
  {
    if |pattern| >= 1 then OccBelow(pattern, text, WindowCount(|pattern|, i))
    else seq(i, j => j + 1)
  }

  /** One iteration of the scan: look up `delta[q][text[i]]`, and record
      `i - m + 1` when the new state is `m`. */
  method Transition(pattern: seq<char>, alphabet: set<char>, delta: TransitionTable, text: seq<char>,
                    i: nat, q: nat, occurrences: seq<nat>)
    returns (next: nat, recorded: seq<nat>)
    requires i < |text| && text[i] in alphabet
    requires IsTransitionTable(pattern, alphabet, delta)
    requires IsLongestPrefixSuffix(pattern, text[..i], |pattern|, q)
    requires occurrences == Reported(pattern, text, i)
    ensures IsLongestPrefixSuffix(pattern, text[..i + 1], |pattern|, next)
    ensures recorded == Reported(pattern, text, i + 1)
  {
    var m := |pattern|;
    Advance(pattern, alphabet, delta, text, i, q);
    next := delta[q][text[i]];
    recorded := occurrences;
    if m >= 1 {
      OccBelowStep(pattern, text, i);
    } else {
      assert seq(i, j => j + 1) + [i + 1] == seq(i + 1, j => j + 1);
    }
    if next == m {
      recorded := recorded + [i + 1 - m];
    }
  }

  /** Runs the automaton over `text`: every occurrence of a non-empty `pattern`, in
      increasing order, or a `KeyError` at the first symbol outside `alphabet`.  An
      offset is recorded only after a symbol is read, so for the empty pattern it
      reports `1..n` and misses the occurrence at offset 0 (see `EmptyPatternOcc`). */
  method FiniteAutomatonMatch(pattern: seq<char>, text: seq<char>, alphabet: set<char>)
    returns (r: MatchResult)
    ensures r.Matched? <==> forall i :: 0 <= i < |text| ==> text[i] in alphabet
    ensures r.Matched? && |pattern| >= 1 ==> r.occurrences == Occ(pattern, text)
    ensures r.Matched? && |pattern| == 0 ==> r.occurrences == seq(|text|, j => j + 1)
    ensures r.KeyError? ==>
      && r.position < |text|
      && r.symbol == text[r.position]
      && r.symbol !in alphabet
      && forall i :: 0 <= i < r.position ==> text[i] in alphabet
  {
    var n := |text|;
    var m := |pattern|;
    var delta := ComputeTransitionFunction(pattern, alphabet);
    var occurrences: seq<nat> := [];
    var q: nat := 0;
    var i: nat := 0;
    while i < n
      invariant i <= n
      invariant forall j :: 0 <= j < i ==> text[j] in alphabet
      invariant IsLongestPrefixSuffix(pattern, text[..i], m, q)
      invariant occurrences == Reported(pattern, text, i)
    {
      if text[i] !in delta[q] {
        assert IsTransitionRow(pattern, alphabet, q, delta[q]);
        return KeyError(i, text[i]);
      }
      q, occurrences := Transition(pattern, alphabet, delta, text, i, q, occurrences);
      i := i + 1;
    }
    return Matched(occurrences);
  }
}
