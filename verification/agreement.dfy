/** The four engines side by side: on the same input they return the same list. */
module Agreement {
  import opened Occurrences
  import NaiveMatch
  import RabinKarp
  import Kmp
  import FiniteAutomaton

  /** Runs every engine on one input, as the comparative benchmark does, and
      relates their results. */
  method AllEnginesAgree(pattern: seq<char>, text: seq<char>, alphabet: set<char>, hash: seq<char> -> int)
    returns (naive: seq<nat>, rabinKarp: seq<nat>, kmp: seq<nat>, automaton: FiniteAutomaton.MatchResult)
    requires |pattern| >= 1
    requires forall i :: 0 <= i < |text| ==> text[i] in alphabet
    ensures naive == rabinKarp == kmp
    ensures automaton == FiniteAutomaton.Matched(naive)
  {
    naive := NaiveMatch.NaiveStringMatch(pattern, text);
    rabinKarp := RabinKarp.RabinKarp(pattern, text, hash);
    kmp := Kmp.KnuthMorrisPratt(pattern, text);
    automaton := FiniteAutomaton.FiniteAutomatonMatch(pattern, text, alphabet);
  }

  /** Overlapping occurrences are all reported: "aa" in "aaaa" is at 0, 1 and 2. */
  lemma OverlappingOccurrences()
    ensures Occ("aa", "aaaa") == [0, 1, 2]
  {
    var p, t := "aa", "aaaa";
    assert WindowCount(|p|, |t|) == 3;
    OccBelowExtend(p, t, 0);
    OccBelowExtend(p, t, 1);
    OccBelowExtend(p, t, 2);
  }

  /** A single-symbol pattern: "a" in "banana" is at 1, 3 and 5. */
  lemma SingleSymbolOccurrences()
    ensures Occ("a", "banana") == [1, 3, 5]
  {
    var p, t := "a", "banana";
    assert WindowCount(|p|, |t|) == 6;
    MismatchNotOccurrence(p, t, 0, 0);
    OccBelowSkip(p, t, 0);
    assert t[1..2] == p;
    OccBelowExtend(p, t, 1);
    assert OccBelow(p, t, 2) == [1];
    MismatchNotOccurrence(p, t, 2, 0);
    OccBelowSkip(p, t, 2);
    assert t[3..4] == p;
    OccBelowExtend(p, t, 3);
    assert OccBelow(p, t, 4) == [1, 3];
    MismatchNotOccurrence(p, t, 4, 0);
    OccBelowSkip(p, t, 4);
    assert t[5..6] == p;
    OccBelowExtend(p, t, 5);
  }

  /** No occurrence: "xyz" in "abcabcabc". */
  lemma NoOccurrence()
    ensures Occ("xyz", "abcabcabc") == []
  {
    var p, t := "xyz", "abcabcabc";
    assert WindowCount(|p|, |t|) == 7;
    forall k | 0 <= k < 7
      ensures !IsOccurrence(p, t, k)
    {
      MismatchNotOccurrence(p, t, k, 0);
    }
    OccBelowSkip(p, t, 0);
    OccBelowSkip(p, t, 1);
    OccBelowSkip(p, t, 2);
    OccBelowSkip(p, t, 3);
    OccBelowSkip(p, t, 4);
    OccBelowSkip(p, t, 5);
    OccBelowSkip(p, t, 6);
  }
}
