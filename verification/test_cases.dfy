/** The best/worst/average-case input generator.  Python's unseeded
    `random.choices` is replaced by its four results, passed in as `Draws`. */
module TestCases {
  import opened Occurrences

  /** The population of every draw. */
  const Letters: seq<char> := "abcdefghijklmnopqrstuvwxyz"

  /** The six strings the generator returns, in its return order. */
  datatype TestCases = TestCases(
    bestPattern: seq<char>, bestText: seq<char>,
    worstPattern: seq<char>, worstText: seq<char>,
    averagePattern: seq<char>, averageText: seq<char>)

  /** The results of the four `random.choices` calls, in call order. */
  datatype Draws = Draws(
    bestFiller: seq<char>, worstText: seq<char>,
    averagePattern: seq<char>, averageText: seq<char>)

  predicate OverLetters(s: seq<char>)
  {
    forall i :: 0 <= i < |s| ==> s[i] in Letters
  }

  /** `d` is a possible result of `random.choices(Letters, k=k)`: `k` symbols of
      `Letters`, and none at all when `k` is not positive. */
  predicate IsDraw(d: seq<char>, k: int)
  {
    |d| == (if k > 0 then k else 0) && OverLetters(d)
  }

  /** The draws a call with these lengths makes. */
  predicate AreDraws(patternLength: nat, textLength: nat, draws: Draws)
  {
    && IsDraw(draws.bestFiller, textLength - patternLength)
    && IsDraw(draws.worstText, textLength)
    && IsDraw(draws.averagePattern, patternLength)
    && IsDraw(draws.averageText, textLength)
  }

  /** Python's `c * n`. */
  function Repeat(c: char, n: nat): (r: seq<char>)
    ensures |r| == n
    ensures forall i :: 0 <= i < n ==> r[i] == c
  {
    if n == 0 then [] else Repeat(c, n - 1) + [c]
  }

  /** Best case: `"a" * L` followed by random filler, so the pattern sits at offset 0.
      Worst case: the same pattern against an all-random text.  Average case: a
      random pattern against a random text. */
  function GenerateTestCases(patternLength: nat, textLength: nat, draws: Draws): (r: TestCases)
    requires AreDraws(patternLength, textLength, draws)
    ensures |r.bestPattern| == patternLength
    ensures forall i :: 0 <= i < patternLength ==> r.bestPattern[i] == 'a'
    ensures |r.bestText| == if patternLength <= textLength then textLength else patternLength
    ensures r.bestText[..patternLength] == r.bestPattern
    ensures r.worstPattern == r.bestPattern
    ensures |r.worstText| == textLength
    ensures |r.averagePattern| == patternLength && |r.averageText| == textLength
    ensures OverLetters(r.bestPattern) && OverLetters(r.bestText)
    ensures OverLetters(r.worstPattern) && OverLetters(r.worstText)
    ensures OverLetters(r.averagePattern) && OverLetters(r.averageText)
  {
    var best := Repeat('a', patternLength);
    assert 'a' == Letters[0];
    TestCases(best, best + draws.bestFiller, best, draws.worstText, draws.averagePattern, draws.averageText)
  }

  /** The best-case pattern occurs at offset 0 of the best-case text, so `Occ`,
      and every engine's result for a non-empty pattern, starts with 0. */
  lemma BestCaseOccursFirst(patternLength: nat, textLength: nat, draws: Draws)
    requires AreDraws(patternLength, textLength, draws)
    ensures var r := GenerateTestCases(patternLength, textLength, draws);
      |Occ(r.bestPattern, r.bestText)| > 0 && Occ(r.bestPattern, r.bestText)[0] == 0
  {
    var r := GenerateTestCases(patternLength, textLength, draws);
    var occ := Occ(r.bestPattern, r.bestText);
    assert IsOccurrence(r.bestPattern, r.bestText, 0);
    assert 0 in occ;
  }
}
