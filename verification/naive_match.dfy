/** The naive scan: try every window and compare it symbol by symbol. */
module NaiveMatch {
  import opened Occurrences

  /** The inner comparison loop for the window at `i`: counts how many leading
      symbols of `pattern` agree with the text, stopping at the first mismatch. */
  method MatchLength(pattern: seq<char>, text: seq<char>, i: nat) returns (j: nat)
    requires i + |pattern| <= |text|
    ensures j <= |pattern|
    ensures text[i..i + j] == pattern[..j]
    ensures j < |pattern| ==> text[i + j] != pattern[j]
    ensures j == |pattern| <==> IsOccurrence(pattern, text, i)
  {
    var m := |pattern|;
    j := 0;
    while j < m && text[i + j] == pattern[j]
      invariant j <= m
      invariant text[i..i + j] == pattern[..j]
    {
      assert text[i..i + j + 1] == text[i..i + j] + [text[i + j]];
      assert pattern[..j + 1] == pattern[..j] + [pattern[j]];
      j := j + 1;
    }
    if j < m {
      assert text[i..i + m][j] != pattern[j];
    }
  }

  /** Every offset at which `pattern` occurs in `text`, in increasing order. */
  method NaiveStringMatch(pattern: seq<char>, text: seq<char>) returns (occurrences: seq<nat>)
    ensures forall i :: i in occurrences <==> IsOccurrence(pattern, text, i)
    ensures StrictlyIncreasing(occurrences)
    ensures occurrences == Occ(pattern, text)
  {
    occurrences := [];
    var m := |pattern|;
    var n := |text|;
    var i: nat := 0;
    while i < n - m + 1
      invariant i <= WindowCount(m, n)
      invariant occurrences == OccBelow(pattern, text, i)
    {
      var j := MatchLength(pattern, text, i);
      if j == m {
        occurrences := occurrences + [i];
      }
      i := i + 1;
    }
  }
}
