/** Rabin-Karp as written: a hash filter in front of a full window comparison.
    The hash is Python's built-in whole-string `hash`, modelled as an arbitrary
    function, so every property below holds for every hash function. */
module RabinKarp {
  import opened Occurrences

  /** Every offset at which `pattern` occurs in `text`, in increasing order,
      whatever `hash` is. */
  method RabinKarp(pattern: seq<char>, text: seq<char>, hash: seq<char> -> int)
    returns (occurrences: seq<nat>)
    ensures forall i :: i in occurrences <==> IsOccurrence(pattern, text, i)
    ensures StrictlyIncreasing(occurrences)
    ensures occurrences == Occ(pattern, text)
  {
    occurrences := [];
    var m := |pattern|;
    var n := |text|;
    var patternHash := hash(pattern);
    var i: nat := 0;
    while i < n - m + 1
      invariant i <= WindowCount(m, n)
      invariant occurrences == OccBelow(pattern, text, i)
    {
      if hash(text[i..i + m]) == patternHash {
        if text[i..i + m] == pattern {
          occurrences := occurrences + [i];
        }
      }
      i := i + 1;
    }
  }
}
