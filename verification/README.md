# Exact string matching: four engines, one contract

This project models the string-matching core of a small Python benchmark suite.
The suite compares four textbook single-pattern matchers:

- the naive scan;
- Rabin-Karp, with a hash filter and a re-check;
- Knuth-Morris-Pratt (KMP), with its prefix (failure) function;
- matching with a finite automaton, with a brute-force transition table.

It also models the generator of best-, worst- and average-case inputs.

Python strings are `seq<char>`, and offsets are `nat`. Every engine is proved to
return `Occurrences.Occ(pattern, text)`: the offsets `i` with
`text[i..i+m) == pattern`, in strictly increasing order. The engines therefore
agree with each other (`Agreement.AllEnginesAgree`).

The modules follow the program's pieces:

| file | module | models |
|---|---|---|
| `occurrences.dfy` | `Occurrences` | the shared result contract `Occ` and its one-symbol-at-a-time unfolding |
| `affixes.dfy` | `Affixes` | `endswith`, and "the longest prefix of the pattern that is a suffix of s" |
| `naive_match.dfy` | `NaiveMatch` | `naive_string_match` |
| `rabin_karp.dfy` | `RabinKarp` | `rabin_karp`, for an arbitrary hash function |
| `kmp.dfy` | `Kmp` | `compute_prefix_function`, `knuth_morris_pratt` |
| `finite_automaton.dfy` | `FiniteAutomaton` | `compute_transition_function`, `finite_automaton_match` |
| `test_cases.dfy` | `TestCases` | `generate_test_cases` |
| `agreement.dfy` | `Agreement` | the engines side by side, and worked examples |

One predicate carries the proofs of both KMP and the automaton:
`Affixes.IsLongestPrefixSuffix(p, s, bound, k)`. It says that `p[..k]` is the
longest prefix of `p`, among those of length at most `bound`, that is a suffix
of `s`. It plays three roles:

- the prefix-table entry `pi[q]`, with `s = p[..q+1]` and `bound = q`;
- the KMP scan state, with `s = text[..i]` and `bound = m-1`;
- the automaton state and each transition entry, with `bound = m`.

Four behaviours of the code are easy to miss; the model follows the code:

- **Rabin-Karp hash.** The code hashes every window from scratch with Python's
  `hash`, with no rolling hash. Here `hash` is a parameter of type
  `seq<char> -> int`, and every result holds for every such function.
- **Generator lengths.** When the pattern length exceeds the text length,
  `random.choices` with a non-positive `k` returns an empty list. The best-case
  text is then just the pattern, of length `L`, and nothing fails.
- **Empty pattern.** The engines treat the empty pattern differently:
  - the naive scan and Rabin-Karp report every offset `0..n`;
  - KMP indexes `pattern[0]` and raises `IndexError` on a non-empty text;
  - the automaton never reports offset 0, because it records an offset only
    after reading a symbol. It returns `1..n`, while the occurrences are
    `0..n` (`Occurrences.EmptyPatternOcc`).

  `FiniteAutomatonMatch` states this behaviour. `KnuthMorrisPratt` requires a
  non-empty pattern.
- **Symbol outside the alphabet.** The code's `transition[q][text[i]]` raises
  `KeyError`. Here that becomes the result `KeyError(position, symbol)`, at the
  first position whose symbol is outside the alphabet.

## Model

| member | source | states |
|---|---|---|
| Occurrences.Occ | Naive_String_Match.py:10-15 | the spec list: strictly increasing, holds `i` exactly when `text[i..i+m) == pattern`, every offset is at most `n-m`, and it is empty when `m > n` |
| Occurrences.OccBelow | Benchmarks.py:10-15 | the occurrences starting below `k`, strictly increasing and each below `k` |
| Occurrences.WindowCountRange | Benchmarks.py:10 | `WindowCount(m, n)` is the length of `range(n - m + 1)`: zero exactly when the pattern is longer than the text, and otherwise its last offset `n - m` starts the window that ends the text |
| Occurrences.IncreasingUnique | Naive_String_Match.py:10-15 | two strictly increasing lists with the same elements are equal, so "every occurrence, in increasing order, once each" fixes the output |
| Occurrences.OccUnique | Naive_String_Match.py:10-15 | any strictly increasing list holding exactly the occurrences is `Occ` |
| Occurrences.OccurrenceEndsAt | Benchmarks.py:56-57 | an occurrence at offset `i-m` is the same thing as the pattern ending the prefix `text[..i]`, which is how the single-pass scans record `i-m+1` |
| Occurrences.OccBelowStep | Benchmarks.py:54-57 | reading `text[i]` can complete only the window that ends at `i`, so the occurrences completed so far grow by that offset or not at all |
| Occurrences.FullStateIsOccurrence | Benchmarks.py:56-57 | a scan state that is the longest prefix ending `text[..i+1]` equals `m` exactly when an occurrence ends at `text[i]` |
| Occurrences.EmptyPatternOcc | Naive_String_Match.py:10-15 | the empty pattern occurs at every offset `0..n`, which the naive scan reports and the automaton, missing 0, does not |
| NaiveMatch.MatchLength | Naive_String_Match.py:11-14 | when the inner loop exits, `text[i..i+j) == pattern[..j)` and `j <= m`; `j < m` means the symbol at `j` mismatches; `j == m` exactly when the window is an occurrence |
| NaiveMatch.NaiveStringMatch | Benchmarks.py:6-16 | returns exactly the occurrences, strictly increasing, equal to `Occ` (empty when `m > n`); `Naive_String_Match.py` lines 6-16 hold the same function |
| RabinKarp.RabinKarp | Benchmarks.py:22-31 | for every hash function: no false positive (each hit is re-checked by equality), no miss (equal windows hash equally), result equal to `Occ`; `Rabin-Karp.py` lines 2-11 hold the same function |
| Affixes.EndsWithPositions | Benchmarks.py:43 | `EndsWith` is Python's `str.endswith`: the empty string ends every string, nothing ends a shorter string, and otherwise `u` ends `s` exactly when each symbol of `u` equals the symbol of `s` aligned with it |
| Affixes.FallBack | Knuth-Morris-Pratt.py:21-22 | falling back from a matched prefix `p[..q]` to `p[..pi[q-1]]` keeps a suffix of what was read and skips no longer candidate |
| Affixes.Extend | Knuth-Morris-Pratt.py:23-24 | once the fall-back stops, the new state (`k+1` if `p[k]` matches the symbol, else 0) is the longest prefix that ends the extended text |
| Affixes.AutomatonStep | Benchmarks.py:55 | the longest prefix ending `s + [c]` is the longest prefix ending `p[..q] + [c]`, where `q` is the longest one ending `s`; this is why one table lookup per symbol suffices |
| Kmp.FallBackLoop | Knuth-Morris-Pratt.py:7-8 | the `while k > 0 and pattern[k] != c: k = pi[k-1]` loop terminates at a `k` that is 0 or extended by `c`, and no longer candidate is extended by `c` |
| Kmp.PrefixStep | Knuth-Morris-Pratt.py:7-11 | one builder iteration turns the longest proper border of `p[..q]` into that of `p[..q+1]` |
| Kmp.ComputePrefixFunction | Knuth-Morris-Pratt.py:2-12 | `pi` has length `m`, `pi[0] == 0`, `pi[q] <= q`, and `pi[q]` is the length of the longest proper border of `pattern[..q+1]`; `Benchmarks.py` lines 64-74 hold the same builder |
| Kmp.PrefixTableUnique | Benchmarks.py:64-74 | the border property determines the table, so any two correct tables are equal |
| Kmp.PrefixTableExample | Knuth-Morris-Pratt.py:2-12 | the prefix table of "ababaca" is `[0, 0, 1, 2, 3, 0, 1]` |
| Kmp.KmpStep | Knuth-Morris-Pratt.py:21-27 | one scan iteration reports a match exactly when an occurrence ends at `text[i]`, and it leaves `q < m` as the longest prefix ending `text[..i+1]`; after a full match it falls back to `pi[m-1]` |
| Kmp.Restart | Knuth-Morris-Pratt.py:25-27 | after a full match, falling back to `pi[m-1]` gives the longest prefix of length at most `m-1` ending what was read, so the scan state stays a proper prefix |
| Kmp.KnuthMorrisPratt | Knuth-Morris-Pratt.py:14-28 | for a non-empty pattern, returns exactly the occurrences, overlapping ones included, strictly increasing, equal to `Occ`; `Benchmarks.py` lines 76-90 hold the same scan |
| FiniteAutomaton.LargestSuffixPrefix | Benchmarks.py:42-44 | the decrementing loop stops at the largest `k <= min(m, q+1)` with `p[..k]` a suffix of `p[..q] + [c]` (the `endswith` test, modelled by `Affixes.EndsWith`), which is also the largest such `k` up to `m` |
| FiniteAutomaton.ComputeRow | Benchmarks.py:41-45 | row `q` has an entry for exactly the alphabet symbols, and each entry is the longest prefix ending `p[..q] + [c]`, bounded by `min(m, q+1)` |
| FiniteAutomaton.ComputeTransitionFunction | Benchmarks.py:37-46 | the table has `m+1` rows, every row has an entry for every alphabet symbol, and every entry satisfies the row property |
| FiniteAutomaton.Advance | Benchmarks.py:55-56 | a lookup from the state for `text[..i]` gives the state for `text[..i+1]`, which equals `m` exactly when an occurrence ends at `text[i]` |
| FiniteAutomaton.Transition | Benchmarks.py:54-57 | one scan iteration keeps the state equal to the longest prefix ending what was read, and extends the recorded list exactly as the occurrences completed so far grow (offsets `1..i+1` for the empty pattern) |
| FiniteAutomaton.FiniteAutomatonMatch | Benchmarks.py:48-58 | the result is `Matched` exactly when every text symbol is in the alphabet. It then equals `Occ` for a non-empty pattern, and `1..n` for the empty one. Otherwise it is `KeyError` at the first symbol outside the alphabet, with that symbol |
| TestCases.Repeat | Benchmarks.py:98 | `c * n` has length `n` and holds only `c` |
| TestCases.GenerateTestCases | Benchmarks.py:96-109 | best pattern is `"a" * L`; best text starts with it and has length `T` when `L <= T`, else `L`; worst pattern equals the best one; worst text has length `T`; average pattern and text have lengths `L` and `T`; all six strings are over the 26 lower-case letters; `Naive_String_Match.py` lines 22-35 hold the same generator |
| TestCases.BestCaseOccursFirst | Naive_String_Match.py:23-25 | the best-case pattern occurs at offset 0 of the best-case text, so `Occ` of that pair is non-empty and starts with 0 |
| Agreement.AllEnginesAgree | Benchmarks.py:113-118 | on a non-empty pattern and a text over the alphabet, all four engines the benchmark drives return the same list |
| Agreement.OverlappingOccurrences | Knuth-Morris-Pratt.py:25-27 | falling back after a full match keeps overlapping occurrences: "aa" occurs in "aaaa" at `[0, 1, 2]` |
| Agreement.SingleSymbolOccurrences | Naive_String_Match.py:10-15 | "a" occurs in "banana" at `[1, 3, 5]` |
| Agreement.NoOccurrence | Naive_String_Match.py:10-15 | "xyz" does not occur in "abcabcabc": the result is `[]` |

## Left out

- Timing (`timeit`), the `benchmark_*` wrappers, the `*_benchmarks` drivers, printing and plotting are left out. They are I/O and external libraries with no matching logic.
- Python's unseeded `random.choices` is left out. The generator takes the four draws as a `Draws` value, and `AreDraws` says what `random.choices` can return: `k` letters, or none when `k <= 0`.
- Python's built-in `hash` is left out. It is the parameter `hash`, and no rolling hash is modelled because the code has none.
- Running time and asymptotic complexity are left out. Loop measures appear only where termination needs them.
- Kmp.KnuthMorrisPratt: requires a non-empty pattern. For the empty pattern the code raises `IndexError` on any non-empty text, and this is not modelled.
- Agreement.AllEnginesAgree: requires a non-empty pattern and a text over the alphabet. Outside those, KMP is not modelled and the automaton differs from the other engines, as described above.
- The comment that the worst-case text has no occurrence is left out. The code does not make it true: a random text may contain `"a" * L`.
- The script glue with no algorithmic content is left out:
  - the undefined `input_sizes` at the end of the benchmark file;
  - the stray `ss` in the naive-match script;
  - the missing imports in the KMP and Rabin-Karp scripts.
- The benchmark driver passes `set(average_case_text)` as the alphabet for the best- and worst-case texts. `FiniteAutomatonMatch` models the `KeyError` this can cause, but the driver itself is not modelled.
- Set iteration order when filling a table row is left out. The row is filled by an arbitrary choice of the next symbol, and the table does not depend on the order.
- Negative lengths passed to the generator are left out. They have no meaning there, so the lengths are `nat`.
- `Finite Automata.py` repeats the two automaton functions of the benchmark file line for line. The model cites the benchmark file's copy.
