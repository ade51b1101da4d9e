# Verified model of a substring-search and binary-search toolkit

This project models the computational core of a small text-search
benchmarking toolkit in Dafny and proves it correct.

- **Exact substring search** (`home_work/task3/search_eq.py`). Three
  first-match algorithms share one contract: given `data` and a pattern,
  answer the leftmost index `i` with `data[i..i + |pattern|] == pattern`,
  or `-1`.
  - Knuth-Morris-Pratt: the LPS table and the two-cursor scan.
  - Boyer-Moore with the Horspool bad-character table.
  - Rabin-Karp: polynomial hash with base 256 and modulus 101, and a
    rolling window hash.
- **Lower-bound binary search** (`home_work/task2/binary_searcher.py`).
  `bi_search` answers the number of probes and the smallest element of an
  ascending list that is at least `x`.

Each algorithm is an imperative Dafny method with the source's loops. The
local list of `compute_lps` becomes a `seq<nat>` and the dict of
`build_shift_table` a `map<char, int>`; the loops reassign them. Every
method is proved against a specification function:

- `SearchSpec.FirstOccurrence` is a plain left-to-right scan.
- `SearchSpec.IsLeftmost` states the contract relationally.
- `Kmp.IsLongestBorder` defines a correct LPS entry.
- `BoyerMoore.ExpectedShift` is built from `RightmostBefore`.
- `RabinKarp.Weighted` is the hash polynomial.
- `BinarySearcher.Probes` and `ProbeTrace` model the bisection.

Each of the three searches ensures `r == FirstOccurrence(data, pat)`.
So the three answer the same on every input with a non-empty pattern,
including a pattern longer than the data.

Modules and files:

- `search_spec.dfy`: module `SearchSpec`, the shared contract.
- `kmp.dfy`: module `Kmp`.
- `boyer_moore.dfy`: module `BoyerMoore`.
- `rabin_karp.dfy`: module `RabinKarp`.
- `binary_searcher.dfy`: module `BinarySearcher`.

Modelling decisions:

- Strings are `seq<char>` and `ord` is the character's code point.
- The sentinel `-1` is kept as in the code. The code returns `-1` for a
  pattern longer than the data and does not raise an error, so the model
  does the same.
- Python's `%` with the positive modulus 101 floors. For a positive
  divisor that equals Dafny's Euclidean `%`. So after the rolling update
  the hash is already in `[0, 101)`, and the `if current_slice_hash < 0`
  branch is proved dead: `assert sliceHash >= 0` stands right before it.
- `bi_search` list elements are exact `real`s, so the example list
  `[1.232, ..., 8.52463452]` is written as it is. `x` is a `real` as well.
  The list is a value (`seq`), so it cannot be modified; the Python
  function only reads it.
- On the example list with `x = 4`, the code probes midpoints 4, 1, 2, 3
  and returns `(4, 4.0)`.

## Model

| member | source | states |
|---|---|---|
| `SearchSpec.FirstOccurrenceFrom` | home_work/task3/search_eq.py:109-112 | Reference scan from start `s`: the result is -1 or an occurrence at or after `s`, and no occurrence lies between `s` and the result |
| `SearchSpec.LeftmostIsUnique` | home_work/task3/search_eq.py:35-122 | A result meets the shared first-match contract exactly when it equals the reference scan, so any two searches that meet it agree |
| `SearchSpec.KmpScenario` | home_work/task3/search_eq.py:35-55 | The leftmost occurrence of "abcabababd" in "ababcabcabababd" is 5 |
| `SearchSpec.BoyerMooreScenario` | home_work/task3/search_eq.py:69-83 | The leftmost occurrence of "example" in "here is a simple example" is 17 |
| `SearchSpec.NotFoundScenario` | home_work/task3/search_eq.py:98-122 | "xyz" does not occur in "hello world", so the answer is -1 |
| `Kmp.LongestBorderAsSlices` | home_work/task3/search_eq.py:15-32 | An LPS entry `k` for `p[..n]` is correct exactly when the prefix and suffix of length `k` are equal slices and no longer proper prefix equals the suffix of its length |
| `Kmp.BorderStep` | home_work/task3/search_eq.py:21-24 | A border of length k of `p[..n+1]` is a border of length k-1 of `p[..n]` extended by `p[n]`, in both directions |
| `Kmp.BorderOfBorder` | home_work/task3/search_eq.py:26-27 | Given a border k of `p[..n]`, the shorter borders of `p[..n]` are exactly the borders of `p[..k]`; this is why falling back to `lps[length-1]` is sound |
| `Kmp.LpsMatchStep` | home_work/task3/search_eq.py:21-24 | When `p[i]` extends the running border, `length+1` is the longest border of `p[..i+1]` and bounds the borders of the next prefix |
| `Kmp.LpsFallbackStep` | home_work/task3/search_eq.py:26-27 | On a mismatch with `length > 0`, `lps[length-1]` is a border of `p[..i]`, and every border of `p[..i+1]` is at most one longer |
| `Kmp.LpsZeroStep` | home_work/task3/search_eq.py:28-30 | On a mismatch with `length == 0`, the longest border of `p[..i+1]` is empty |
| `Kmp.ComputeLps` | home_work/task3/search_eq.py:15-32 | The table has one entry per pattern character, `lps[0] == 0`, and each `lps[q] <= q` is the length of the longest proper prefix of `p[..q+1]` that is also its suffix |
| `Kmp.KmpFallback` | home_work/task3/search_eq.py:47-48 | On a mismatch after `j > 0` matched characters, falling back to `lps[j-1]` skips only start positions where the pattern cannot occur, and the shorter matched prefix still matches |
| `Kmp.KmpSearch` | home_work/task3/search_eq.py:35-55 | For a non-empty pattern, returns the leftmost occurrence or -1, also when the pattern is longer than the data. The loop keeps `j < M` and terminates by the measure (`N - i`, `j`) |
| `BoyerMoore.RightmostBefore` | home_work/task3/search_eq.py:62-63 | The rightmost index below `n` holding `c`, or -1: in range, holds `c`, and `c` is absent after it |
| `BoyerMoore.BuildShiftTable` | home_work/task3/search_eq.py:58-66 | The keys are exactly the pattern's characters and every value is in [1, M]. A character of `p[..M-1]` maps to `M-1-k` for its rightmost position `k` there. The last character maps to `M` only if absent from that prefix |
| `BoyerMoore.TableStep` | home_work/task3/search_eq.py:62-63 | Entering a character overwrites its earlier entry, so after index `n` the table holds exactly the characters of `p[..n+1]`, each mapped to `M-1` minus its rightmost position there |
| `BoyerMoore.TableFinish` | home_work/task3/search_eq.py:62-64 | After the loop, the setdefault of the last character yields a table whose keys are exactly the pattern's characters and whose values are the Horspool shifts, all in [1, M] |
| `BoyerMoore.ShiftFor` | home_work/task3/search_eq.py:82 | The lookup with default `M` is the Horspool shift `ExpectedShift` for a character of the pattern, and `M` for any other |
| `BoyerMoore.ShiftNeverSkipsMatch` | home_work/task3/search_eq.py:82 | The shift for the character under the window's end, with default M, is in [1, M], and that character does not occur at any pattern position the shift passes over |
| `BoyerMoore.ShiftedWindowsMiss` | home_work/task3/search_eq.py:74-82 | No window strictly between `i` and `i + shift` holds an occurrence |
| `BoyerMoore.BoyerMooreSearch` | home_work/task3/search_eq.py:69-83 | For a non-empty pattern, returns the leftmost occurrence or -1. It reads no data when the pattern is longer than the data, and advances at least 1 per window |
| `RabinKarp.Ord` | home_work/task3/search_eq.py:93 | `ord` of a character is its code point, a Unicode scalar value: below 0x110000 and outside the surrogate range |
| `RabinKarp.WeightedAppend` | home_work/task3/search_eq.py:117-118 | Appending a character multiplies the hash polynomial by the base and adds the code point |
| `RabinKarp.HashStep` | home_work/task3/search_eq.py:92-93 | Reducing the partial sum and the power before adding leaves the residue unchanged |
| `RabinKarp.RollStep` | home_work/task3/search_eq.py:115-118 | The two reduced rolling-update steps give the residue of the exact polynomial update |
| `RabinKarp.WeightedSlide` | home_work/task3/search_eq.py:115-118 | The next window's polynomial equals the current one minus the outgoing term `ord(data[i])*b^(M-1)`, times the base, plus the incoming code point |
| `RabinKarp.RollingUpdate` | home_work/task3/search_eq.py:115-118 | From the hash of the window at `i` and `b^(M-1) mod m`, the two reduced update steps give exactly the hash of the window at `i + 1` |
| `RabinKarp.PolynomialHash` | home_work/task3/search_eq.py:86-95 | Returns a value in [0, modulus) equal to (sum of `ord(s[i])*base^(n-i-1)`) mod modulus; 0 for the empty string |
| `RabinKarp.RabinKarpSearch` | home_work/task3/search_eq.py:98-122 | For a non-empty pattern, returns the leftmost occurrence or -1, including `M > N`. The rolling hash equals the window hash at the top of each iteration, and a hash hit is returned only after the window equals the pattern |
| `RabinKarp.CollisionScenario` | home_work/task3/search_eq.py:110-111 | "ab" and "ju" have the same hash (84) under modulus 101, yet "ju" does not occur in "ab" |
| `BinarySearcher.Probes` | home_work/task2/binary_searcher.py:7-16 | The number of loop iterations on [low, high]. It has no contract of its own: `ProbeTrace` ensures it is the number of probed midpoints, `ProbesBound` bounds it, and `BiSearch` ensures `count` equals it |
| `BinarySearcher.ProbeTrace` | home_work/task2/binary_searcher.py:7-16 | The midpoints probed on [low, high]: one per counted iteration, each inside the range |
| `BinarySearcher.ProbesBound` | home_work/task2/binary_searcher.py:7-16 | A non-empty range of `size` elements takes between 1 and floor(log2(size)) + 1 probes |
| `BinarySearcher.ProbeCount` | home_work/task2/binary_searcher.py:2-16 | A whole list takes no probe when empty, otherwise between 1 and floor(log2(len)) + 1 |
| `BinarySearcher.ProbeStep` | home_work/task2/binary_searcher.py:8-16 | One iteration probes a midpoint inside the range and counts once before the probes of the half that is kept |
| `BinarySearcher.LowerBound` | home_work/task2/binary_searcher.py:13-18 | When index `n` separates the elements below `x` from the rest, the answer at `n` is None exactly when all elements are below `x`, and otherwise the smallest list element at least `x` |
| `BinarySearcher.SortedSplit` | home_work/task2/binary_searcher.py:10-16 | In an ascending list, every element up to one below `x` is below `x`, and every element from one at least `x` on is at least `x`; this is why discarding a half is sound |
| `BinarySearcher.BiSearch` | home_work/task2/binary_searcher.py:1-18 | For an ascending list, returns None exactly when every element is below `x`, and otherwise the smallest element that is at least `x`, which is an element of the list. The count is the number of probes: 0 for an empty list, otherwise between 1 and floor(log2(len)) + 1 |
| `BinarySearcher.ExampleTrace` | home_work/task2/binary_searcher.py:22-23 | On the example list with `x = 4` the probed midpoints are 4, 1, 2, 3 |
| `BinarySearcher.ExampleSearch` | home_work/task2/binary_searcher.py:22-23 | The example run answers `(4, 4.0)` |

## Left out

- `read_file`, `run_time_test` and `main` (search_eq.py:4-12, 125-162) are file I/O, `timeit` timing and table printing. They are not modelled.
- The `__main__` print block of binary_searcher.py:21-23 is not modelled. Its list is used as the example.
- Empty patterns: every search requires `|pat| >= 1`, so the empty pattern is not modelled. `kmp_search` reads `substring[0]` as soon as `data` is non-empty, which fails; with empty `data` its loop is not entered and it returns -1. `boyer_moore_search` always fails, because `build_shift_table` reads `substring[-1]`. `rabin_karp_search` would compute `pow(256, -1)`, a float. `ComputeLps` itself has no precondition and returns the empty table, as the code does.
- PolynomialHash: takes `base` as a natural number and requires `modulus >= 1`. With a zero modulus Python raises for a non-empty string, but returns 0 for the empty string because the loop never runs; neither case is modelled. A negative base or modulus is not modelled either. The code only ever passes 256 and 101.
- BiSearch: elements are exact reals or could be integers. Floating-point rounding, NaN and mixed int/float comparison are not modelled. The list must be ascending, as the function assumes.
- Unicode details of `ord`: a character is its code point, with no normalisation or encoding.
- Hash-collision frequency and average running times are performance claims, not properties of single runs, so they are not stated.
