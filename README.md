# ddmin — delta debugging, modelled in Dafny

This project models `ddmin`, the delta-debugging minimiser of Zeller2001.py.
`ddmin(s, test)` starts from an input `s` that the classifier `test` reports as
`"FAIL"`. It cuts blocks out of the input for as long as the failure persists:

- The candidate is split into blocks of `len(s) / n` elements, where `n` is the
  granularity and starts at 2.
- Each complement is tried from left to right. A complement is the candidate
  with one block cut out.
- The first complement that still fails becomes the new candidate, and `n`
  drops to `max(n - 1, 2)`.
- When no complement fails, `n` becomes `min(n * 2, len(s))`. If `n` already
  equals `len(s)`, the search stops.
- The search also stops once the candidate is shorter than 2.

The classifier is a total, deterministic function parameter
`test: seq<T> -> Outcome`, and the input is a generic `seq<T>`.

Files and modules:

- `subsequences.dfy`, module `Subsequences`: the subsequence relation
  (`IsSubsequence`) and its laws (reflexive, transitive, length bound, cutting
  a middle slice).
- `ddmin.dfy`, module `DeltaDebugging`:
  - `Complement` is the slice expression of line 12.
  - `BlockLength` is `int(len(s) / n)` of line 8. It counts whole blocks by
    repeated subtraction and is proved to be the quotient rounded down.
  - `FirstFailing` is the inner scan as a function. `ScanComplements` is the
    same scan as a loop.
  - `MinimizeFrom` is the whole search as a function of the loop state
    (candidate, granularity).
  - `DDMin` is the outer loop. It is proved to return exactly
    `MinimizeFrom(test, input, 2)`, and its loop invariants carry the source's
    guarantees.
- `scenarios.dfy`, module `Scenarios`: what the result guarantee implies for
  two kinds of classifier. One fails exactly on inputs that contain a fixed
  factor, such as `"ab"` padded with fifty `x`. The other fails on every
  nonempty input.

How the loops are modelled. The outer `while len(s) >= 2` loop (lines 6-25) is
the `while` loop of `DDMin`, with decreases measure `(|s|, |s| - n)`. The inner
`while start < len(s)` loop (lines 11-20) is the `while` loop of
`ScanComplements`. Its `break` at line 18 becomes the method's early `return`,
and the method hands back the flag `some_complement_is_failing` and the
position `start`. `DDMin` calls it once per round. If a complement failed,
`DDMin` adopts it and applies `max(n - 1, 2)` (lines 15-16). Otherwise it
applies the convergence test and the doubling (lines 22-25). The classifier is
called on the same complements, in the same order, as in the source.

Three points where the code is more precise than the usual account of ddmin:

- The code has no guard that raises a block length of 0 to 1. `GranularityFits` proves the guard is never needed, because
  `2 <= n <= len(s)` whenever a round begins.
- `2 <= n <= len(s)` does not hold at all times. Reducing a 2-element candidate leaves `n = 2` with a 1-element candidate, and
  the loop then exits. The invariant is therefore `GranularityOk`:
  `|s| >= 2 ==> 2 <= n <= |s|`.
- The result is 1-minimal whichever way the loop exits. On the exit at line
  24, `n == len(s)`, so every single-element complement was tried. On the exit
  through the loop guard, the candidate has exactly one element, and its only
  complement is the empty input, which passes.

## Model

| member | source | states |
|---|---|---|
| `DeltaDebugging.Complement` | Zeller2001.py:12 | the complement keeps every element before `start` in place, shifts every element after the cut block left by the number cut, and is shorter by exactly the block length (or by what remains of the candidate when the block runs past the end) |
| `DeltaDebugging.ComplementIsSubsequence` | Zeller2001.py:11-12 | a complement at a position inside the candidate is a subsequence of the candidate, and it is strictly shorter when the block length is at least 1 |
| `DeltaDebugging.FirstFailing` | Zeller2001.py:11-20 | the scan either reports no failing complement or reports a block start inside the candidate, at or after where the scan began and reached in steps of the block length, whose complement tests FAIL |
| `DeltaDebugging.FirstFailingSkipsOnlyNonFailing` | Zeller2001.py:11-14 | every block start the scan passes over, which is all of them when none fails, has a complement that does not test FAIL |
| `DeltaDebugging.NextBlockStart` | Zeller2001.py:20 | the block starts reached by `start += subset_length` are exactly one block apart, so the scan skips no block start |
| `DeltaDebugging.BlockLengthIsFloor` | Zeller2001.py:8 | the block length is `len / n` rounded down: that many whole blocks of `n` fit in `len`, and one more does not |
| `DeltaDebugging.BlockLength` | Zeller2001.py:8 | the block length never exceeds the candidate's length, and it is 0 exactly when the candidate is shorter than `n` |
| `DeltaDebugging.ReducedGranularity` | Zeller2001.py:16 | the reduced granularity is `max(n - 1, 2)`: at least 2 and at least `n - 1`, and equal to one of them |
| `DeltaDebugging.RefinedGranularity` | Zeller2001.py:25 | the refined granularity is `min(n * 2, len(s))`: at most `len(s)` and at most `n * 2`, and equal to one of them |
| `DeltaDebugging.GranularityFits` | Zeller2001.py:8 | with `2 <= n <= len`, the block length `subset_length` is at least 1, and cutting one block leaves at least `n - 1` elements |
| `DeltaDebugging.ReductionStep` | Zeller2001.py:14-18 | adopting the first failing complement strictly shortens the candidate, keeps the granularity invariant with `max(n - 1, 2)`, and the search continues from the new state |
| `DeltaDebugging.AdoptComplement` | Zeller2001.py:14-18 | the adopted candidate still fails, is still a subsequence of the original input, fits the reduced granularity and leads to the same final result |
| `DeltaDebugging.RefinementStep` | Zeller2001.py:22-25 | a round without a failing complement at `n < len(s)` strictly increases `n` to `min(n * 2, len(s))`, still within `len(s)` |
| `DeltaDebugging.ConvergedStep` | Zeller2001.py:22-24 | a round without a failing complement at `n == len(s)` ends the search with the current candidate, and that candidate is 1-minimal |
| `DeltaDebugging.ShortFailingIsOneMinimal` | Zeller2001.py:2-6 | when the loop guard fails on a failing candidate and the empty input passes, the candidate has exactly one element and is 1-minimal |
| `DeltaDebugging.MinimizeFrom` | Zeller2001.py:5-27 | the search from any state that satisfies the granularity invariant terminates and returns an input no longer than its candidate |
| `DeltaDebugging.MinimizeFromFails` | Zeller2001.py:14-15 | the result of the search still tests FAIL |
| `DeltaDebugging.MinimizeFromIsSubsequence` | Zeller2001.py:12-15 | the result is a subsequence of the candidate the search started from |
| `DeltaDebugging.MinimizeFromOneMinimal` | Zeller2001.py:22-24 | when the empty input passes and the candidate fails, the result is nonempty and deleting any single element of it gives an input that does not test FAIL |
| `DeltaDebugging.ScanComplements` | Zeller2001.py:11-20 | the scan loop finds a failing complement exactly when `FirstFailing` does, and stops at the same block start |
| `DeltaDebugging.DDMin` | Zeller2001.py:1-27 | under the two precondition asserts, ddmin returns exactly `MinimizeFrom(input, 2)`. The result tests FAIL, is a nonempty subsequence of the input, is no longer than the input, and is 1-minimal |
| `Subsequences.SubsequenceLength` | Zeller2001.py:15 | a subsequence is never longer than the sequence it was taken from |
| `Subsequences.SubsequenceTransitive` | Zeller2001.py:15 | a subsequence of a subsequence of the input is a subsequence of the input |
| `Subsequences.SubsequenceByCut` | Zeller2001.py:12 | cutting a middle slice out of a sequence leaves a subsequence |
| `Scenarios.FactorSurvivesOneDeletion` | Zeller2001.py:12 | an input longer than a factor it contains has a single-element complement that still contains the factor |
| `Scenarios.FactorIsFound` | Zeller2001.py:1-27 | when the classifier fails exactly on inputs that contain a nonempty factor `p`, ddmin on any input containing `p` returns exactly `p` |
| `Scenarios.PaddedAbReducesToAb` | Zeller2001.py:1-27 | with the classifier "fails iff the input contains `ab`", ddmin reduces `"ab"` followed by fifty `x` to `"ab"` |
| `Scenarios.EveryNonEmptyFailingGivesOneElement` | Zeller2001.py:2-6 | when every nonempty input fails, ddmin reduces any nonempty input to a single element |

## Left out

- `fuzzer` (Miller1989.py:3-10) is left out. It draws its length and its characters from `random.randrange`, so it has no deterministic behaviour to state.
- `evaluation` (Miller1989.py:12-28) is left out. It calls the random fuzzer repeatedly and computes a floating-point average.
- `extend_class` (extend_class.py:4-5) is left out. It patches a class at run time with `setattr` and contains no algorithm.
- Exceptions raised by the classifier are left out. The classifier is a total, pure function parameter; in the source any exception it raises would simply propagate out of `ddmin`.
- `DDMin` treats the two `assert`s at Zeller2001.py:2-3 as preconditions. Calling it with `test("")` other than PASS, or with `test(s)` other than FAIL, is a caller error, not a modelled error path.
- `DDMin` models `int(len(s) / n)` as `BlockLength`, the exact quotient rounded down. Float rounding of `len(s) / n`, which only matters for lengths beyond 2^53, is not modelled.
- Classifier labels other than `"PASS"` and `"FAIL"` are folded into `Indeterminate`. Inside the scan (Zeller2001.py:14) the label is only compared with `"FAIL"`, so such a label lets the scan move on as `"PASS"` does. The precondition at line 2 compares with `"PASS"` and is modelled as `test([]) == Pass`.
- No bound on the number of rounds or classifier calls is stated. The model proves termination through the decreases measure `(|s|, |s| - n)`.
