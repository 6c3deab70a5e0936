/**
 * Delta debugging (ddmin): given an input on which a classifier reports a
 * failure, repeatedly cut blocks out of it while the failure persists.
 *
 * The candidate is split into blocks of `|s| / n` elements; each complement
 * (the candidate with one block cut out) is tried from left to right. The
 * first complement that still fails becomes the candidate and the granularity
 * `n` drops by one (not below 2); when none fails, `n` doubles (capped at
 * `|s|`), and once `n == |s|` with no failing complement the search stops.
 *
 * `MinimizeFrom` is the search as a function of the state (candidate,
 * granularity); `DDMin` is the loop as the source writes it, proved to compute
 * `MinimizeFrom(test, input, 2)`.
 */
module DeltaDebugging {
  import opened Subsequences

  /**
   * What the classifier says of an input. Inside the scan the label is only
   * compared with "FAIL", so every label other than FAIL (here `Pass` and
   * `Indeterminate`) lets the scan move on; the precondition on the empty
   * input asks for `Pass`.
   */
  datatype Outcome = Pass | Fail | Indeterminate

  datatype Option<T> = None | Some(value: T)

  /**
   * The candidate with the block `[start, start + len)` cut out; a block
   * running past the end is cut only up to the end, as Python slicing does.
   * Elements before the block keep their places and those after it move left
   * by the number of elements cut.
   */
  function Complement<T>(s: seq<T>, start: nat, len: nat): (r: seq<T>)
    requires start < |s|
    ensures var cut := if start + len <= |s| then len else |s| - start;
      |r| == |s| - cut &&
      (forall i :: 0 <= i < start ==> r[i] == s[i]) &&
      (forall i :: start <= i < |r| ==> r[i] == s[i + cut])
  {
    s[..start] + s[(if start + len <= |s| then start + len else |s|)..]
  }

  /** A complement is obtained by deleting elements, and a nonempty cut shortens. */
  lemma ComplementIsSubsequence<T>(s: seq<T>, start: nat, len: nat)
    requires start < |s|
    ensures IsSubsequence(Complement(s, start, len), s)
    ensures len >= 1 ==> |Complement(s, start, len)| < |s|
  {
    var stop := if start + len <= |s| then start + len else |s|;
    SubsequenceByCut(s[..start], s[start..stop], s[stop..]);
    assert s[..start] + s[start..stop] + s[stop..] == s;
  }

  /**
   * The scan positions: those reached from 0 by steps of the block length `k`,
   * as `start += subset_length` does.
   */
  predicate IsBlockStart(j: nat, k: nat)
    decreases j
  {
    k >= 1 && (j == 0 || (j >= k && IsBlockStart(j - k, k)))
  }

  /** The next block start after a block start is one block further on. */
  lemma {:induction false} NextBlockStart(start: nat, k: nat, j: nat)
    requires IsBlockStart(start, k) && IsBlockStart(j, k) && start < j
    ensures IsBlockStart(start + k, k) && start + k <= j
    decreases j
  {
    assert (start + k) - k == start;
    if start > 0 {
      NextBlockStart(start - k, k, j - k);
    }
  }

  /** With blocks of one element, every position is scanned. */
  lemma {:induction false} EveryPositionStartsABlock(j: nat)
    ensures IsBlockStart(j, 1)
  {
    if j > 0 {
      EveryPositionStartsABlock(j - 1);
    }
  }

  /**
   * The inner scan of one round: the first block start at or after `start`
   * whose complement tests FAIL, or `None` when no remaining complement does.
   */
  function FirstFailing<T>(test: seq<T> -> Outcome, s: seq<T>, k: nat, start: nat): (r: Option<nat>)
    requires k >= 1 && IsBlockStart(start, k)
    ensures r.Some? ==>
      start <= r.value < |s| && IsBlockStart(r.value, k) &&
      test(Complement(s, r.value, k)) == Fail
    decreases |s| - start
  {
    if start >= |s| then None
    else if test(Complement(s, start, k)) == Fail then Some(start)
    else
      assert (start + k) - k == start;
      FirstFailing(test, s, k, start + k)
  }

  /**
   * The scan passes over a block start only when its complement does not test
   * FAIL: every block start before the one found (or every block start at all,
   * when none is found) has a complement that does not fail.
   */
  lemma {:induction false} FirstFailingSkipsOnlyNonFailing<T>(
    test: seq<T> -> Outcome, s: seq<T>, k: nat, start: nat, j: nat)
    requires k >= 1 && IsBlockStart(start, k) && IsBlockStart(j, k) && start <= j < |s|
    requires FirstFailing(test, s, k, start).None? || j < FirstFailing(test, s, k, start).value
    ensures test(Complement(s, j, k)) != Fail
    decreases |s| - start
  {
    if j != start {
      NextBlockStart(start, k, j);
      FirstFailingSkipsOnlyNonFailing(test, s, k, start + k, j);
    }
  }

  /** The granularity invariant: whenever the outer loop body runs, `2 <= n <= |s|`. */
  predicate GranularityOk<T>(s: seq<T>, n: nat)
  {
    |s| >= 2 ==> 2 <= n <= |s|
  }

  /**
   * `int(len / n)`: the number of whole blocks of `n` elements in `len`,
   * counted by repeated subtraction.
   */
  function BlockLength(len: nat, n: nat): (q: nat)
    requires n >= 1
    ensures q <= len
    ensures q == 0 <==> len < n
    decreases len
  {
    if len < n then 0 else 1 + BlockLength(len - n, n)
  }

  /** `BlockLength(len, n)` is the quotient of `len / n` rounded down. */
  lemma {:induction false} BlockLengthIsFloor(len: nat, n: nat)
    requires n >= 1
    ensures BlockLength(len, n) * n <= len < (BlockLength(len, n) + 1) * n
    decreases len
  {
    var q := BlockLength(len, n);
    if len >= n {
      BlockLengthIsFloor(len - n, n);
      assert q * n == BlockLength(len - n, n) * n + n;
      assert (q + 1) * n == (BlockLength(len - n, n) + 1) * n + n;
    }
  }

  /**
   * With `2 <= n <= len`, a block holds at least one element, and cutting one
   * block leaves at least `n - 1` elements, so the reduced granularity still
   * fits the reduced candidate.
   */
  lemma {:induction false} GranularityFits(len: nat, n: nat)
    requires 2 <= n <= len
    ensures 1 <= BlockLength(len, n)
    ensures n - 1 <= len - BlockLength(len, n)
    decreases len
  {
    if len - n >= n {
      GranularityFits(len - n, n);
    }
  }

  /** The granularity after a reduction: `max(n - 1, 2)`. */
  function ReducedGranularity(n: nat): (r: nat)
    ensures r >= 2 && r >= n - 1
    ensures r == 2 || r == n - 1
  {
    if n - 1 > 2 then n - 1 else 2
  }

  /** The granularity after a round without reduction: `min(n * 2, len)`. */
  function RefinedGranularity(n: nat, len: nat): (r: nat)
    ensures r <= len && r <= n * 2
    ensures r == len || r == n * 2
  {
    if n * 2 < len then n * 2 else len
  }

  /**
   * The result ddmin returns when its outer loop is entered with candidate
   * `s` and granularity `n`.
   */
  function MinimizeFrom<T>(test: seq<T> -> Outcome, s: seq<T>, n: nat): (r: seq<T>)
    requires GranularityOk(s, n)
    ensures |r| <= |s|
    decreases |s|, |s| - n
  {
    if |s| < 2 then s
    else
      var k := BlockLength(|s|, n);
      GranularityFits(|s|, n);
      match FirstFailing(test, s, k, 0)
      case Some(start) =>
        MinimizeFrom(test, Complement(s, start, k), ReducedGranularity(n))
      case None =>
        if n == |s| then s
        else MinimizeFrom(test, s, RefinedGranularity(n, |s|))
  }

  /**
   * A round that finds a failing complement adopts it: the candidate becomes
   * strictly shorter, the reduced granularity fits it, and the search goes on
   * from there.
   */
  lemma ReductionStep<T>(test: seq<T> -> Outcome, s: seq<T>, n: nat, k: nat, start: nat)
    requires 2 <= n <= |s| && k == BlockLength(|s|, n) && k >= 1
    requires FirstFailing(test, s, k, 0) == Some(start)
    ensures |Complement(s, start, k)| < |s|
    ensures GranularityOk(Complement(s, start, k), ReducedGranularity(n))
    ensures MinimizeFrom(test, s, n) == MinimizeFrom(test, Complement(s, start, k), ReducedGranularity(n))
  {
    GranularityFits(|s|, n);
  }

  /**
   * Adopting the first failing complement keeps what the outer loop of ddmin
   * maintains: the new candidate fails, is obtained from the input by
   * deleting elements, fits the reduced granularity and leads to the same
   * final result.
   */
  lemma AdoptComplement<T>(test: seq<T> -> Outcome, input: seq<T>, s: seq<T>, n: nat, k: nat, start: nat)
    requires 2 <= n <= |s| && k == BlockLength(|s|, n) && k >= 1
    requires IsSubsequence(s, input)
    requires FirstFailing(test, s, k, 0) == Some(start)
    ensures var c := Complement(s, start, k);
      |c| < |s| && test(c) == Fail && IsSubsequence(c, input) &&
      GranularityOk(c, ReducedGranularity(n)) &&
      MinimizeFrom(test, c, ReducedGranularity(n)) == MinimizeFrom(test, s, n)
  {
    ReductionStep(test, s, n, k, start);
    ComplementIsSubsequence(s, start, k);
    SubsequenceTransitive(Complement(s, start, k), s, input);
  }

  /**
   * A round that finds no failing complement below the finest granularity
   * keeps the candidate and strictly increases `n`, still within `|s|`.
   */
  lemma RefinementStep<T>(test: seq<T> -> Outcome, s: seq<T>, n: nat, k: nat)
    requires 2 <= n < |s| && k == BlockLength(|s|, n) && k >= 1
    requires FirstFailing(test, s, k, 0) == None
    ensures n < RefinedGranularity(n, |s|) <= |s|
    ensures MinimizeFrom(test, s, n) == MinimizeFrom(test, s, RefinedGranularity(n, |s|))
  {
  }

  /**
   * A round at granularity `|s|` that finds no failing complement ends the
   * search with `s`, and every single-element complement of `s` was tried.
   */
  lemma ConvergedStep<T>(test: seq<T> -> Outcome, s: seq<T>, n: nat)
    requires 2 <= n == |s|
    requires FirstFailing(test, s, 1, 0) == None
    ensures MinimizeFrom(test, s, n) == s
    ensures OneMinimal(test, s)
  {
    assert BlockLength(|s|, n) == 1 + BlockLength(0, n);
    forall i | 0 <= i < |s| ensures test(Complement(s, i, 1)) != Fail {
      EveryPositionStartsABlock(0);
      EveryPositionStartsABlock(i);
      FirstFailingSkipsOnlyNonFailing(test, s, 1, 0, i);
    }
  }

  /** Removing any single element of `s` gives an input that does not test FAIL. */
  predicate OneMinimal<T>(test: seq<T> -> Outcome, s: seq<T>)
  {
    forall i :: 0 <= i < |s| ==> test(Complement(s, i, 1)) != Fail
  }

  /**
   * When the search stops because the candidate is shorter than 2, it still
   * fails and the empty input passes, so it has exactly one element and is
   * 1-minimal.
   */
  lemma ShortFailingIsOneMinimal<T>(test: seq<T> -> Outcome, s: seq<T>)
    requires |s| < 2
    requires test([]) == Pass && test(s) == Fail
    ensures |s| == 1
    ensures OneMinimal(test, s)
  {
    assert s != [];
    assert Complement(s, 0, 1) == [];
  }

  /** The result still fails: a candidate is only ever replaced by a failing complement. */
  lemma {:induction false} MinimizeFromFails<T>(test: seq<T> -> Outcome, s: seq<T>, n: nat)
    requires GranularityOk(s, n)
    requires test(s) == Fail
    ensures test(MinimizeFrom(test, s, n)) == Fail
    decreases |s|, |s| - n
  {
    if |s| >= 2 {
      var k := BlockLength(|s|, n);
      GranularityFits(|s|, n);
      match FirstFailing(test, s, k, 0)
      case Some(start) =>
        ReductionStep(test, s, n, k, start);
        MinimizeFromFails(test, Complement(s, start, k), ReducedGranularity(n));
      case None =>
        if n != |s| {
          RefinementStep(test, s, n, k);
          MinimizeFromFails(test, s, RefinedGranularity(n, |s|));
        }
    }
  }

  /** The result is obtained from the candidate by deleting elements. */
  lemma {:induction false} MinimizeFromIsSubsequence<T>(test: seq<T> -> Outcome, s: seq<T>, n: nat)
    requires GranularityOk(s, n)
    ensures IsSubsequence(MinimizeFrom(test, s, n), s)
    decreases |s|, |s| - n
  {
    if |s| < 2 {
      SubsequenceReflexive(s);
    } else {
      var k := BlockLength(|s|, n);
      GranularityFits(|s|, n);
      match FirstFailing(test, s, k, 0)
      case Some(start) =>
        var c := Complement(s, start, k);
        ReductionStep(test, s, n, k, start);
        MinimizeFromIsSubsequence(test, c, ReducedGranularity(n));
        ComplementIsSubsequence(s, start, k);
        SubsequenceTransitive(MinimizeFrom(test, c, ReducedGranularity(n)), c, s);
      case None =>
        if n == |s| {
          SubsequenceReflexive(s);
        } else {
          RefinementStep(test, s, n, k);
          MinimizeFromIsSubsequence(test, s, RefinedGranularity(n, |s|));
        }
    }
  }

  /**
   * The result is nonempty and 1-minimal, whichever way the search stops:
   * at granularity `|s|` with no failing complement, or with a candidate
   * shorter than 2.
   */
  lemma {:induction false} MinimizeFromOneMinimal<T>(test: seq<T> -> Outcome, s: seq<T>, n: nat)
    requires GranularityOk(s, n)
    requires test([]) == Pass && test(s) == Fail
    ensures |MinimizeFrom(test, s, n)| >= 1
    ensures OneMinimal(test, MinimizeFrom(test, s, n))
    decreases |s|, |s| - n
  {
    if |s| < 2 {
      ShortFailingIsOneMinimal(test, s);
    } else {
      var k := BlockLength(|s|, n);
      GranularityFits(|s|, n);
      match FirstFailing(test, s, k, 0)
      case Some(start) =>
        ReductionStep(test, s, n, k, start);
        MinimizeFromOneMinimal(test, Complement(s, start, k), ReducedGranularity(n));
      case None =>
        if n == |s| {
          ConvergedStep(test, s, n);
        } else {
          RefinementStep(test, s, n, k);
          MinimizeFromOneMinimal(test, s, RefinedGranularity(n, |s|));
        }
    }
  }

  /**
   * The inner loop of a round (the scan over complements): try each block
   * start from 0 in steps of `k` and stop at the first complement that tests
   * FAIL. `found` is the source's `some_complement_is_failing` and `start` the
   * position where the scan broke off.
   */
  method ScanComplements<T>(test: seq<T> -> Outcome, s: seq<T>, k: nat) returns (found: bool, start: nat)
    requires k >= 1
    ensures found ==> FirstFailing(test, s, k, 0) == Some(start)
    ensures !found ==> FirstFailing(test, s, k, 0) == None
  {
    start := 0;
    found := false;
    while start < |s|
      invariant IsBlockStart(start, k)
      invariant FirstFailing(test, s, k, start) == FirstFailing(test, s, k, 0)
      decreases |s| - start
    {
      if test(Complement(s, start, k)) == Fail {
        found := true;
        return;
      }
      start := start + k;
    }
  }

  /**
   * ddmin: rounds at growing granularity, each scanning the complements of
   * the current candidate. A failing complement is adopted and the next round
   * starts over on it at granularity `max(n - 1, 2)`; a round without one
   * either stops the search (at `n == |s|`) or doubles `n`, capped at `|s|`.
   */
  method DDMin<T>(input: seq<T>, test: seq<T> -> Outcome) returns (r: seq<T>)
    requires test([]) == Pass
    requires test(input) == Fail
    ensures r == MinimizeFrom(test, input, 2)
    ensures test(r) == Fail
    ensures IsSubsequence(r, input)
    ensures 1 <= |r| <= |input|
    ensures OneMinimal(test, r)
  {
    ghost var result := MinimizeFrom(test, input, 2);
    var s := input;
    var n: nat := 2;
    SubsequenceReflexive(input);
    while |s| >= 2
      invariant GranularityOk(s, n)
      invariant test(s) == Fail
      invariant IsSubsequence(s, input)
      invariant MinimizeFrom(test, s, n) == result
      decreases |s|, |s| - n
    {
      var subsetLength := BlockLength(|s|, n);
      GranularityFits(|s|, n);
      var someComplementIsFailing, start := ScanComplements(test, s, subsetLength);
      if someComplementIsFailing {
        AdoptComplement(test, input, s, n, subsetLength, start);
        s := Complement(s, start, subsetLength);
        n := ReducedGranularity(n);
      } else {
        if n == |s| {
          ConvergedStep(test, s, n);
          break;
        }
        RefinementStep(test, s, n, subsetLength);
        n := RefinedGranularity(n, |s|);
      }
    }
    r := s;
    if |r| < 2 {
      ShortFailingIsOneMinimal(test, r);
    }
    SubsequenceLength(r, input);
  }
}
