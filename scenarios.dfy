/**
 * Consequences of ddmin's result guarantee for particular classifiers: one
 * that fails on every nonempty input, and one that fails exactly when the
 * input contains a given contiguous factor.
 */
module Scenarios {
  import opened DeltaDebugging

  /** `p` occurs in `x` as a contiguous block (Python's `p in x` on strings). */
  predicate ContainsFactor<T(==)>(x: seq<T>, p: seq<T>)
    decreases |x|
  {
    |p| <= |x| && (x[..|p|] == p || (x != [] && ContainsFactor(x[1..], p)))
  }

  /**
   * If a longer input contains the factor, some single element can be
   * deleted with the factor still there: one just after the first
   * occurrence when it starts at the front, otherwise the first element.
   */
  lemma {:induction false} FactorSurvivesOneDeletion<T>(r: seq<T>, p: seq<T>) returns (i: nat)
    requires ContainsFactor(r, p) && |r| > |p|
    ensures i < |r| && ContainsFactor(Complement(r, i, 1), p)
  {
    if r[..|p|] == p {
      i := |p|;
      var c := Complement(r, i, 1);
      assert c[..|p|] == p;
    } else {
      i := 0;
      assert Complement(r, 0, 1) == r[1..];
    }
  }

  /** An input that contains the factor and is no longer than it is the factor. */
  lemma FactorFillsWhole<T>(r: seq<T>, p: seq<T>)
    requires ContainsFactor(r, p) && |r| <= |p|
    ensures r == p
  {
    assert r[..|p|] == r;
  }

  /**
   * When the classifier fails exactly on inputs containing a nonempty factor
   * `p`, ddmin started on any input containing `p` returns exactly `p`,
   * whatever surrounds it.
   */
  lemma FactorIsFound<T>(test: seq<T> -> Outcome, s: seq<T>, p: seq<T>)
    requires p != []
    requires forall x :: test(x) == (if ContainsFactor(x, p) then Fail else Pass)
    requires ContainsFactor(s, p)
    ensures MinimizeFrom(test, s, 2) == p
  {
    assert !ContainsFactor([], p);
    var r := MinimizeFrom(test, s, 2);
    MinimizeFromFails(test, s, 2);
    MinimizeFromOneMinimal(test, s, 2);
    if |r| > |p| {
      var i := FactorSurvivesOneDeletion(r, p);
      assert false;
    }
    FactorFillsWhole(r, p);
  }

  /** `"ab"` padded with fifty `'x'` characters reduces to `"ab"`. */
  lemma PaddedAbReducesToAb(test: seq<char> -> Outcome)
    requires forall x :: test(x) == (if ContainsFactor(x, "ab") then Fail else Pass)
    ensures MinimizeFrom(test, "ab" + seq(50, _ => 'x'), 2) == "ab"
  {
    var s := "ab" + seq(50, _ => 'x');
    assert s[..2] == "ab";
    FactorIsFound(test, s, "ab");
  }

  /**
   * When every nonempty input fails, ddmin reduces any nonempty input to a
   * single element.
   */
  lemma EveryNonEmptyFailingGivesOneElement<T>(test: seq<T> -> Outcome, s: seq<T>)
    requires forall x :: test(x) == (if x == [] then Pass else Fail)
    requires s != []
    ensures |MinimizeFrom(test, s, 2)| == 1
  {
    var r := MinimizeFrom(test, s, 2);
    assert test([]) == Pass && test(s) == Fail;
    MinimizeFromOneMinimal(test, s, 2);
    // the only single-element deletion allowed not to fail leaves the empty input
    assert test(Complement(r, 0, 1)) != Fail;
  }
}
