/**
 * The subsequence relation on finite sequences: `a` is a subsequence of `b`
 * when `a` is obtained from `b` by deleting elements, keeping the order of
 * those that remain. Every candidate that ddmin adopts is a subsequence of the
 * one it replaces, so the result is a subsequence of the caller's input.
 */
module Subsequences {

  /** `a` can be obtained from `b` by deleting zero or more elements. */
  predicate IsSubsequence<T(==)>(a: seq<T>, b: seq<T>)
    decreases |b|
  {
    a == [] ||
    (b != [] &&
     ((a[0] == b[0] && IsSubsequence(a[1..], b[1..])) || IsSubsequence(a, b[1..])))
  }

  /** Deleting elements never makes a sequence longer. */
  lemma {:induction false} SubsequenceLength<T>(a: seq<T>, b: seq<T>)
    requires IsSubsequence(a, b)
    ensures |a| <= |b|
    decreases |b|
  {
    if a != [] {
      if a[0] == b[0] && IsSubsequence(a[1..], b[1..]) {
        SubsequenceLength(a[1..], b[1..]);
      } else {
        SubsequenceLength(a, b[1..]);
      }
    }
  }

  /** Every sequence is a subsequence of itself (nothing deleted). */
  lemma {:induction false} SubsequenceReflexive<T>(a: seq<T>)
    ensures IsSubsequence(a, a)
    decreases |a|
  {
    if a != [] {
      SubsequenceReflexive(a[1..]);
    }
  }

  /** Deleting a whole prefix `c` of `c + b` keeps the subsequences of `b`. */
  lemma {:induction false} SubsequenceOfLonger<T>(a: seq<T>, c: seq<T>, b: seq<T>)
    requires IsSubsequence(a, b)
    ensures IsSubsequence(a, c + b)
    decreases |c|
  {
    if c != [] {
      SubsequenceOfLonger(a, c[1..], b);
      assert (c + b)[1..] == c[1..] + b;
      assert IsSubsequence(a, (c + b)[1..]);
    } else {
      assert c + b == b;
    }
  }

  /** A common prefix may be kept on both sides. */
  lemma {:induction false} SubsequenceUnderPrefix<T>(x: seq<T>, a: seq<T>, b: seq<T>)
    requires IsSubsequence(a, b)
    ensures IsSubsequence(x + a, x + b)
    decreases |x|
  {
    if x != [] {
      SubsequenceUnderPrefix(x[1..], a, b);
      assert (x + a)[0] == x[0] == (x + b)[0];
      assert (x + a)[1..] == x[1..] + a;
      assert (x + b)[1..] == x[1..] + b;
      assert IsSubsequence((x + a)[1..], (x + b)[1..]);
    } else {
      assert x + a == a && x + b == b;
    }
  }

  /** Cutting the middle slice `mid` out of `pre + mid + post` gives a subsequence. */
  lemma SubsequenceByCut<T>(pre: seq<T>, mid: seq<T>, post: seq<T>)
    ensures IsSubsequence(pre + post, pre + mid + post)
  {
    SubsequenceReflexive(post);
    SubsequenceOfLonger(post, mid, post);
    SubsequenceUnderPrefix(pre, post, mid + post);
    assert pre + mid + post == pre + (mid + post);
  }

  /** Deleting from a sequence already obtained by deleting is still deleting. */
  lemma {:induction false} SubsequenceTransitive<T>(a: seq<T>, b: seq<T>, c: seq<T>)
    requires IsSubsequence(a, b) && IsSubsequence(b, c)
    ensures IsSubsequence(a, c)
    decreases |c|
  {
    if a != [] {
      assert b != [] && c != [];
      if IsSubsequence(b, c[1..]) {
        SubsequenceTransitive(a, b, c[1..]);
      } else {
        assert b[0] == c[0] && IsSubsequence(b[1..], c[1..]);
        if a[0] == b[0] && IsSubsequence(a[1..], b[1..]) {
          SubsequenceTransitive(a[1..], b[1..], c[1..]);
        } else {
          SubsequenceTransitive(a, b[1..], c[1..]);
        }
      }
    }
  }
}
