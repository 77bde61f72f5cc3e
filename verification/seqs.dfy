/** Order-preserving relations between sequences. */
module Seqs {

  /** `a` can be obtained from `b` by deleting elements, keeping the order of the rest. */
  ghost predicate IsSubsequence<T>(a: seq<T>, b: seq<T>)
    decreases |b|
  {
    || |a| == 0
    || (&& |b| > 0
        && (|| (a[|a| - 1] == b[|b| - 1] && IsSubsequence(a[..|a| - 1], b[..|b| - 1]))
            || IsSubsequence(a, b[..|b| - 1])))
  }

  lemma SubsequenceExtend<T>(a: seq<T>, b: seq<T>, x: T)
    requires IsSubsequence(a, b)
    ensures IsSubsequence(a + [x], b + [x])
    ensures IsSubsequence(a, b + [x])
  {
    assert (a + [x])[..|a|] == a;
    assert (b + [x])[..|b|] == b;
  }

  /** A non-empty sequence is its prefix followed by its last element. */
  lemma SplitLast<T>(s: seq<T>)
    requires |s| > 0
    ensures s[..|s| - 1] + [s[|s| - 1]] == s
  {
  }

  /** Growing by nothing or by `b`'s last element keeps a subsequence of `b`'s prefix one of `b`. */
  lemma SubsequenceStep<T>(m0: seq<T>, m: seq<T>, b: seq<T>)
    requires |b| > 0 && IsSubsequence(m0, b[..|b| - 1])
    requires m == m0 || m == m0 + [b[|b| - 1]]
    ensures IsSubsequence(m, b)
  {
    SubsequenceExtend(m0, b[..|b| - 1], b[|b| - 1]);
    SplitLast(b);
  }

  /** Every element of a subsequence is an element of the whole sequence. */
  lemma {:induction false} SubsequenceMembers<T>(a: seq<T>, b: seq<T>)
    requires IsSubsequence(a, b)
    ensures forall x :: x in a ==> x in b
    decreases |b|
  {
    if |a| == 0 {
    } else if a[|a| - 1] == b[|b| - 1] && IsSubsequence(a[..|a| - 1], b[..|b| - 1]) {
      SubsequenceMembers(a[..|a| - 1], b[..|b| - 1]);
      forall x | x in a ensures x in b {
        if x != a[|a| - 1] {
          assert a == a[..|a| - 1] + [a[|a| - 1]];
          assert x in a[..|a| - 1];
          assert b == b[..|b| - 1] + [b[|b| - 1]];
        } else {
          assert b[|b| - 1] in b;
        }
      }
    } else {
      SubsequenceMembers(a, b[..|b| - 1]);
      forall x | x in a ensures x in b {
        assert b == b[..|b| - 1] + [b[|b| - 1]];
      }
    }
  }

  /** The elements of `xs` that satisfy `p`, in order. */
  function Filter<T>(xs: seq<T>, p: T -> bool): (r: seq<T>)
    ensures |r| <= |xs|
    ensures forall k :: 0 <= k < |r| ==> p(r[k]) && r[k] in xs
    ensures forall k :: 0 <= k < |xs| && p(xs[k]) ==> xs[k] in r
    decreases |xs|
  {
    if |xs| == 0 then []
    else
      var init := xs[..|xs| - 1];
      var last := xs[|xs| - 1];
      assert xs == init + [last];
      Filter(init, p) + (if p(last) then [last] else [])
  }

  /** `f` applied to every element of `xs`, in order. */
  function Map<A, B>(xs: seq<A>, f: A -> B): (r: seq<B>)
    ensures |r| == |xs|
    ensures forall k :: 0 <= k < |xs| ==> r[k] == f(xs[k])
  {
    seq(|xs|, k requires 0 <= k < |xs| => f(xs[k]))
  }

  /** The concatenation of the lists, in order. */
  function Flatten<T>(lists: seq<seq<T>>): seq<T>
    decreases |lists|
  {
    if |lists| == 0 then [] else lists[0] + Flatten(lists[1..])
  }
}
