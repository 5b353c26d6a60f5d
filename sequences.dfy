/**
 * Facts about sequences of any element type that the string, prompt and
 * statistics modules share: keeping an order while dropping elements, and
 * where the parts of a three-way concatenation sit.
 */
module Sequences {

  /** `xs` can be obtained from `ys` by deleting elements: the order of `ys` is kept. */
  ghost predicate IsSubsequence<T>(xs: seq<T>, ys: seq<T>)
    decreases |ys|
  {
    xs == [] || (ys != [] && if xs[0] == ys[0] then IsSubsequence(xs[1..], ys[1..]) else IsSubsequence(xs, ys[1..]))
  }

  lemma AppendAssoc<T>(a: seq<T>, b: seq<T>, c: seq<T>)
    ensures a + b + c == a + (b + c)
  {
  }

  /** In `a + m + z`, `a` is the prefix, `z` the suffix and `m` what lies between them. */
  lemma SliceOfThree<T>(a: seq<T>, m: seq<T>, z: seq<T>)
    ensures var s := a + m + z;
      |s| == |a| + |m| + |z| && s[..|a|] == a && s[|a|..|a| + |m|] == m
      && s[|s| - |z|..] == z && s[|a|..|s| - |z|] == m
  {
  }
}
