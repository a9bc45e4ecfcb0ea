/** Order facts about sequences shared by the name normaliser and the display filter. */
module Sequences {

  /** `xs` is `ys` with some elements deleted, the rest kept in their order. */
  predicate Subsequence<T(==)>(xs: seq<T>, ys: seq<T>)
    decreases |ys|
  {
    xs == [] || (ys != [] && ((xs[0] == ys[0] && Subsequence(xs[1..], ys[1..])) || Subsequence(xs, ys[1..])))
  }

  /** Keeping or dropping the head of `ys` preserves being a subsequence. */
  lemma KeepHead<T>(h: T, xs: seq<T>, ys: seq<T>)
    requires Subsequence(xs, ys)
    ensures Subsequence([h] + xs, [h] + ys)
  {
    assert ([h] + xs)[1..] == xs && ([h] + ys)[1..] == ys;
  }

  lemma DropHead<T>(h: T, xs: seq<T>, ys: seq<T>)
    requires Subsequence(xs, ys)
    ensures Subsequence(xs, [h] + ys)
  {
    assert ([h] + ys)[1..] == ys;
  }
}
