/** Runs of any machine, from its steps. */
module Folds {

  function Fold<S, T>(step: (S, T) -> S, s: S, xs: seq<T>): S
    decreases |xs|
  {
    if xs == [] then s else step(Fold(step, s, xs[..|xs| - 1]), xs[|xs| - 1])
  }

  lemma {:induction false} FoldAppend<S, T>(step: (S, T) -> S, s: S, xs: seq<T>, ys: seq<T>)
    ensures Fold(step, s, xs + ys) == Fold(step, Fold(step, s, xs), ys)
    decreases |ys|
  {
    if ys == [] {
      assert xs + ys == xs;
    } else {
      assert (xs + ys)[..|xs + ys| - 1] == xs + ys[..|ys| - 1];
      FoldAppend(step, s, xs, ys[..|ys| - 1]);
    }
  }

  /** Two machines that take each step alike end alike. */
  lemma {:induction false} FoldEncoded<S(!new), T, U>(step: (S, T) -> S, wire: (S, U) -> S, s: S, xs: seq<T>,
          ys: seq<U>)
    requires |xs| == |ys| && forall now, i :: 0 <= i < |xs| ==> wire(now, ys[i]) == step(now, xs[i])
    ensures Fold(wire, s, ys) == Fold(step, s, xs)
    decreases |xs|
  {
    if xs != [] {
      FoldEncoded(step, wire, s, xs[..|xs| - 1], ys[..|ys| - 1]);
    }
  }
}
