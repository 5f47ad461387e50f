/**
  Imperative mirrors of the two loops in the Go package: Map writes each
  slot of a pre-sized result slice, Filter appends each kept element.
  Each method is proved to compute exactly its specification function.
 */
module Loops {
  import opened Functions
  import Laws

  /** Sizes the result to `|xs|`, then overwrites slot `i` with `f(xs[i])`
      in index order. Go fills the pre-sized slice with the zero value;
      here it starts as copies of `f(xs[0])`, which needs no default value
      of Y. Every slot is overwritten before it is read, so the filler
      does not matter. */
  method MapSlice<X, Y>(xs: seq<X>, f: X -> Y) returns (ys: seq<Y>)
    ensures |ys| == |xs|
    ensures forall i :: 0 <= i < |xs| ==> ys[i] == f(xs[i])
    ensures ys == Map(xs, f)
  {
    ys := if xs == [] then [] else seq(|xs|, _ => f(xs[0]));
    for i := 0 to |xs|
      invariant |ys| == |xs|
      invariant forall k :: 0 <= k < i ==> ys[k] == f(xs[k])
    {
      ys := ys[i := f(xs[i])];
    }
  }

  /** Starts with an empty result and, in one pass over `xs`, appends each
      element that satisfies `p`. */
  method FilterSlice<X>(xs: seq<X>, p: X -> bool) returns (result: seq<X>)
    ensures result == Filter(xs, p)
    ensures forall i :: 0 <= i < |result| ==> p(result[i])
  {
    result := [];
    for i := 0 to |xs|
      invariant result == Filter(xs[..i], p)
    {
      assert xs[..i + 1] == xs[..i] + [xs[i]];
      Laws.FilterSnoc(xs[..i], xs[i], p);
      if p(xs[i]) {
        result := result + [xs[i]];
      }
    }
    assert xs[..|xs|] == xs;
  }
}
