/**
  The pure higher-order operations of the `higherorder` Go package:
  Identity, Compose, Map and Filter over slices.

  Go slices are modelled as immutable `seq<X>`; the caller-supplied
  functions are total Dafny arrows. Identity and Compose are single
  applications. Map and Filter are recursive specification functions:
  Map's contract fixes its result, while Filter's states membership, and
  its order and multiplicity are proved in module `Laws` (FilterSelects,
  SelectsOnlyFilter). The loop-based mirrors of the Go code live in
  module `Loops`.
 */
module Functions {

  /** Returns its argument unchanged. */
  function Identity<X>(x: X): (r: X)
    ensures r == x
  {
    x
  }

  /** Applies `f` to `val` and then `g` to the outcome. The argument order
      is the Go one: the value first, then the inner function, then the
      outer function. */
  function Compose<X, Y, Z>(val: X, f: X -> Y, g: Y -> Z): (r: Z)
    ensures r == g(f(val))
  {
    g(f(val))
  }

  /** The sequence of `f` applied to each element of `xs`, in order. */
  function Map<X, Y>(xs: seq<X>, f: X -> Y): (r: seq<Y>)
    ensures |r| == |xs|
    ensures forall i :: 0 <= i < |xs| ==> r[i] == f(xs[i])
  {
    if xs == [] then [] else [f(xs[0])] + Map(xs[1..], f)
  }

  /** The elements of `xs` that satisfy `p`, in their original order. */
  function Filter<X>(xs: seq<X>, p: X -> bool): (r: seq<X>)
    ensures |r| <= |xs|
    ensures forall i :: 0 <= i < |r| ==> p(r[i])
    ensures forall i :: 0 <= i < |r| ==> r[i] in xs
    ensures forall i :: 0 <= i < |xs| && p(xs[i]) ==> xs[i] in r
  {
    if xs == [] then []
    else (if p(xs[0]) then [xs[0]] else []) + Filter(xs[1..], p)
  }
}
