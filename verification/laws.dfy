/**
  Laws relating the operations of module `Functions` to each other and to
  independent reference definitions: the identity and composition laws,
  the functor laws of Map, and a characterisation of Filter as the
  selection of exactly the satisfying positions of its input.
 */
module Laws {
  import opened Functions

  // ---------------------------------------------------------------------
  // Identity and Compose
  // ---------------------------------------------------------------------

  /** Identity is neutral on both sides of Compose. */
  lemma ComposeIdentity<X, Y>(x: X, f: X -> Y)
    ensures Compose(x, Identity, f) == f(x)
    ensures Compose(x, f, Identity) == f(x)
  {
  }

  /** Composition is associative: grouping the inner pair or the outer
      pair gives the same value. */
  lemma ComposeAssociative<X, Y, Z, W>(x: X, f: X -> Y, g: Y -> Z, h: Z -> W)
    ensures Compose(x, y => Compose(y, f, g), h) == Compose(x, f, z => Compose(z, g, h))
  {
  }

  // ---------------------------------------------------------------------
  // Map
  // ---------------------------------------------------------------------

  /** Mapping the identity returns the input. */
  lemma MapIdentity<X>(xs: seq<X>)
    ensures Map(xs, Identity) == xs
  {
  }

  /** Mapping `f` and then `g` is mapping their composition. */
  lemma MapCompose<X, Y, Z>(xs: seq<X>, f: X -> Y, g: Y -> Z)
    ensures Map(Map(xs, f), g) == Map(xs, x => Compose(x, f, g))
  {
  }

  /** Map distributes over concatenation. */
  lemma MapAppend<X, Y>(xs: seq<X>, ys: seq<X>, f: X -> Y)
    ensures Map(xs + ys, f) == Map(xs, f) + Map(ys, f)
  {
  }

  // ---------------------------------------------------------------------
  // Filter
  // ---------------------------------------------------------------------

  /** Filtering a sequence extended by one element extends the filtered
      sequence by that element exactly when it satisfies the predicate.
      This is the step the Go loop takes on each iteration. */
  lemma {:induction false} FilterSnoc<X>(xs: seq<X>, x: X, p: X -> bool)
    ensures Filter(xs + [x], p) == Filter(xs, p) + (if p(x) then [x] else [])
  {
    if xs != [] {
      assert (xs + [x])[1..] == xs[1..] + [x];
      FilterSnoc(xs[1..], x, p);
    }
  }

  /** Filter distributes over concatenation. */
  lemma {:induction false} FilterAppend<X>(xs: seq<X>, ys: seq<X>, p: X -> bool)
    ensures Filter(xs + ys, p) == Filter(xs, p) + Filter(ys, p)
  {
    if xs == [] {
      assert xs + ys == ys;
    } else {
      assert (xs + ys)[1..] == xs[1..] + ys;
      FilterAppend(xs[1..], ys, p);
    }
  }

  /** Each `r[k]` is the element of `xs` at position `idx[k]`. */
  ghost predicate PointsAt<X>(idx: seq<nat>, r: seq<X>, xs: seq<X>)
  {
    && |idx| == |r|
    && forall k :: 0 <= k < |idx| ==> idx[k] < |xs| && r[k] == xs[idx[k]]
  }

  ghost predicate StrictlyIncreasing(idx: seq<nat>)
  {
    forall k, l :: 0 <= k < l < |idx| ==> idx[k] < idx[l]
  }

  /** The positions in `idx` are exactly those of `xs` satisfying `p`. */
  ghost predicate ExactlySatisfying<X>(idx: seq<nat>, xs: seq<X>, p: X -> bool)
  {
    forall i :: 0 <= i < |xs| ==> (p(xs[i]) <==> i in idx)
  }

  /** `idx` lists, in strictly increasing order, exactly the positions of
      `xs` whose element satisfies `p`, and `r` holds the elements at
      those positions. Such an `idx` is unique, so `r` is too. */
  ghost predicate Selects<X>(idx: seq<nat>, r: seq<X>, xs: seq<X>, p: X -> bool)
  {
    && PointsAt(idx, r, xs)
    && StrictlyIncreasing(idx)
    && ExactlySatisfying(idx, xs, p)
  }

  /** Every position in `idx`, moved one place to the right. */
  ghost function Shift(idx: seq<nat>): (s: seq<nat>)
    ensures |s| == |idx|
    ensures forall k :: 0 <= k < |idx| ==> s[k] == idx[k] + 1
  {
    seq(|idx|, k requires 0 <= k < |idx| => idx[k] + 1)
  }

  /** Positions for `[x] + t` built from positions for `t`: position 0
      when `x` is kept, then every position of `t` one place further. */
  ghost function ConsPositions(keep: bool, idx: seq<nat>): seq<nat>
  {
    (if keep then [0] else []) + Shift(idx)
  }

  /** The positions of `xs` whose element satisfies `p`, ascending. */
  ghost function KeptPositions<X>(xs: seq<X>, p: X -> bool): seq<nat>
  {
    if xs == [] then [] else ConsPositions(p(xs[0]), KeptPositions(xs[1..], p))
  }

  // The three parts of a selection carry over from `t` to `[x] + t`.

  lemma ConsPointsAt<X>(x: X, t: seq<X>, keep: bool, idx: seq<nat>, r: seq<X>)
    requires PointsAt(idx, r, t)
    ensures PointsAt(ConsPositions(keep, idx), (if keep then [x] else []) + r, [x] + t)
  {
  }

  lemma ConsIncreasing(keep: bool, idx: seq<nat>)
    requires StrictlyIncreasing(idx)
    ensures StrictlyIncreasing(ConsPositions(keep, idx))
  {
  }

  lemma ConsSatisfying<X>(x: X, t: seq<X>, p: X -> bool, idx: seq<nat>)
    requires ExactlySatisfying(idx, t, p)
    ensures ExactlySatisfying(ConsPositions(p(x), idx), [x] + t, p)
  {
  }

  /** Filter returns precisely the elements at the satisfying positions of
      its input, in order: it is the order-preserving subsequence that
      keeps every element satisfying `p` and nothing else. */
  lemma {:induction false} FilterSelects<X>(xs: seq<X>, p: X -> bool)
    ensures Selects(KeptPositions(xs, p), Filter(xs, p), xs, p)
  {
    if xs != [] {
      var idx := KeptPositions(xs[1..], p);
      FilterSelects(xs[1..], p);
      assert [xs[0]] + xs[1..] == xs;
      ConsPointsAt(xs[0], xs[1..], p(xs[0]), idx, Filter(xs[1..], p));
      ConsIncreasing(p(xs[0]), idx);
      ConsSatisfying(xs[0], xs[1..], p, idx);
    }
  }

  /** The first element of a non-empty sequence is one of its members.
      `IncreasingDetermined` calls it in its impossible branch. Asserting
      `s[0] in s` there directly makes the verifier report that the
      assertion was proved from contradictory assumptions; calling this
      lemma supplies the membership term without an asserted statement. */
  lemma HeadIsMember(s: seq<nat>)
    requires s != []
    ensures s[0] in s
  {
  }

  /** Two strictly increasing sequences of positions holding the same
      positions are equal. */
  lemma {:induction false} IncreasingDetermined(a: seq<nat>, b: seq<nat>)
    requires StrictlyIncreasing(a) && StrictlyIncreasing(b)
    requires forall n :: n in a <==> n in b
    ensures a == b
    decreases |a|
  {
    if a == [] || b == [] {
      if a != [] {
        HeadIsMember(a);
        assert false;
      } else if b != [] {
        HeadIsMember(b);
        assert false;
      }
    } else {
      assert a[0] in b && b[0] in a;
      assert a[0] == b[0];
      forall n
        ensures n in a[1..] <==> n in b[1..]
      {
        assert n in a[1..] <==> n in a && n != a[0];
        assert n in b[1..] <==> n in b && n != b[0];
      }
      IncreasingDetermined(a[1..], b[1..]);
      assert a == [a[0]] + a[1..] && b == [b[0]] + b[1..];
    }
  }

  /** Any selection of the satisfying positions of `xs` picks out exactly
      what Filter returns: together with `FilterSelects`, Filter is the one
      and only order-preserving subsequence of `xs` made of the elements
      satisfying `p`. */
  lemma SelectsOnlyFilter<X>(idx: seq<nat>, r: seq<X>, xs: seq<X>, p: X -> bool)
    requires Selects(idx, r, xs, p)
    ensures idx == KeptPositions(xs, p)
    ensures r == Filter(xs, p)
  {
    var kept := KeptPositions(xs, p);
    FilterSelects(xs, p);
    forall n
      ensures n in idx <==> n in kept
    {
      if n in idx {
        var k :| 0 <= k < |idx| && idx[k] == n;
        assert n < |xs|;
      }
      if n in kept {
        var k :| 0 <= k < |kept| && kept[k] == n;
        assert n < |xs|;
      }
    }
    IncreasingDetermined(idx, kept);
  }

  /** Filter returns an empty sequence exactly when no element of its input
      satisfies the predicate. */
  lemma FilterEmptyIffNoMatch<X>(xs: seq<X>, p: X -> bool)
    ensures Filter(xs, p) == [] <==> forall i :: 0 <= i < |xs| ==> !p(xs[i])
  {
  }

  /** When every element satisfies the predicate, Filter keeps them all. */
  lemma {:induction false} FilterAllKept<X>(xs: seq<X>, p: X -> bool)
    requires forall i :: 0 <= i < |xs| ==> p(xs[i])
    ensures Filter(xs, p) == xs
  {
    if xs != [] {
      assert p(xs[0]);
      FilterAllKept(xs[1..], p);
    }
  }

  /** Filtering twice with the same predicate is filtering once. */
  lemma FilterIdempotent<X>(xs: seq<X>, p: X -> bool)
    ensures Filter(Filter(xs, p), p) == Filter(xs, p)
  {
    FilterAllKept(Filter(xs, p), p);
  }

  /** Filtering a mapped sequence is mapping the filter by the composed
      predicate. */
  lemma {:induction false} FilterMap<X, Y>(xs: seq<X>, f: X -> Y, p: Y -> bool)
    ensures Filter(Map(xs, f), p) == Map(Filter(xs, x => p(f(x))), f)
  {
    if xs != [] {
      var q := x => p(f(x));
      assert Map(xs, f)[1..] == Map(xs[1..], f);
      FilterMap(xs[1..], f, p);
      MapAppend(if q(xs[0]) then [xs[0]] else [], Filter(xs[1..], q), f);
    }
  }
}
