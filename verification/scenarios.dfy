/**
  The behaviours the package's unit tests check for Filter, stated as
  lemmas about the model.
 */
module Scenarios {
  import opened Functions
  import Laws

  /** The test's `isEven`: `x % 2 == 0`. Go's `%` truncates toward zero
      and Dafny's is Euclidean, but both are zero exactly on the multiples
      of two, so the predicate agrees for every integer. */
  function IsEven(x: int): bool
  {
    x % 2 == 0
  }

  /** The test's `isNegative`. */
  function IsNegative(x: int): bool
  {
    x < 0
  }

  /** The integers 1..n in increasing order. */
  function UpTo(n: nat): (r: seq<int>)
    ensures |r| == n
    ensures forall i :: 0 <= i < n ==> r[i] == i + 1
  {
    seq(n, i => i + 1)
  }

  /** The first m even numbers 2, 4, ..., 2m in increasing order. */
  function Evens(m: nat): (r: seq<int>)
    ensures |r| == m
    ensures forall j :: 0 <= j < m ==> r[j] == 2 * (j + 1)
  {
    seq(m, j => 2 * (j + 1))
  }

  lemma UpToSnoc(n: nat)
    requires n > 0
    ensures UpTo(n) == UpTo(n - 1) + [n]
  {
  }

  lemma EvensSnoc(m: nat)
    requires m > 0
    ensures Evens(m) == Evens(m - 1) + [2 * m]
  {
  }

  /** Keeping the even numbers of 1..n gives 2, 4, ..., up to n. */
  lemma {:induction false} FilterEvensUpTo(n: nat)
    ensures Filter(UpTo(n), IsEven) == Evens(n / 2)
  {
    if n > 0 {
      FilterEvensUpTo(n - 1);
      UpToSnoc(n);
      Laws.FilterSnoc(UpTo(n - 1), n, IsEven);
      if n % 2 == 0 {
        EvensSnoc(n / 2);
        assert (n - 1) / 2 == n / 2 - 1;
      } else {
        assert n / 2 == (n - 1) / 2;
      }
    }
  }

  /** Keeping the even numbers of 1..10 gives 2, 4, 6, 8, 10. */
  lemma FilterEvens()
    ensures UpTo(10) == [1, 2, 3, 4, 5, 6, 7, 8, 9, 10]
    ensures Filter(UpTo(10), IsEven) == [2, 4, 6, 8, 10]
  {
    assert Evens(5) == [2, 4, 6, 8, 10];
    FilterEvensUpTo(10);
  }

  /** Keeping the negative numbers of 1..10 gives an empty sequence, not a
      failure. */
  lemma FilterNegativesEmpty()
    ensures UpTo(10) == [1, 2, 3, 4, 5, 6, 7, 8, 9, 10]
    ensures Filter(UpTo(10), IsNegative) == []
  {
    Laws.FilterEmptyIffNoMatch(UpTo(10), IsNegative);
  }
}
