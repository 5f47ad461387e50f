# higherorder: Identity, Compose, Map and Filter in Dafny

A model of the Go package `higherorder` (`functions.go`): four generic,
side-effect-free operations over slices.

- `Identity(x)` returns `x`.
- `Compose(val, f, g)` returns `g(f(val))`.
- `Map(xs, f)` builds a slice of the same length whose slot `i` is `f(xs[i])`.
- `Filter(xs, predicate)` builds a slice of the elements that satisfy the
  predicate, in their original order.

Go slices are modelled as immutable `seq<X>`. The caller's functions are
total Dafny arrows (`X -> Y`, `X -> bool`).

Files and modules:

- `functions.dfy`, module `Functions`: the four operations as pure
  functions. Map and Filter are recursive specification functions. Map's
  contract pins its result down completely. Filter's contract states
  membership facts; its order and multiplicity are proved in `Laws`.
- `loops.dfy`, module `Loops`: `MapSlice` and `FilterSlice` mirror the two
  Go `for ... range` loops. Their loop invariants prove that each one
  computes exactly its specification function. In `MapSlice` the result
  first holds copies of `f(xs[0])`, so the element type needs no default
  value. Go fills it with the zero value instead, but every slot is
  overwritten before it is read, so the choice does not matter.
- `laws.dfy`, module `Laws`: the algebra of the operations.
  - Identity is neutral for Compose, and Compose is associative.
  - The functor laws of Map, and Map over concatenation.
  - Filter applied to a sequence extended by one element (the loop step).
  - Filter over concatenation, idempotence, and commuting Filter with Map.
  - A complete characterisation of Filter against an independent
    definition. `Selects(idx, r, xs, p)` says that `idx` lists, in strictly
    increasing order, exactly the positions of `xs` that satisfy `p`, and
    that `r` holds the elements at those positions. `FilterSelects` shows
    that Filter's result is such a selection. `SelectsOnlyFilter` shows that
    every such selection equals Filter's result.
- `scenarios.dfy`, module `Scenarios`: the Filter behaviours checked by the
  package's unit tests.

## Model

| member | source | states |
|---|---|---|
| Functions.Identity | functions.go:3-5 | The result is the argument itself, for a value of any type. |
| Laws.ComposeIdentity | functions.go:3-9 | Identity is neutral on either side of Compose: `Compose(x, Identity, f)` and `Compose(x, f, Identity)` both equal `f(x)`. |
| Functions.Compose | functions.go:7-9 | The result is the outer function applied to the inner function's result on the value. The value comes first, then the inner function, then the outer one. |
| Laws.ComposeAssociative | functions.go:7-9 | Composing `f` then `g`, then applying `h`, gives the same value as applying `f`, then the composition of `g` and `h`. |
| Functions.Map | functions.go:11-19 | The result has exactly the input's length, so an empty input gives an empty result. Slot `i` holds `f` applied to input slot `i`, so order is preserved. |
| Loops.MapSlice | functions.go:11-19 | The pre-sized slice, filled slot by slot by the `range` loop, has the input's length, holds `f(xs[i])` at every `i`, and equals the specification Map. |
| Laws.MapIdentity | functions.go:3-19 | Mapping Identity returns the input unchanged. |
| Laws.MapCompose | functions.go:7-19 | Mapping `f` and then `g` equals mapping `Compose(_, f, g)` once. |
| Laws.MapAppend | functions.go:14-16 | Mapping a concatenation is the concatenation of the two mapped parts. |
| Functions.Filter | functions.go:21-31 | The result is no longer than the input. Every element of the result satisfies the predicate and occurs in the input. Every input element that satisfies the predicate occurs in the result. |
| Loops.FilterSlice | functions.go:21-31 | The slice built by appending each satisfying element in one pass over the input equals the specification Filter, and all its elements satisfy the predicate. |
| Laws.FilterSnoc | functions.go:24-28 | Filtering `xs + [x]` gives the filter of `xs`, extended by `x` exactly when `x` satisfies the predicate. |
| Laws.FilterAppend | functions.go:24-28 | Filtering a concatenation is the concatenation of the two filtered parts. |
| Laws.FilterSelects | functions.go:21-31 | Filter's result is an order-preserving subsequence of the input. It is taken at strictly increasing positions, and these are exactly the positions whose element satisfies the predicate. |
| Laws.SelectsOnlyFilter | functions.go:21-31 | Any order-preserving selection of exactly the satisfying positions uses the same positions as Filter and yields Filter's result. Filter is therefore the unique such subsequence. |
| Laws.FilterEmptyIffNoMatch | functions.go:22-30 | Filter returns the empty sequence, not a failure, exactly when no input element satisfies the predicate. |
| Laws.FilterAllKept | functions.go:24-28 | When every element satisfies the predicate, Filter returns its whole input. |
| Laws.FilterIdempotent | functions.go:21-31 | Filtering an already filtered sequence with the same predicate changes nothing. |
| Laws.FilterMap | functions.go:11-31 | Filtering a mapped sequence equals mapping the filter taken with the composed predicate. |
| Scenarios.FilterEvensUpTo | functions_test.go:68-76 | Keeping the even numbers of 1..n gives 2, 4, ..., 2*(n/2) in order. |
| Scenarios.FilterEvens | functions_test.go:68-76 | Keeping the even numbers of 1..10 gives exactly 2, 4, 6, 8, 10. |
| Scenarios.FilterNegativesEmpty | functions_test.go:78-86 | Keeping the negative numbers of 1..10 gives the empty sequence. |

## Left out

- Reverse, Foldl, Foldr and Sort: the unit tests call them, but `functions.go` defines none of them, so their implementation is not part of this model.
- `examples/example.go`: a program that only prints. It also calls `Filter` and `Map` with an argument order that does not match `functions.go`.
- The benchmarks in `functions_test.go`: they measure speed and state no behaviour.
- Slice allocation: `make` capacities, `append` growth and aliasing. Results are fresh immutable sequences, so the difference between a nil slice and an empty one is not modelled either.
- The `TestMap` and `TestCompose` scenarios: both rely on `strconv.Itoa`, which is not part of this model. The general contracts of Map and Compose cover what those tests check.
- The mixed `interface{}` values in `TestIdentity`, including floats: Identity is generic over its type, so no per-type reasoning is needed.
- Panics raised inside a caller's function: the model's function arguments are total.
- Stateful caller functions: Go's Map and Filter call `f` or `predicate` exactly once per element, in index order, and a Go closure with state could observe that. The model's function arguments are pure, so how many times and in what order they are called is not modelled.
- Functions.Filter: its ensures state membership only (every kept element satisfies the predicate and comes from the input, every satisfying input element is kept). They do not fix order or multiplicity. Those are proved separately by Laws.FilterSelects and Laws.SelectsOnlyFilter, which show that Filter's result is exactly the elements at the satisfying positions, in increasing position order.
