/**
 * The generic map_reduce of the future runtime, specialised to mappers whose
 * futures are already resolved: every element of the range is mapped, and the
 * mapped values are folded into the accumulator from left to right, in the
 * order of the range.
 */
module Fold {

  /** map_reduce(range, mapper, initial, reduce) when each mapper future is ready. */
  function MapReduce<T, U, A>(range: seq<T>, mapper: T --> U, initial: A, reduce: (A, U) -> A): (r: A)
    requires forall x :: x in range ==> mapper.requires(x)
    ensures range == [] ==> r == initial
    ensures |range| == 1 ==> r == reduce(initial, mapper(range[0]))
    decreases |range|
  {
    if range == [] then initial
    else MapReduce(range[1..], mapper, reduce(initial, mapper(range[0])), reduce)
  }

  /** Folding one more element at the end applies the reducer to it last. */
  lemma {:induction false} MapReduceAppend<T, U, A>(range: seq<T>, x: T, mapper: T --> U, initial: A, reduce: (A, U) -> A)
    requires forall y :: y in range + [x] ==> mapper.requires(y)
    ensures MapReduce(range + [x], mapper, initial, reduce)
         == reduce(MapReduce(range, mapper, initial, reduce), mapper(x))
    decreases |range|
  {
    if range != [] {
      assert (range + [x])[0] == range[0];
      assert (range + [x])[1..] == range[1..] + [x];
      MapReduceAppend(range[1..], x, mapper, reduce(initial, mapper(range[0])), reduce);
    }
  }

  /** The result depends on the mapper only through its values on the range. */
  lemma {:induction false} MapReduceCongruent<T, U, A>(range: seq<T>, f: T --> U, g: T --> U, initial: A, reduce: (A, U) -> A)
    requires forall x :: x in range ==> f.requires(x) && g.requires(x) && f(x) == g(x)
    ensures MapReduce(range, f, initial, reduce) == MapReduce(range, g, initial, reduce)
    decreases |range|
  {
    if range != [] {
      MapReduceCongruent(range[1..], f, g, reduce(initial, f(range[0])), reduce);
    }
  }
}
