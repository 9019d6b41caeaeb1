/** Small datatypes and set facts shared by the other modules. */
module Prelude {

  datatype Option<+T> = None | Some(value: T)

  datatype Result<+T, +E> = Ok(value: T) | Err(error: E)

  /** What runs when a backend announces a change; the pool and the backends only ever pass it on. */
  type Callback = nat

  /** Adding one element to a set that lacks it makes it one larger; used by every counting argument. */
  lemma CardinalityGrows<T>(smaller: set<T>, x: T, larger: set<T>)
    requires x !in smaller && larger == smaller + {x}
    ensures |larger| == |smaller| + 1
  {
  }

  lemma SubsetCardinality<T>(a: set<T>, b: set<T>)
    requires a <= b
    ensures |a| <= |b|
  {
    assert b == a + (b - a);
    assert a !! (b - a);
    assert |b| == |a| + |b - a|;
  }
}
