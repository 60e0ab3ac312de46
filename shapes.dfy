/** The shape shared by rasters and images: rows, and the length of each row. */
module Shapes {

  /** Both have the same number of rows and each row the same length. */
  predicate SameShape<A, B>(a: seq<seq<A>>, b: seq<seq<B>>) {
    |a| == |b| && forall i :: 0 <= i < |a| ==> |a[i]| == |b[i]|
  }
}
