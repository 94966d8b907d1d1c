/** Front-to-back search in a sequence, the shape of Rust's
    `Iterator::find` and `Iterator::position`. */
module Seqs {
  import opened Wrappers

  /** The position of the first element at or after `from` that
      satisfies `p`. */
  function FirstIndex<T>(xs: seq<T>, p: T -> bool, from: nat): (r: Option<nat>)
    ensures r.Some? ==> from <= r.value < |xs| && p(xs[r.value])
    ensures r.Some? ==> forall j :: from <= j < r.value ==> !p(xs[j])
    ensures r.None? <==> forall j :: from <= j < |xs| ==> !p(xs[j])
    decreases |xs| - from
  {
    if from >= |xs| then None
    else if p(xs[from]) then Some(from)
    else FirstIndex(xs, p, from + 1)
  }
}
