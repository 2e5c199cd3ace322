/** The first element of a sequence that satisfies a test: the shape of
    `FirstOrDefault`, `First` and the early-exit `foreach` loops of the
    requirement checker and the controller. */
module Scan {
  import opened Wrappers

  /** The first index from `n` on whose element passes `p`. */
  function FirstFrom<T>(xs: seq<T>, p: T -> bool, n: nat): (r: Option<nat>)
    requires n <= |xs|
    ensures r.Some? ==> n <= r.value < |xs| && p(xs[r.value])
    ensures r.Some? ==> forall i :: n <= i < r.value ==> !p(xs[i])
    ensures r.None? <==> forall i :: n <= i < |xs| ==> !p(xs[i])
    decreases |xs| - n
  {
    if n == |xs| then None
    else if p(xs[n]) then Some(n)
    else FirstFrom(xs, p, n + 1)
  }
}
