/** Division and remainder by a positive divisor, and products of sizes. */
module Arithmetic {

  lemma MulMonotone(a: int, b: int, w: int)
    requires a <= b && w >= 0
    ensures a * w <= b * w
  {
    assert (b - a) * w >= 0;
  }

  /** Quotient and remainder are determined by the division equation. */
  lemma DivModUnique(x: int, w: int, q: int, r: int)
    requires w > 0 && x == q * w + r && 0 <= r < w
    ensures x / w == q && x % w == r
  {
    var q', r' := x / w, x % w;
    assert x == q' * w + r';
    assert (q' + 1) * w == q' * w + w && (q + 1) * w == q * w + w;
    if q' < q {
      MulMonotone(q' + 1, q, w);
    } else if q' > q {
      MulMonotone(q + 1, q', w);
    }
  }

  predicate AllPositive(dims: seq<int>) {
    forall i :: 0 <= i < |dims| ==> dims[i] > 0
  }

  function Product(dims: seq<int>): (p: int)
    ensures AllPositive(dims) ==> p > 0
  {
    if dims == [] then 1
    else
      assert AllPositive(dims) ==> AllPositive(dims[1..]);
      dims[0] * Product(dims[1..])
  }
}
