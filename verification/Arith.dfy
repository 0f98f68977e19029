/** Facts about products, quotients and sizes of sets that several parts use. */
module Arith {

  lemma MulLe(x: int, y: int, z: int)
    requires x <= y && 0 <= z
    ensures x * z <= y * z
  {
  }

  lemma MulStep(q: int, u: int)
    ensures (q - 1) * u == q * u - u
  {
  }

  /** A quotient and a remainder found any other way are the operators' values. */
  lemma DivIs(b: int, q: int, r: int, u: int)
    requires 0 <= r < u && b == q * u + r
    ensures b / u == q && b % u == r
  {
    var p := b / u;
    if p < q {
      MulLe(p, q - 1, u);
      MulStep(q, u);
    } else if p > q {
      MulLe(q, p - 1, u);
      MulStep(p, u);
    }
  }

  lemma {:induction false} SubsetCard<T>(a: set<T>, b: set<T>)
    requires a <= b
    ensures |a| <= |b| && (|a| == |b| ==> a == b)
  {
    if a != {} {
      var x :| x in a;
      SubsetCard(a - {x}, b - {x});
    }
  }
}
