/**
 The Euclidean algorithm on two magnitudes: replace `(a, b)` by
 `(b, a mod b)` until `b` is zero; `a` is then the GCD.
 */
module EuclideanAlgorithm {
  import opened GcdMath
  import opened Contract

  /** The remainder-exchange loop on two non-negative `int`s. Every value it
      holds is one of the operands or a remainder, so it stays in range. */
  method RemainderLoop(u: int32, v: int32) returns (g: int32)
    requires 0 <= u && 0 <= v
    ensures g >= 0
    ensures IsGcd(g as int, [u as int, v as int])
  {
    var a, b := u, v;
    while b != 0
      invariant 0 <= a && 0 <= b
      invariant Gcd(a as int, b as int) == Gcd(u as int, v as int)
      decreases b
    {
      a, b := b, a % b;
    }
    g := a;
    GcdIsGcd(u as int, v as int);
  }
}
