/**
 Stein's binary GCD algorithm on two magnitudes: strip the common powers of
 two, then repeatedly remove trailing zero bits, order the pair and subtract
 the smaller from the larger; finally shift the survivor back up by the
 common power of two. Shifts are written as halving and doubling.
 */
module SteinAlgorithm {
  import opened Divisibility
  import opened GcdMath
  import opened Contract

  /** The number of trailing zero bits two positive numbers share. */
  function CommonTwos(u: nat, v: nat): nat
    requires u > 0 && v > 0
    decreases u
  {
    if u % 2 == 0 && v % 2 == 0 then 1 + CommonTwos(u / 2, v / 2) else 0
  }

  /** Stein's decomposition: the common power of two divides both operands,
      at least one of the remaining odd parts is odd, and the GCD is the GCD
      of the odd parts shifted left by the common power of two. */
  lemma {:induction false} SteinDecomposition(u: nat, v: nat)
    requires u > 0 && v > 0
    ensures var k := CommonTwos(u, v);
      && u == (u / Pow2(k)) * Pow2(k)
      && v == (v / Pow2(k)) * Pow2(k)
      && ((u / Pow2(k)) % 2 == 1 || (v / Pow2(k)) % 2 == 1)
      && Gcd(u, v) == Gcd(u / Pow2(k), v / Pow2(k)) * Pow2(k)
    decreases u
  {
    var k := CommonTwos(u, v);
    if u % 2 == 0 && v % 2 == 0 {
      SteinDecomposition(u / 2, v / 2);
      var p := Pow2(k - 1);
      var u', v' := (u / 2) / p, (v / 2) / p;
      assert u / 2 == u' * p && v / 2 == v' * p;
      assert Pow2(k) == 2 * p;
      assert u == u' * Pow2(k) by {
        MulDouble(u', p);
      }
      assert v == v' * Pow2(k) by {
        MulDouble(v', p);
      }
      DivModUnique(u, Pow2(k), u', 0);
      DivModUnique(v, Pow2(k), v', 0);
      GcdScalePow2(u', v', k);
    } else {
      assert Pow2(k) == 1;
    }
  }

  /** Shifts both positive operands right while both are even, counting the
      shifts. The loop only tracks the shifts; the GCD fact at exit is Stein's
      decomposition. */
  method StripCommonTwos(u: int32, v: int32) returns (a: int32, b: int32, shift: nat)
    requires 0 < u && 0 < v
    ensures shift == CommonTwos(u as int, v as int)
    ensures a as int * Pow2(shift) == u as int && b as int * Pow2(shift) == v as int
    ensures a as int == u as int / Pow2(shift) && b as int == v as int / Pow2(shift)
    ensures 0 < a <= u && 0 < b <= v
    ensures a % 2 == 1 || b % 2 == 1
    ensures Gcd(a as int, b as int) * Pow2(shift) == Gcd(u as int, v as int)
  {
    a, b, shift := u, v, 0;
    while a % 2 == 0 && b % 2 == 0
      invariant 0 < a <= u && 0 < b <= v
      invariant CommonShift(a as int, b as int, shift, u as int, v as int)
      decreases a
    {
      CommonShiftStep(a as int, b as int, shift, u as int, v as int);
      a, b, shift := a / 2, b / 2, shift + 1;
    }
    CommonShiftExit(a as int, b as int, shift, u as int, v as int);
  }

  /** `u` and `v` are `a` and `b` shifted left by `shift`, and those shifts are
      common factors of two. */
  ghost predicate CommonShift(a: nat, b: nat, shift: nat, u: nat, v: nat)
    requires a > 0 && b > 0 && u > 0 && v > 0
  {
    && a * Pow2(shift) == u && b * Pow2(shift) == v
    && shift + CommonTwos(a, b) == CommonTwos(u, v)
  }

  /** One step of the common-shift loop keeps `CommonShift`. */
  lemma CommonShiftStep(a: nat, b: nat, shift: nat, u: nat, v: nat)
    requires a > 0 && b > 0 && u > 0 && v > 0
    requires a % 2 == 0 && b % 2 == 0
    requires CommonShift(a, b, shift, u, v)
    ensures CommonShift(a / 2, b / 2, shift + 1, u, v)
  {
    var p := Pow2(shift);
    assert Pow2(shift + 1) == 2 * p;
    HalfShift(a, p);
    HalfShift(b, p);
  }

  /** Shifting an even number right by one and the factor left by one keeps
      the product. */
  lemma HalfShift(x: nat, p: nat)
    requires x % 2 == 0
    ensures (x / 2) * (2 * p) == x * p
  {
    var h := x / 2;
    assert x == 2 * h;
    MulDouble(h, p);
    assert 2 * (h * p) == (2 * h) * p;
  }

  /** When the loop stops, `shift` is the common number of trailing zero
      bits, `a`, `b` are the operands shifted right by it, and by Stein's
      decomposition their GCD shifted back is the GCD of the operands. */
  lemma CommonShiftExit(a: nat, b: nat, shift: nat, u: nat, v: nat)
    requires a > 0 && b > 0 && u > 0 && v > 0
    requires a % 2 == 1 || b % 2 == 1
    requires CommonShift(a, b, shift, u, v)
    ensures shift == CommonTwos(u, v)
    ensures a == u / Pow2(shift) && b == v / Pow2(shift)
    ensures Gcd(a, b) * Pow2(shift) == Gcd(u, v)
  {
    DivModUnique(u, Pow2(shift), a, 0);
    DivModUnique(v, Pow2(shift), b, 0);
    SteinDecomposition(u, v);
  }

  /** Shifts `a` right until it is odd; the other operand is odd meanwhile. */
  method MakeOdd(a0: int32, b: int32) returns (a: int32)
    requires 0 < a0 && 0 < b
    requires a0 % 2 == 1 || b % 2 == 1
    ensures 0 < a <= a0 && a % 2 == 1
    ensures Gcd(a as int, b as int) == Gcd(a0 as int, b as int)
  {
    a := a0;
    while a % 2 == 0
      invariant 0 < a <= a0
      invariant a % 2 == 1 || b % 2 == 1
      invariant Gcd(a as int, b as int) == Gcd(a0 as int, b as int)
      decreases a
    {
      GcdHalve(a as int, b as int);
      a := a / 2;
    }
  }

  /** Shifts `b` right until it is odd, against an odd `a`. */
  method StripTrailingZeros(a: int32, b0: int32) returns (b: int32)
    requires 0 < a && a % 2 == 1 && 0 < b0
    ensures 0 < b <= b0 && b % 2 == 1
    ensures Gcd(a as int, b as int) == Gcd(a as int, b0 as int)
  {
    b := b0;
    while b % 2 == 0
      invariant 0 < b <= b0
      invariant Gcd(a as int, b as int) == Gcd(a as int, b0 as int)
      decreases b
    {
      GcdCommutes(a as int, b as int);
      GcdHalve(b as int, a as int);
      GcdCommutes(a as int, b as int / 2);
      b := b / 2;
    }
  }

  /** The subtraction loop against an odd `a`: strip the zero bits of `b`,
      order the pair and subtract the smaller from the larger until `b`
      reaches zero. It is a do-while in the binary algorithm; `b` is non-zero
      on entry there, so testing first changes nothing. The pair's sum
      strictly decreases: the larger operand shrinks on every step except the
      last one, where both are equal and `b` becomes zero. */
  method SubtractLoop(a0: int32, b0: int32) returns (g: int32)
    requires 0 < a0 && a0 % 2 == 1 && 0 <= b0
    ensures 0 < g && g as int == Gcd(a0 as int, b0 as int)
  {
    var a, b := a0, b0;
    while b != 0
      invariant 0 < a && 0 <= b
      invariant a % 2 == 1
      invariant Gcd(a as int, b as int) == Gcd(a0 as int, b0 as int)
      decreases a as int + b as int
    {
      b := StripTrailingZeros(a, b);
      if a > b {
        GcdCommutes(a as int, b as int);
        a, b := b, a;
      }
      GcdSubtract(a as int, b as int);
      b := b - a;
    }
    g := a;
  }

  /** The binary algorithm on two non-negative `int`s, with its base cases.
      Every intermediate value is at most the larger operand, and the final
      left shift reproduces the GCD, which is at most `int.MaxValue`, so
      nothing overflows. */
  method BinaryLoop(u: int32, v: int32) returns (g: int32)
    requires 0 <= u && 0 <= v
    ensures g >= 0
    ensures IsGcd(g as int, [u as int, v as int])
  {
    GcdIsGcd(u as int, v as int);
    if u == v {
      GcdSelf(u as int);
      return u;
    }
    if u == 0 {
      GcdZeroLeft(v as int);
      return v;
    }
    if v == 0 {
      return u;
    }
    var a, b, shift := StripCommonTwos(u, v);
    a := MakeOdd(a, b);
    var odd := SubtractLoop(a, b);
    GcdBound(u as int, v as int, MaxValue);
    g := (odd as int * Pow2(shift)) as int32;
  }
}
