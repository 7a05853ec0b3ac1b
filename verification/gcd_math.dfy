/**
 The mathematical greatest common divisor on natural numbers, its
 characterisation by divisibility, and the identities the Euclidean and
 Stein algorithms rely on. GCD(0, 0) is 0 here; the library itself rejects
 the all-zero case before any of this is used.
 */
module GcdMath {
  import opened Divisibility

  /** `d` divides every element of `xs`. */
  predicate CommonDivisor(d: nat, xs: seq<nat>) {
    forall i | 0 <= i < |xs| :: Divides(d, xs[i])
  }

  /** `g` is a greatest common divisor of `xs`: a common divisor that every
      common divisor divides. */
  ghost predicate IsGcd(g: nat, xs: seq<nat>) {
    && CommonDivisor(g, xs)
    && forall d: nat :: CommonDivisor(d, xs) ==> Divides(d, g)
  }

  /** The GCD of two numbers, by remainder exchange. */
  function Gcd(a: nat, b: nat): nat
    decreases b
  {
    if b == 0 then a else Gcd(b, a % b)
  }

  /** Left fold of `Gcd` over a sequence; the empty sequence has GCD 0. */
  function GcdSeq(xs: seq<nat>): nat {
    if |xs| == 0 then 0 else Gcd(GcdSeq(xs[..|xs| - 1]), xs[|xs| - 1])
  }

  /** 2 to the power `k`: the factor a left shift by `k` bits multiplies by. */
  function Pow2(k: nat): (p: nat)
    ensures p > 0
  {
    if k == 0 then 1 else 2 * Pow2(k - 1)
  }

  lemma CommonDivisorPair(d: nat, a: nat, b: nat)
    ensures CommonDivisor(d, [a, b]) <==> Divides(d, a) && Divides(d, b)
  {
    assert [a, b][0] == a && [a, b][1] == b;
  }

  /** Two lists with the same common divisors have the same GCDs. */
  lemma IsGcdSameDivisors(g: nat, xs: seq<nat>, ys: seq<nat>)
    requires IsGcd(g, xs)
    requires forall d: nat :: CommonDivisor(d, xs) <==> CommonDivisor(d, ys)
    ensures IsGcd(g, ys)
  {
  }

  /** A list has at most one GCD. */
  lemma IsGcdUnique(g1: nat, g2: nat, xs: seq<nat>)
    requires IsGcd(g1, xs) && IsGcd(g2, xs)
    ensures g1 == g2
  {
    assert Divides(g1, g2);
    assert Divides(g2, g1);
    DividesAntisymmetric(g1, g2);
  }

  /** The GCD of a list with a non-zero element is positive and bounds every
      common divisor from above: it is the greatest one. */
  lemma IsGcdGreatest(g: nat, xs: seq<nat>, i: nat, d: nat)
    requires IsGcd(g, xs) && i < |xs| && xs[i] > 0
    requires CommonDivisor(d, xs)
    ensures 0 < d <= g
  {
    assert Divides(g, xs[i]);
    DividesBound(g, xs[i]);
    assert Divides(d, g);
    DividesBound(d, g);
  }

  /** The remainder-exchange recursion computes a GCD. */
  lemma {:induction false} GcdIsGcd(a: nat, b: nat)
    ensures IsGcd(Gcd(a, b), [a, b])
    decreases b
  {
    var g := Gcd(a, b);
    if b == 0 {
      DividesSelf(a);
      DividesZero(a);
      CommonDivisorPair(a, a, 0);
      forall d: nat | CommonDivisor(d, [a, b])
        ensures Divides(d, g)
      {
        CommonDivisorPair(d, a, b);
      }
    } else {
      GcdIsGcd(b, a % b);
      assert g == Gcd(b, a % b);
      forall d: nat
        ensures CommonDivisor(d, [a, b]) <==> CommonDivisor(d, [b, a % b])
      {
        CommonDivisorPair(d, a, b);
        CommonDivisorPair(d, b, a % b);
        if Divides(d, b) {
          DividesMod(d, a, b);
        }
      }
      IsGcdSameDivisors(g, [b, a % b], [a, b]);
    }
  }

  /** Both arguments are divisible by their GCD, and it is the greatest
      common divisor of the pair. */
  lemma GcdDivides(a: nat, b: nat)
    ensures Divides(Gcd(a, b), a) && Divides(Gcd(a, b), b)
    ensures forall d: nat :: Divides(d, a) && Divides(d, b) ==> Divides(d, Gcd(a, b))
  {
    GcdIsGcd(a, b);
    CommonDivisorPair(Gcd(a, b), a, b);
    forall d: nat | Divides(d, a) && Divides(d, b)
      ensures Divides(d, Gcd(a, b))
    {
      CommonDivisorPair(d, a, b);
    }
  }

  /** Any number with the divisibility characterisation is the GCD. */
  lemma GcdCharacterised(g: nat, a: nat, b: nat)
    requires Divides(g, a) && Divides(g, b)
    requires forall d: nat :: Divides(d, a) && Divides(d, b) ==> Divides(d, g)
    ensures g == Gcd(a, b)
  {
    GcdDivides(a, b);
    DividesAntisymmetric(g, Gcd(a, b));
  }

  lemma GcdCommutes(a: nat, b: nat)
    ensures Gcd(a, b) == Gcd(b, a)
  {
    GcdDivides(a, b);
    GcdDivides(b, a);
    GcdCharacterised(Gcd(a, b), b, a);
  }

  lemma GcdZeroLeft(b: nat)
    ensures Gcd(0, b) == b
  {
    GcdCommutes(0, b);
  }

  lemma GcdSelf(a: nat)
    ensures Gcd(a, a) == a
  {
    DividesSelf(a);
    GcdCharacterised(a, a, a);
  }

  lemma GcdWithOne(a: nat)
    ensures Gcd(a, 1) == 1
  {
    OneDivides(a);
    OneDivides(1);
    GcdCharacterised(1, a, 1);
  }

  /** The GCD of two numbers bounded by `m` is bounded by `m`. */
  lemma GcdBound(a: nat, b: nat, m: nat)
    requires a <= m && b <= m
    ensures Gcd(a, b) <= m
  {
    GcdDivides(a, b);
    if b > 0 {
      DividesBound(Gcd(a, b), b);
    } else {
      DividesZero(a);
      DividesSelf(a);
      GcdCharacterised(a, a, 0);
    }
  }

  /** Subtracting the smaller operand from the larger keeps the GCD. */
  lemma GcdSubtract(a: nat, b: nat)
    requires a <= b
    ensures Gcd(a, b) == Gcd(a, b - a)
  {
    var g := Gcd(a, b - a);
    GcdDivides(a, b - a);
    DividesAdd(g, a, b - a);
    forall d: nat | Divides(d, a) && Divides(d, b)
      ensures Divides(d, g)
    {
      DividesSub(d, b, a);
    }
    GcdCharacterised(g, a, b);
  }

  /** Halving an even operand keeps the GCD when the other operand is odd. */
  lemma GcdHalve(a: nat, b: nat)
    requires a % 2 == 0 && b % 2 == 1
    ensures Gcd(a, b) == Gcd(a / 2, b)
  {
    var g := Gcd(a / 2, b);
    GcdDivides(a / 2, b);
    assert a == (a / 2) * 2;
    DividesScaled(g, a / 2, 2);
    forall d: nat | Divides(d, a) && Divides(d, b)
      ensures Divides(d, g)
    {
      DivisorOfOddIsOdd(d, b);
      OddDividesHalf(d, a / 2);
    }
    GcdCharacterised(g, a, b);
  }

  /** Doubling both operands doubles the GCD. */
  lemma {:induction false} GcdDouble(a: nat, b: nat)
    ensures Gcd(2 * a, 2 * b) == 2 * Gcd(a, b)
    decreases b
  {
    if b > 0 {
      DivModUnique(2 * a, 2 * b, a / b, 2 * (a % b));
      assert (2 * a) % (2 * b) == 2 * (a % b);
      GcdDouble(b, a % b);
    }
  }

  /** Scaling both operands by `2^k` scales the GCD by `2^k`. */
  lemma {:induction false} GcdScalePow2(a: nat, b: nat, k: nat)
    ensures Gcd(a * Pow2(k), b * Pow2(k)) == Gcd(a, b) * Pow2(k)
  {
    if k > 0 {
      var p := Pow2(k - 1);
      GcdScalePow2(a, b, k - 1);
      GcdDouble(a * p, b * p);
      MulDouble(a, p);
      MulDouble(b, p);
      MulDouble(Gcd(a, b), p);
    }
  }

  lemma MulDouble(x: nat, p: nat)
    ensures x * (2 * p) == 2 * (x * p)
  {
  }

  lemma CommonDivisorSnoc(d: nat, xs: seq<nat>, x: nat)
    ensures CommonDivisor(d, xs + [x]) <==> CommonDivisor(d, xs) && Divides(d, x)
  {
    var ys := xs + [x];
    assert ys[|xs|] == x;
    assert forall i | 0 <= i < |xs| :: ys[i] == xs[i];
  }

  /** The fold of `Gcd` over a sequence is the GCD of the whole sequence. */
  lemma {:induction false} GcdSeqIsGcd(xs: seq<nat>)
    ensures IsGcd(GcdSeq(xs), xs)
  {
    if |xs| == 0 {
      DividesSelf(0);
      forall d: nat ensures Divides(d, 0) {
        DividesZero(d);
      }
    } else {
      var init, last := xs[..|xs| - 1], xs[|xs| - 1];
      assert xs == init + [last];
      GcdSeqIsGcd(init);
      var h := GcdSeq(init);
      var g := Gcd(h, last);
      GcdDivides(h, last);
      DividesTransitive(g, h, h);
      forall i | 0 <= i < |init|
        ensures Divides(g, init[i])
      {
        DividesTransitive(g, h, init[i]);
      }
      CommonDivisorSnoc(g, init, last);
      forall d: nat | CommonDivisor(d, xs)
        ensures Divides(d, g)
      {
        CommonDivisorSnoc(d, init, last);
      }
    }
  }

  /** The fold of `Gcd` stays below any bound its elements respect. */
  lemma {:induction false} GcdSeqBound(xs: seq<nat>, m: nat)
    requires forall i | 0 <= i < |xs| :: xs[i] <= m
    ensures GcdSeq(xs) <= m
  {
    if |xs| > 0 {
      GcdSeqBound(xs[..|xs| - 1], m);
      GcdBound(GcdSeq(xs[..|xs| - 1]), xs[|xs| - 1], m);
    }
  }

  /** The GCD of a sequence containing 1 is 1. */
  lemma GcdSeqWithOne(xs: seq<nat>, i: nat)
    requires i < |xs| && xs[i] == 1
    ensures GcdSeq(xs) == 1
  {
    GcdSeqIsGcd(xs);
    var g := GcdSeq(xs);
    assert Divides(g, 1);
    DividesBound(g, 1);
  }

  /** Appending one element folds it into the running GCD. */
  lemma GcdSeqSnoc(xs: seq<nat>, x: nat)
    ensures GcdSeq(xs + [x]) == Gcd(GcdSeq(xs), x)
  {
    assert (xs + [x])[..|xs|] == xs;
  }

  /** The fold over two elements is their GCD. */
  lemma GcdSeqPair(x: nat, y: nat)
    ensures GcdSeq([x, y]) == Gcd(x, y)
  {
    GcdSeqSnoc([], x);
    GcdSeqSnoc([x], y);
    assert [x] + [y] == [x, y];
    GcdZeroLeft(x);
  }
}
