/**
 Properties of the documented outcome that relate several calls: how the
 two-argument result depends on its arguments, how the three-argument and
 variadic results decompose into two-argument ones, and why calls of the
 Euclidean, Stein and timed overloads agree.
 */
module GcdProperties {
  import opened Divisibility
  import opened GcdMath
  import opened Contract
  import IntegerExtensions

  /** Left fold of `Gcd` from the front, starting from `acc`: the shape of a
      loop over the trailing arguments of a variadic call. */
  function FoldGcd(acc: nat, xs: seq<nat>): nat
    decreases |xs|
  {
    if |xs| == 0 then acc else FoldGcd(Gcd(acc, xs[0]), xs[1..])
  }

  /** Folding from the front continues the fold from the back. */
  lemma {:induction false} FoldGcdContinues(xs: seq<nat>, ys: seq<nat>)
    ensures FoldGcd(GcdSeq(xs), ys) == GcdSeq(xs + ys)
    decreases |ys|
  {
    if |ys| == 0 {
      assert xs + ys == xs;
    } else {
      GcdSeqSnoc(xs, ys[0]);
      FoldGcdContinues(xs + [ys[0]], ys[1..]);
      assert xs + [ys[0]] + ys[1..] == xs + ys;
    }
  }

  lemma MagnitudesAppend(xs: seq<int32>, ys: seq<int32>)
    ensures Magnitudes(xs + ys) == Magnitudes(xs) + Magnitudes(ys)
  {
  }

  /** The GCD of two arguments is the GCD of their magnitudes, or an error. */
  lemma {:induction false} TwoIsGcd(a: int32, b: int32)
    ensures GcdOutcome([a, b]).Ok? ==>
      GcdOutcome([a, b]).value as int == Gcd(Abs(a as int), Abs(b as int))
  {
    assert Magnitudes([a, b]) == [Abs(a as int), Abs(b as int)];
    GcdSeqPair(Abs(a as int), Abs(b as int));
  }

  /** The two-argument outcome depends only on the magnitudes. */
  lemma TwoDependsOnMagnitudes(a: int32, b: int32, a': int32, b': int32)
    requires Abs(a as int) == Abs(a' as int) && Abs(b as int) == Abs(b' as int)
    ensures GcdOutcome([a, b]) == GcdOutcome([a', b'])
  {
    assert Magnitudes([a, b]) == Magnitudes([a', b']);
    PairValidation(a, b);
    PairValidation(a', b');
  }

  /** The two-argument outcome is symmetric. */
  lemma TwoSymmetric(a: int32, b: int32)
    ensures GcdOutcome([a, b]) == GcdOutcome([b, a])
  {
    TwoIsGcd(a, b);
    TwoIsGcd(b, a);
    GcdCommutes(Abs(a as int), Abs(b as int));
    PairValidation(a, b);
    PairValidation(b, a);
  }

  /** The validation of two arguments looks at each of them. */
  lemma PairValidation(a: int32, b: int32)
    ensures HasMinValue([a, b]) <==> a as int == MinValue || b as int == MinValue
    ensures AllZero([a, b]) <==> a == 0 && b == 0
  {
    assert [a, b][0] == a && [a, b][1] == b;
  }

  /** With a zero argument the result is the other argument's magnitude. */
  lemma TwoWithZero(a: int32)
    requires a != 0 && a as int != MinValue
    ensures GcdOutcome([a, 0]) == Ok(Magnitude(a))
    ensures GcdOutcome([0, a]) == Ok(Magnitude(a))
  {
    TwoIsGcd(a, 0);
    TwoSymmetric(a, 0);
    assert !AllZero([a, 0]) by {
      assert [a, 0][0] == a;
    }
  }

  /** An argument paired with itself yields its magnitude. */
  lemma TwoSelf(a: int32)
    requires a != 0 && a as int != MinValue
    ensures GcdOutcome([a, a]) == Ok(Magnitude(a))
  {
    TwoIsGcd(a, a);
    GcdSelf(Abs(a as int));
    assert !AllZero([a, a]) by {
      assert [a, a][0] == a;
    }
  }

  /** Three arguments: the GCD of the first two, then with the third. */
  lemma ThreeIsNested(a: int32, b: int32, c: int32)
    ensures GcdOutcome([a, b, c]).Ok? ==>
      GcdOutcome([a, b, c]).value as int
        == Gcd(Gcd(Abs(a as int), Abs(b as int)), Abs(c as int))
  {
    var ms := Magnitudes([a, b, c]);
    assert ms == [Abs(a as int), Abs(b as int)] + [Abs(c as int)];
    GcdSeqSnoc([Abs(a as int), Abs(b as int)], Abs(c as int));
    GcdSeqPair(Abs(a as int), Abs(b as int));
  }

  /** Many arguments: the GCD of the first two, folded with each of the
      others in order. */
  lemma ManyIsLeftFold(a: int32, b: int32, other: seq<int32>)
    ensures GcdOutcome([a, b] + other).Ok? ==>
      GcdOutcome([a, b] + other).value as int
        == FoldGcd(Gcd(Abs(a as int), Abs(b as int)), Magnitudes(other))
  {
    MagnitudesAppend([a, b], other);
    assert Magnitudes([a, b]) == [Abs(a as int), Abs(b as int)];
    GcdSeqPair(Abs(a as int), Abs(b as int));
    FoldGcdContinues(Magnitudes([a, b]), Magnitudes(other));
  }

  /** Any two calls meeting the contract of the variadic overload with one
      trailing argument, and of the three-argument overload, agree. */
  lemma ManyWithOneAgreesWithThree(r1: Outcome, r2: Outcome, a: int32, b: int32, c: int32)
    requires Meets(r1, [a, b] + [c]) && Meets(r2, [a, b, c])
    ensures r1 == r2
  {
    assert [a, b] + [c] == [a, b, c];
    MeetsUnique(r1, r2, [a, b, c]);
  }

  /** The properties above carry over to the entry points: the Euclidean call
      on `(a, b)` and the Stein call on `(b, a)` agree. */
  method EuclideanAgreesWithSwappedStein(a: int32, b: int32) returns (r1: Outcome, r2: Outcome)
    ensures r1 == r2 == GcdOutcome([a, b])
  {
    r1 := IntegerExtensions.EuclideanOfTwo(a, b);
    r2 := IntegerExtensions.SteinOfTwo(b, a);
    MeetsIsGcdOutcome(r1, [a, b]);
    MeetsIsGcdOutcome(r2, [b, a]);
    TwoSymmetric(a, b);
  }

  /** Worked examples of the documented outcome with two arguments. */
  lemma ExamplesOfTwo()
    ensures GcdOutcome([12, 18]) == Ok(6)
    ensures GcdOutcome([0, 7]) == Ok(7)
    ensures GcdOutcome([0, 0]) == Err(InvalidArgument)
    ensures GcdOutcome([-0x8000_0000, 4]) == Err(OutOfRange)
  {
    TwoIsGcd(12, 18);
    PairValidation(12, 18);
    assert Gcd(12, 18) == 6 by {
      assert Gcd(18, 12) == Gcd(12, 6) == Gcd(6, 0);
    }
    TwoWithZero(7);
    PairValidation(0, 0);
    PairValidation(-0x8000_0000, 4);
  }

  /** Worked examples of the documented outcome with three arguments. */
  lemma ExamplesOfThree()
    ensures GcdOutcome([48, 18, 12]) == Ok(6)
    ensures GcdOutcome([5, 7, 1]) == Ok(1)
  {
    ThreeIsNested(48, 18, 12);
    ThreeValidation(48, 18, 12);
    GcdOf48And18();
    ThreeIsNested(5, 7, 1);
    ThreeValidation(5, 7, 1);
    GcdWithOne(Gcd(5, 7));
  }

  lemma GcdOf48And18()
    ensures Gcd(Gcd(48, 18), 12) == 6
  {
    assert Gcd(48, 18) == Gcd(18, 12) == Gcd(12, 6) == Gcd(6, 0);
    assert Gcd(6, 12) == Gcd(12, 6);
  }

  /** The validation of three arguments looks at each of them. */
  lemma ThreeValidation(a: int32, b: int32, c: int32)
    ensures HasMinValue([a, b, c]) <==> a as int == MinValue || b as int == MinValue || c as int == MinValue
    ensures AllZero([a, b, c]) <==> a == 0 && b == 0 && c == 0
  {
    assert [a, b, c][0] == a && [a, b, c][1] == b && [a, b, c][2] == c;
  }
}
