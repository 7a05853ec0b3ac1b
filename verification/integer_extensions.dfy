/**
 The public surface of the library: GCD of two, three or more `int`s by the
 Euclidean or the Stein algorithm, each with a timed twin. Every entry point
 validates its arguments first (OutOfRange for an int.MinValue argument,
 InvalidArgument when all are zero), then folds the two-operand algorithm
 over the magnitudes from left to right.
 */
module IntegerExtensions {
  import opened GcdMath
  import opened Contract
  import EuclideanAlgorithm
  import SteinAlgorithm

  /** Which two-operand algorithm a call uses. */
  datatype Algorithm = Euclidean | Stein

  /** The two-operand algorithm on magnitudes. */
  method PairGcd(alg: Algorithm, u: int32, v: int32) returns (g: int32)
    requires 0 <= u && 0 <= v
    ensures 0 <= g && g as int == Gcd(u as int, v as int)
  {
    match alg {
      case Euclidean =>
        g := EuclideanAlgorithm.RemainderLoop(u, v);
      case Stein =>
        g := SteinAlgorithm.BinaryLoop(u, v);
    }
    GcdIsGcd(u as int, v as int);
    IsGcdUnique(g as int, Gcd(u as int, v as int), [u as int, v as int]);
  }

  /** The verdict of argument validation. */
  datatype Verdict = Valid | Rejected(error: GcdError)

  /** The validation every entry point performs before computing, as one scan
      over the arguments: it stops with OutOfRange at the first int.MinValue
      and otherwise remembers whether a non-zero argument went by. A rejected
      call already has its documented outcome. */
  method Validate(args: seq<int32>) returns (v: Verdict)
    ensures v.Rejected? <==> HasMinValue(args) || AllZero(args)
    ensures v.Rejected? ==> Meets(Err(v.error), args)
  {
    var sawNonZero := false;
    var i := 0;
    while i < |args|
      invariant 0 <= i <= |args|
      invariant forall j | 0 <= j < i :: args[j] as int != MinValue
      invariant sawNonZero <==> exists j | 0 <= j < i :: args[j] != 0
    {
      if args[i] as int == MinValue {
        return Rejected(OutOfRange);
      }
      sawNonZero := sawNonZero || args[i] != 0;
      i := i + 1;
    }
    if !sawNonZero {
      return Rejected(InvalidArgument);
    }
    return Valid;
  }

  /** Validates `args`, then runs the two-operand algorithm on the first two
      magnitudes and folds it over the remaining ones, left to right. */
  method Reduce(alg: Algorithm, args: seq<int32>) returns (r: Outcome)
    requires |args| >= 2
    ensures Meets(r, args)
  {
    var verdict := Validate(args);
    if verdict.Rejected? {
      return Err(verdict.error);
    }
    var acc := PairGcd(alg, Magnitude(args[0]), Magnitude(args[1]));
    assert args[..2] == [args[0], args[1]];
    GcdSeqPair(Abs(args[0] as int), Abs(args[1] as int));
    var i := 2;
    while i < |args|
      invariant 2 <= i <= |args|
      invariant 0 <= acc
      invariant acc as int == GcdSeq(Magnitudes(args[..i]))
    {
      assert args[..i + 1] == args[..i] + [args[i]];
      assert Magnitudes(args[..i + 1]) == Magnitudes(args[..i]) + [Abs(args[i] as int)];
      GcdSeqSnoc(Magnitudes(args[..i]), Abs(args[i] as int));
      acc := PairGcd(alg, acc, Magnitude(args[i]));
      i := i + 1;
    }
    assert args[..|args|] == args;
    r := Ok(acc);
    assert r == GcdOutcome(args);
  }

  method EuclideanOfTwo(a: int32, b: int32) returns (r: Outcome)
    ensures Meets(r, [a, b])
  {
    r := Reduce(Euclidean, [a, b]);
  }

  method EuclideanOfThree(a: int32, b: int32, c: int32) returns (r: Outcome)
    ensures Meets(r, [a, b, c])
  {
    r := Reduce(Euclidean, [a, b, c]);
  }

  method EuclideanOfMany(a: int32, b: int32, other: seq<int32>) returns (r: Outcome)
    ensures Meets(r, [a, b] + other)
  {
    r := Reduce(Euclidean, [a, b] + other);
  }

  method SteinOfTwo(a: int32, b: int32) returns (r: Outcome)
    ensures Meets(r, [a, b])
  {
    r := Reduce(Stein, [a, b]);
  }

  method SteinOfThree(a: int32, b: int32, c: int32) returns (r: Outcome)
    ensures Meets(r, [a, b, c])
  {
    r := Reduce(Stein, [a, b, c]);
  }

  /** The variadic Stein call answers 1 without folding as soon as a trailing
      argument has magnitude 1 (after validation). */
  method SteinOfMany(a: int32, b: int32, other: seq<int32>) returns (r: Outcome)
    ensures Meets(r, [a, b] + other)
    ensures r.Ok? && (exists i | 0 <= i < |other| :: Abs(other[i] as int) == 1) ==> r == Ok(1)
  {
    var args := [a, b] + other;
    var verdict := Validate(args);
    if verdict.Rejected? {
      return Err(verdict.error);
    }
    var i := 0;
    while i < |other|
      invariant 0 <= i <= |other|
      invariant forall j | 0 <= j < i :: Abs(other[j] as int) != 1
    {
      if Abs(other[i] as int) == 1 {
        assert Magnitudes(args)[i + 2] == 1;
        GcdSeqWithOne(Magnitudes(args), i + 2);
        r := Ok(1);
        assert r == GcdOutcome(args);
        return;
      }
      i := i + 1;
    }
    r := Reduce(Stein, args);
  }

  // The timed overloads. The clock readings taken around the computation are
  // parameters: a monotonic clock gives `start <= stop`.

  method EuclideanOfTwoTimed(start: int, stop: int, a: int32, b: int32)
    returns (r: Outcome, elapsedTicks: int)
    requires start <= stop
    ensures Meets(r, [a, b]) && elapsedTicks == stop - start
  {
    r := EuclideanOfTwo(a, b);
    elapsedTicks := stop - start;
  }

  method EuclideanOfThreeTimed(start: int, stop: int, a: int32, b: int32, c: int32)
    returns (r: Outcome, elapsedTicks: int)
    requires start <= stop
    ensures Meets(r, [a, b, c]) && elapsedTicks == stop - start
  {
    r := EuclideanOfThree(a, b, c);
    elapsedTicks := stop - start;
  }

  method EuclideanOfManyTimed(start: int, stop: int, a: int32, b: int32, other: seq<int32>)
    returns (r: Outcome, elapsedTicks: int)
    requires start <= stop
    ensures Meets(r, [a, b] + other) && elapsedTicks == stop - start
  {
    r := EuclideanOfMany(a, b, other);
    elapsedTicks := stop - start;
  }

  method SteinOfTwoTimed(start: int, stop: int, a: int32, b: int32)
    returns (r: Outcome, elapsedTicks: int)
    requires start <= stop
    ensures Meets(r, [a, b]) && elapsedTicks == stop - start
  {
    r := SteinOfTwo(a, b);
    elapsedTicks := stop - start;
  }

  method SteinOfThreeTimed(start: int, stop: int, a: int32, b: int32, c: int32)
    returns (r: Outcome, elapsedTicks: int)
    requires start <= stop
    ensures Meets(r, [a, b, c]) && elapsedTicks == stop - start
  {
    r := SteinOfThree(a, b, c);
    elapsedTicks := stop - start;
  }

  method SteinOfManyTimed(start: int, stop: int, a: int32, b: int32, other: seq<int32>)
    returns (r: Outcome, elapsedTicks: int)
    requires start <= stop
    ensures Meets(r, [a, b] + other) && elapsedTicks == stop - start
  {
    r := SteinOfMany(a, b, other);
    elapsedTicks := stop - start;
  }
}
