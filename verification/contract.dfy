/**
 The contract every GCD entry point documents: arguments are 32-bit signed
 integers; a call whose arguments are all zero fails with InvalidArgument; a
 call with an argument equal to int.MinValue fails with OutOfRange; any other
 call returns the GCD of the arguments, a value that divides every argument
 and that every common divisor of the arguments divides.
 */
module Contract {
  import opened Divisibility
  import opened GcdMath

  const MinValue: int := -0x8000_0000
  const MaxValue: int := 0x7FFF_FFFF

  /** The C# `int` type. */
  newtype int32 = x: int | -0x8000_0000 <= x < 0x8000_0000

  /** The two documented failures: ArgumentException when all arguments are
      zero, ArgumentOutOfRangeException when one is int.MinValue. */
  datatype GcdError = InvalidArgument | OutOfRange

  /** What a call produces: a GCD value, or the error it throws. */
  datatype Outcome = Ok(value: int32) | Err(error: GcdError)

  function Abs(x: int): nat {
    if x < 0 then -x else x
  }

  /** The magnitude of an argument other than int.MinValue, whose magnitude
      does not fit in an `int32`. */
  function Magnitude(x: int32): (m: int32)
    requires x as int != MinValue
    ensures m >= 0 && m as int == Abs(x as int)
  {
    if x < 0 then -x else x
  }

  /** The magnitudes of the arguments: the numbers whose divisors the GCD
      speaks of (an integer's divisors are those of its magnitude). */
  function Magnitudes(args: seq<int32>): (ms: seq<nat>)
    ensures |ms| == |args|
    ensures forall i | 0 <= i < |args| :: ms[i] == Abs(args[i] as int)
  {
    seq(|args|, i requires 0 <= i < |args| => Abs(args[i] as int))
  }

  predicate HasMinValue(args: seq<int32>) {
    exists i | 0 <= i < |args| :: args[i] as int == MinValue
  }

  predicate AllZero(args: seq<int32>) {
    forall i | 0 <= i < |args| :: args[i] == 0
  }

  /** The documented contract of a call with arguments `args` that produced `r`. */
  ghost predicate Meets(r: Outcome, args: seq<int32>) {
    && (r == Err(OutOfRange) <==> HasMinValue(args))
    && (r == Err(InvalidArgument) <==> AllZero(args))
    && (r.Ok? ==> r.value >= 0 && IsGcd(r.value as int, Magnitudes(args)))
  }

  /** The outcome of a call, computed from the mathematical GCD of the
      magnitudes. */
  function GcdOutcome(args: seq<int32>): (r: Outcome)
    ensures Meets(r, args)
  {
    if HasMinValue(args) then
      Err(OutOfRange)
    else if AllZero(args) then
      Err(InvalidArgument)
    else
      var ms := Magnitudes(args);
      GcdSeqIsGcd(ms);
      GcdSeqBound(ms, MaxValue);
      Ok(GcdSeq(ms) as int32)
  }

  /** The contract determines the outcome: any two calls that meet it for the
      same arguments, whatever algorithm they run, agree on value and error. */
  lemma MeetsUnique(r1: Outcome, r2: Outcome, args: seq<int32>)
    requires Meets(r1, args) && Meets(r2, args)
    ensures r1 == r2
  {
    if HasMinValue(args) {
      assert r1 == Err(OutOfRange) && r2 == Err(OutOfRange);
    } else if AllZero(args) {
      assert r1 == Err(InvalidArgument) && r2 == Err(InvalidArgument);
    } else {
      ErrorIsDocumented(r1);
      ErrorIsDocumented(r2);
      IsGcdUnique(r1.value as int, r2.value as int, Magnitudes(args));
    }
  }

  /** A call that meets the contract returns the reference outcome, so every
      property of `GcdOutcome` holds of every entry point. */
  lemma MeetsIsGcdOutcome(r: Outcome, args: seq<int32>)
    requires Meets(r, args)
    ensures r == GcdOutcome(args)
  {
    MeetsUnique(r, GcdOutcome(args), args);
  }

  lemma ErrorIsDocumented(r: Outcome)
    ensures r.Ok? || r == Err(OutOfRange) || r == Err(InvalidArgument)
  {
    match r
    case Ok(_) =>
    case Err(e) => assert e == OutOfRange || e == InvalidArgument;
  }

  /** A successful call returns a positive value no larger than the magnitude
      of any non-zero argument, and no common divisor exceeds it. */
  lemma OkIsGreatest(r: Outcome, args: seq<int32>, i: nat, d: nat)
    requires Meets(r, args) && r.Ok?
    requires i < |args| && args[i] != 0
    requires forall j | 0 <= j < |args| :: Divides(d, Abs(args[j] as int))
    ensures 0 < d <= r.value as int <= Abs(args[i] as int)
  {
    var ms := Magnitudes(args);
    var g := r.value as int;
    IsGcdGreatest(g, ms, i, d);
    assert Divides(g, ms[i]);
    DividesBound(g, ms[i]);
  }

  /** All-zero arguments contain no int.MinValue, so a call never has both
      reasons to fail and the order of the two checks is immaterial. */
  lemma ErrorsExclusive(args: seq<int32>)
    ensures !(AllZero(args) && HasMinValue(args))
  {
  }
}
