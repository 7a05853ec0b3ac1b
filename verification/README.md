# GCD of integers by the Euclidean and Stein algorithms

A Dafny model of `Gcd.IntegerExtensions`, a stateless C# library. It computes
the greatest common divisor of two, three or more `int`s. Two algorithms are
offered: the Euclidean remainder algorithm and Stein's binary algorithm.
Each of the six entry points has a timed twin that also reports the elapsed
clock ticks.

The C# method bodies are unimplemented (`throw new NotImplementedException`).
Their documentation comments are the whole contract:

- arguments are `int`s from `[-int.MaxValue; int.MaxValue]`;
- the result is "the GCD value";
- `ArgumentException` is thrown when all arguments are 0;
- `ArgumentOutOfRangeException` is thrown when an argument is `int.MinValue`.

The model gives each entry point a body that meets this contract and proves
it. Each summary names an algorithm, and the model implements that algorithm.

## Layout

- `divisibility.dfy` (`Divisibility`): divisibility on naturals (0 divides only 0), with the usual closure lemmas.
- `gcd_math.dfy` (`GcdMath`): the mathematical GCD.
  - `IsGcd(g, xs)` says `g` divides every element of `xs` and every common divisor divides `g`.
  - `Gcd` is the remainder-exchange recursion and `GcdSeq` is its left fold over a sequence.
  - The identities Stein's algorithm needs: symmetry, subtraction, halving against an odd operand, doubling.
- `contract.dfy` (`Contract`): the documented contract.
  - `int32` is the C# `int`.
  - `Outcome` is `Ok(value)` or `Err(InvalidArgument | OutOfRange)`; the two errors replace the two exceptions.
  - `Meets(r, args)` states the doc comments.
  - `GcdOutcome(args)` is a reference outcome.
  - `MeetsUnique` shows the contract fixes the outcome.
- `euclidean.dfy` (`EuclideanAlgorithm`): the remainder-exchange loop on `int32` magnitudes.
- `stein.dfy` (`SteinAlgorithm`): the binary algorithm on `int32` magnitudes.
  - The phases: strip common factors of two, make `a` odd, then the subtraction loop.
  - The final left shift is proved not to overflow.
- `integer_extensions.dfy` (`IntegerExtensions`): the twelve public overloads.
  - Validation comes first.
  - The two-operand algorithm is applied to the first two magnitudes, then folded over the remaining ones.
  - The variadic Stein overload answers 1 directly when a trailing argument has magnitude 1.
- `properties.dfy` (`GcdProperties`): properties relating calls.
  - Magnitude-only dependence, symmetry, `gcd(a, 0) = |a|` and `gcd(a, a) = |a|`.
  - The three-argument result is nested, and the variadic result is a left fold.
  - The Euclidean and swapped Stein entry points agree.
  - Worked examples.

Design decisions:

- The result is always non-negative. The C# text says only "the GCD value" and fixes no sign. Over `int`, `-g` divides the same numbers and is divided by the same numbers as `g`, so the sign is a convention: the model fixes the non-negative GCD (`r.value >= 0` in `Meets`).
- Neither failure needs to be checked first: an all-zero argument list never contains `int.MinValue` (`Contract.ErrorsExclusive`).
- The three-argument and variadic overloads of both families are left folds of the two-operand algorithm. They accept zeros among the leading arguments: `(0, 0, 5)` yields 5, because not *all* numbers are 0.
- Shifts are modelled as halving and doubling of non-negative values, and bit tests as parity tests.
- The subtraction loop of Stein's algorithm is a do-while. Its operand `b` is non-zero on entry, so it is modelled as a `while`. Termination uses the sum of the pair as the measure. Every subtraction shrinks the larger operand, except the last one, where both operands are equal and `b` becomes 0.
- Clock readings are parameters of the timed overloads (`start <= stop`, as for a monotonic clock). `elapsedTicks` is `stop - start`.

## Model

| member | source | states |
|---|---|---|
| `Contract.GcdOutcome` | Gcd/IntegerExtensions.cs:10-17 | For any argument list: OutOfRange exactly when an argument is int.MinValue; InvalidArgument exactly when all are 0; otherwise a non-negative `int` that divides every argument and that every common divisor of the arguments divides |
| `Contract.MeetsUnique` | Gcd/IntegerExtensions.cs:15-17 | Given the non-negative-result convention, the documented result and exceptions determine the outcome. Any two implementations meeting them (Euclidean vs Stein, timed vs untimed, same arity) return the same value or raise the same error |
| `Contract.OkIsGreatest` | Gcd/IntegerExtensions.cs:11-15 | A successful result is positive, at most the magnitude of every non-zero argument (so it fits in `int`), and at least every common divisor |
| `Contract.MeetsIsGcdOutcome` | Gcd/IntegerExtensions.cs:15-17 | Every call meeting the documented contract returns the reference outcome, so the properties proved of the reference outcome hold of every entry point |
| `Contract.ErrorsExclusive` | Gcd/IntegerExtensions.cs:16-17 | No argument list both is all zero and contains int.MinValue |
| `GcdMath.GcdIsGcd` | Gcd/IntegerExtensions.cs:11 | The Euclidean remainder-exchange recursion yields a common divisor that every common divisor divides |
| `GcdMath.IsGcdUnique` | Gcd/IntegerExtensions.cs:15 | "The GCD value" is well defined: an argument list has at most one GCD in the divisibility sense |
| `GcdMath.GcdSeqIsGcd` | Gcd/IntegerExtensions.cs:37-46 | Folding the pairwise GCD over a sequence yields the GCD of the whole sequence |
| `GcdMath.GcdSubtract` | Gcd/IntegerExtensions.cs:52 | Subtracting the smaller operand from the larger (Stein's step) keeps the GCD |
| `GcdMath.GcdHalve` | Gcd/IntegerExtensions.cs:52 | Removing a trailing zero bit from one operand keeps the GCD when the other is odd |
| `GcdMath.GcdScalePow2` | Gcd/IntegerExtensions.cs:52 | Shifting both operands left by `k` shifts their GCD left by `k` |
| `EuclideanAlgorithm.RemainderLoop` | Gcd/IntegerExtensions.cs:10-21 | The loop replacing `(a, b)` by `(b, a mod b)` until `b` is 0 returns the GCD of two non-negative `int`s and stays within `int` |
| `SteinAlgorithm.SteinDecomposition` | Gcd/IntegerExtensions.cs:51-62 | For positive operands, the common power of two divides both, and at least one quotient is odd. The GCD is the GCD of the quotients shifted left by the common power of two; the common-shift loop takes its GCD fact from here |
| `SteinAlgorithm.StripCommonTwos` | Gcd/IntegerExtensions.cs:51-62 | The common-shift loop stops after exactly as many shifts as the operands share trailing zero bits. It leaves the operands shifted right by that count with nothing lost (shifting back gives the operands), at least one of them odd, with the GCD preserved up to the shift |
| `SteinAlgorithm.MakeOdd` | Gcd/IntegerExtensions.cs:51-62 | Stripping trailing zero bits from the first operand yields an odd value with the same GCD against the other (odd) operand |
| `SteinAlgorithm.StripTrailingZeros` | Gcd/IntegerExtensions.cs:51-62 | Stripping trailing zero bits from the second operand against an odd first operand yields an odd value with the same GCD |
| `SteinAlgorithm.SubtractLoop` | Gcd/IntegerExtensions.cs:51-62 | The strip/order/subtract loop terminates and returns the GCD of its operands |
| `SteinAlgorithm.BinaryLoop` | Gcd/IntegerExtensions.cs:51-62 | The binary algorithm with its base cases returns the GCD of two non-negative `int`s, and the final left shift does not overflow |
| `IntegerExtensions.PairGcd` | Gcd/IntegerExtensions.cs:18-59 | The Euclidean and Stein two-operand algorithms return the same value, the GCD of the magnitudes |
| `IntegerExtensions.Validate` | Gcd/IntegerExtensions.cs:16-17 | One scan over the arguments, stopping at the first int.MinValue and noting whether a non-zero argument went by, rejects a call exactly when an argument is int.MinValue or all arguments are 0, and the rejection carries the documented error |
| `IntegerExtensions.Reduce` | Gcd/IntegerExtensions.cs:23-49 | Validating, then folding the two-operand algorithm left to right over the magnitudes, meets the documented contract for any argument list of length at least two |
| `IntegerExtensions.EuclideanOfTwo` | Gcd/IntegerExtensions.cs:10-21 | Meets the documented contract for `(a, b)` |
| `IntegerExtensions.EuclideanOfThree` | Gcd/IntegerExtensions.cs:23-35 | Meets the documented contract for `(a, b, c)` |
| `IntegerExtensions.EuclideanOfMany` | Gcd/IntegerExtensions.cs:37-49 | Meets the documented contract for `a, b` and all of `other`; the zero and int.MinValue checks look at every element of `other` |
| `IntegerExtensions.SteinOfTwo` | Gcd/IntegerExtensions.cs:51-62 | Meets the documented contract for `(a, b)` |
| `IntegerExtensions.SteinOfThree` | Gcd/IntegerExtensions.cs:64-76 | Meets the documented contract for `(a, b, c)` |
| `IntegerExtensions.SteinOfMany` | Gcd/IntegerExtensions.cs:78-90 | Meets the documented contract for `a, b` and all of `other`; a successful call with a trailing argument of magnitude 1 returns 1 |
| `IntegerExtensions.EuclideanOfTwoTimed` | Gcd/IntegerExtensions.cs:92-104 | Same documented outcome as the untimed call; the elapsed ticks are the clock difference |
| `IntegerExtensions.EuclideanOfThreeTimed` | Gcd/IntegerExtensions.cs:106-119 | Same documented outcome as the untimed call; the elapsed ticks are the clock difference |
| `IntegerExtensions.EuclideanOfManyTimed` | Gcd/IntegerExtensions.cs:121-134 | Same documented outcome as the untimed call; the elapsed ticks are the clock difference |
| `IntegerExtensions.SteinOfTwoTimed` | Gcd/IntegerExtensions.cs:136-148 | Same documented outcome as the untimed call; the elapsed ticks are the clock difference |
| `IntegerExtensions.SteinOfThreeTimed` | Gcd/IntegerExtensions.cs:150-163 | Same documented outcome as the untimed call; the elapsed ticks are the clock difference |
| `IntegerExtensions.SteinOfManyTimed` | Gcd/IntegerExtensions.cs:165-178 | Same documented outcome as the untimed call; the elapsed ticks are the clock difference |
| `GcdProperties.TwoDependsOnMagnitudes` | Gcd/IntegerExtensions.cs:10-18 | Two calls whose arguments have the same magnitudes have the same outcome |
| `GcdProperties.TwoSymmetric` | Gcd/IntegerExtensions.cs:10-18 | Swapping the two arguments does not change the outcome |
| `GcdProperties.TwoWithZero` | Gcd/IntegerExtensions.cs:10-18 | With one argument 0 and the other `a` (neither 0 nor int.MinValue), the result is `|a|`, in either order |
| `GcdProperties.TwoSelf` | Gcd/IntegerExtensions.cs:10-18 | `gcd(a, a) = |a|` for `a` neither 0 nor int.MinValue |
| `GcdProperties.ThreeIsNested` | Gcd/IntegerExtensions.cs:23-32 | A successful three-argument result is `gcd(gcd(|a|, |b|), |c|)` |
| `GcdProperties.ManyIsLeftFold` | Gcd/IntegerExtensions.cs:37-46 | A successful variadic result is the front-to-back fold of the pairwise GCD over `other`, starting from `gcd(|a|, |b|)` |
| `GcdProperties.FoldGcdContinues` | Gcd/IntegerExtensions.cs:37-46 | Folding front to back from the GCD of a prefix gives the GCD of the whole list |
| `GcdProperties.ManyWithOneAgreesWithThree` | Gcd/IntegerExtensions.cs:32-46 | The variadic overload with `other = [c]` agrees with the three-argument overload |
| `GcdProperties.EuclideanAgreesWithSwappedStein` | Gcd/IntegerExtensions.cs:10-62 | The Euclidean call on `(a, b)` and the Stein call on `(b, a)` return the same outcome, the reference outcome for `(a, b)` |
| `GcdProperties.ExamplesOfTwo` | Gcd/IntegerExtensions.cs:10-18 | gcd(12, 18) = 6, gcd(0, 7) = 7, (0, 0) is InvalidArgument, (int.MinValue, 4) is OutOfRange |
| `GcdProperties.ExamplesOfThree` | Gcd/IntegerExtensions.cs:23-32 | gcd(48, 18, 12) = 6, gcd(5, 7, 1) = 1 |

## Left out

- Elapsed time: the clock and `Stopwatch` are not modelled. The readings before and after the computation are parameters, and a failing timed call still reports their difference, although C# delivers no `out` value when it throws.
- The .NET exception types: the two exceptions are the constructors of `GcdError` in a returned `Outcome`.
- `params int[]` as a mutable, possibly null array: `other` is an immutable sequence, so a null `other` cannot be expressed.
- Sign conventions other than the non-negative GCD: the C# text fixes none, and `-g` satisfies the divisibility characterisation as well as `g`. The model chooses the non-negative value, and its uniqueness results (`Contract.MeetsUnique`) hold under that choice.
- A three-operand variant of the Stein loop: the C# bodies contain no algorithm, and the three-argument Stein overload folds the two-operand Stein algorithm over its arguments.
- `int` arithmetic as bit operations: `>>`, `<<`, `& 1` and `|` are modelled as halving, doubling and parity tests on non-negative values, where they coincide.
- SteinAlgorithm.SubtractLoop: termination is proved with the sum of the pair as the measure, not the larger operand. The larger operand stays the same on the final step, where both operands are equal and `b` becomes 0.
