/**
 Divisibility on natural numbers: the vocabulary in which the GCD contract
 ("the result divides every argument, every common divisor divides the
 result") is stated. Zero divides only zero; every number divides zero.
 */
module Divisibility {

  /** `d` divides `n`. */
  predicate Divides(d: nat, n: nat) {
    if d == 0 then n == 0 else n % d == 0
  }

  /** Quotient and remainder are unique: if `n == d * q + r` with `0 <= r < d`,
      then they are the ones Dafny's `/` and `%` compute. */
  lemma DivModUnique(n: int, d: int, q: int, r: int)
    requires d > 0 && 0 <= r < d && n == d * q + r
    ensures n / d == q && n % d == r
  {
    var q0, r0 := n / d, n % d;
    assert d * q0 + r0 == d * q + r;
    var m := q - q0;
    assert d * m == r0 - r by {
      assert d * q == d * q0 + d * m;
    }
    if m >= 1 {
      MulAtLeast(d, m);
    }
  }

  lemma MulAtLeast(d: nat, m: int)
    requires m >= 1
    ensures d * m >= d
  {
  }

  /** Every multiple of `d` is divisible by `d`. */
  lemma DividesMultiple(d: nat, k: nat)
    ensures Divides(d, d * k)
  {
    if d > 0 {
      DivModUnique(d * k, d, k, 0);
    }
  }

  /** A divisor yields an exact quotient. */
  lemma Quotient(d: nat, n: nat) returns (k: nat)
    requires Divides(d, n)
    ensures n == d * k
  {
    if d == 0 {
      k := 0;
    } else {
      k := n / d;
    }
  }

  lemma DividesZero(d: nat)
    ensures Divides(d, 0)
  {
    DividesMultiple(d, 0);
  }

  lemma DividesSelf(n: nat)
    ensures Divides(n, n)
  {
    DividesMultiple(n, 1);
  }

  lemma OneDivides(n: nat)
    ensures Divides(1, n)
  {
    DividesMultiple(1, n);
  }

  /** A divisor of a positive number is positive and not larger. */
  lemma DividesBound(d: nat, n: nat)
    requires Divides(d, n) && n > 0
    ensures 0 < d <= n
  {
    var k := Quotient(d, n);
    assert k >= 1;
    assert d * k >= d * 1;
  }

  lemma DividesAntisymmetric(d: nat, n: nat)
    requires Divides(d, n) && Divides(n, d)
    ensures d == n
  {
    if d == 0 || n == 0 {
    } else {
      DividesBound(d, n);
      DividesBound(n, d);
    }
  }

  lemma DividesTransitive(a: nat, b: nat, c: nat)
    requires Divides(a, b) && Divides(b, c)
    ensures Divides(a, c)
  {
    var k := Quotient(a, b);
    var m := Quotient(b, c);
    assert c == a * (k * m);
    DividesMultiple(a, k * m);
  }

  lemma DividesAdd(d: nat, x: nat, y: nat)
    requires Divides(d, x) && Divides(d, y)
    ensures Divides(d, x + y)
  {
    var k := Quotient(d, x);
    var m := Quotient(d, y);
    assert x + y == d * (k + m);
    DividesMultiple(d, k + m);
  }

  lemma DividesSub(d: nat, x: nat, y: nat)
    requires y <= x && Divides(d, x) && Divides(d, y)
    ensures Divides(d, x - y)
  {
    if d > 0 {
      var k := Quotient(d, x);
      var m := Quotient(d, y);
      assert d * k >= d * m;
      assert k >= m;
      assert x - y == d * (k - m);
      DividesMultiple(d, k - m);
    }
  }

  /** A divisor of `d` divides every multiple of it. */
  lemma DividesScaled(d: nat, n: nat, k: nat)
    requires Divides(d, n)
    ensures Divides(d, n * k)
  {
    var q := Quotient(d, n);
    assert n * k == d * (q * k);
    DividesMultiple(d, q * k);
  }

  /** Modulo a common divisor's multiple keeps divisibility, both ways. */
  lemma DividesMod(d: nat, a: nat, b: nat)
    requires b > 0 && Divides(d, b)
    ensures Divides(d, a) <==> Divides(d, a % b)
  {
    var q := a / b;
    assert a == b * q + a % b;
    DividesScaled(d, b, q);
    if Divides(d, a) {
      DividesSub(d, a, b * q);
    }
    if Divides(d, a % b) {
      DividesAdd(d, b * q, a % b);
    }
  }

  /** An odd divisor of `2 * n` divides `n`. */
  lemma OddDividesHalf(d: nat, n: nat)
    requires d % 2 == 1 && Divides(d, 2 * n)
    ensures Divides(d, n)
  {
    var k := Quotient(d, 2 * n);
    if k % 2 == 1 {
      assert d * k == d * (2 * (k / 2)) + d;
      assert (d * k) % 2 == 1 by {
        DivModUnique(d * k, 2, d * (k / 2) + d / 2, 1);
      }
      assert false;
    }
    assert n == d * (k / 2);
    DividesMultiple(d, k / 2);
  }

  /** A divisor of an odd number is odd. */
  lemma DivisorOfOddIsOdd(d: nat, n: nat)
    requires n % 2 == 1 && Divides(d, n)
    ensures d % 2 == 1
  {
    if d % 2 == 0 {
      assert Divides(2, d) by {
        DivModUnique(d, 2, d / 2, 0);
      }
      DividesTransitive(2, d, n);
      assert false;
    }
  }
}
