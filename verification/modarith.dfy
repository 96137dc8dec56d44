/** Arithmetic modulo the group order n: divisibility, primality, Euclid's
    gcd, the extended Euclidean algorithm and the modular inverse that the
    requester uses to remove her blinding scalar. */
module ModArith {

  /** d is a positive divisor of a. */
  predicate Divides(d: int, a: int) {
    d > 0 && a % d == 0
  }

  /** n is prime: greater than one, and no d strictly between 1 and n divides it.
      The group order of the curve is assumed to satisfy this. */
  predicate IsPrime(n: int) {
    n > 1 && forall d :: 1 < d < n ==> !Divides(d, n)
  }

  /** Euclid's greatest common divisor. */
  function Gcd(a: nat, b: nat): nat
    decreases b
  {
    if b == 0 then a else Gcd(b, a % b)
  }

  /** If a == q*n + r with 0 <= r < n then r is a % n and q is a / n. */
  lemma DivModUnique(a: int, n: int, q: int, r: int)
    requires n > 0 && 0 <= r < n && a == q * n + r
    ensures a % n == r && a / n == q
  {
    var q0, r0 := a / n, a % n;
    assert a == q0 * n + r0;
    if q0 > q {
      assert (q0 - q) * n >= n by { MulAtLeast(q0 - q, n); }
      assert false;
    } else if q0 < q {
      assert (q - q0) * n >= n by { MulAtLeast(q - q0, n); }
      assert false;
    }
  }

  lemma MulAtLeast(k: int, n: int)
    requires k >= 1 && n > 0
    ensures k * n >= n
  {
    assert k * n == (k - 1) * n + n;
    assert (k - 1) * n >= 0;
  }

  /** Adding a multiple of n does not change the residue. */
  lemma ModAddMultiple(x: int, q: int, n: int)
    requires n > 0
    ensures (x + q * n) % n == x % n
  {
    assert x == (x / n) * n + x % n;
    assert x + q * n == (x / n + q) * n + x % n;
    DivModUnique(x + q * n, n, x / n + q, x % n);
  }

  /** Reducing a factor before multiplying does not change the residue. */
  lemma ModMulLeft(a: int, b: int, n: int)
    requires n > 0
    ensures ((a % n) * b) % n == (a * b) % n
  {
    assert a == (a / n) * n + a % n;
    assert a * b == (a % n) * b + ((a / n) * b) * n;
    ModAddMultiple((a % n) * b, (a / n) * b, n);
  }

  lemma ModMulRight(a: int, b: int, n: int)
    requires n > 0
    ensures (a * (b % n)) % n == (a * b) % n
  {
    ModMulLeft(b, a, n);
  }

  /** d divides a and b, so it divides q*b + m for every m it divides. */
  lemma DividesCombination(d: int, b: int, m: int, q: int)
    requires Divides(d, b) && Divides(d, m)
    ensures Divides(d, q * b + m)
  {
    assert b == (b / d) * d;
    assert m == (m / d) * d;
    assert q * b + m == (q * (b / d) + m / d) * d;
    DivModUnique(q * b + m, d, q * (b / d) + m / d, 0);
  }

  /** Euclid's gcd divides both arguments (when they are not both zero). */
  lemma {:induction false} GcdDivides(a: nat, b: nat)
    requires a > 0 || b > 0
    ensures Gcd(a, b) > 0
    ensures Divides(Gcd(a, b), a) && Divides(Gcd(a, b), b)
    decreases b
  {
    if b == 0 {
      DivModUnique(a, a, 1, 0);
      DivModUnique(0, a, 0, 0);
    } else {
      GcdDivides(b, a % b);
      var g := Gcd(a, b);
      assert a == (a / b) * b + a % b;
      DividesCombination(g, b, a % b, a / b);
    }
  }

  /** A positive divisor of a positive number is no larger than it. */
  lemma DivisorAtMost(d: int, a: int)
    requires a > 0 && Divides(d, a)
    ensures d <= a
  {
    assert a == (a / d) * d;
    MulAtLeast(a / d, d);
  }

  /** Every residue that is nonzero modulo a prime is coprime to it. */
  lemma PrimeCoprime(n: int, r: int)
    requires IsPrime(n) && r % n != 0
    ensures Gcd(r % n, n) == 1
  {
    var g := Gcd(r % n, n);
    GcdDivides(r % n, n);
    DivisorAtMost(g, r % n);
  }

  /** Extended Euclid: Bezout coefficients (x, y) with a*x + b*y == Gcd(a, b). */
  function ExtGcd(a: nat, b: nat): (r: (int, int))
    ensures a * r.0 + b * r.1 == Gcd(a, b)
    decreases b
  {
    if b == 0 then (1, 0)
    else
      var (x, y) := ExtGcd(b, a % b);
      assert a == (a / b) * b + a % b;
      assert a * y + b * (x - (a / b) * y) == b * x + (a % b) * y;
      (y, x - (a / b) * y)
  }

  /** The inverse of r modulo n; bn.js `invm`. It exists exactly when r is
      coprime to n, which for a prime n means r is nonzero modulo n. */
  function Inverse(r: int, n: int): (inv: int)
    requires n > 1 && Gcd(r % n, n) == 1
    ensures 0 <= inv < n
    ensures (r * inv) % n == 1
  {
    var (x, y) := ExtGcd(r % n, n);
    ModMulRight(r, x, n);
    ModMulLeft(r, x, n);
    assert (r % n) * x == 1 + (-y) * n;
    ModAddMultiple(1, -y, n);
    x % n
  }
}
