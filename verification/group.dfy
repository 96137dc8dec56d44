/** The elliptic-curve group of the protocol, abstracted to its exponents.

    A point is represented by its discrete logarithm with respect to the base
    point, a residue in [0, n) where n is the prime group order; the point at
    infinity is 0. Scalar multiplication of a point by a scalar is then
    multiplication of residues modulo n. The two hash functions of the source
    are carried as uninterpreted functions in a `Suite` value, which replaces
    the module-level curve singleton of the source. */
module Group {
  import opened ModArith

  /** A group element, as its discrete logarithm modulo n. */
  type Point = int

  /** A symmetric key: the leading bytes of a digest. */
  type Key = seq<bv8>

  /** The curve parameters and the hash functions of one protocol run.
      `h1` is the digest of a label read as a private key (reduced modulo n by
      the curve library), `h2` the digest of a point's canonical encoding
      truncated to a key. */
  datatype Suite = Suite(n: int, h1: string -> nat, h2: Point -> Key)

  /** The group order is prime, so every nonzero scalar is invertible. */
  predicate Valid(s: Suite) {
    IsPrime(s.n)
  }

  /** A private scalar as drawn by key-pair generation: in [1, n-1]. */
  predicate IsScalar(s: Suite, r: int) {
    0 < r < s.n
  }

  /** H1: hash a label to a group element. */
  function HashToGroup(s: Suite, u: string): (p: Point)
    requires s.n > 0
    ensures 0 <= p < s.n
  {
    s.h1(u) % s.n
  }

  /** Scalar multiplication of a point. */
  function Mul(s: Suite, p: Point, a: int): (q: Point)
    requires s.n > 0
    ensures 0 <= q < s.n
  {
    (p * a) % s.n
  }

  /** H2: derive the symmetric key of a point. */
  function DeriveKey(s: Suite, p: Point): Key {
    s.h2(p)
  }

  /** Multiplying by a and then by b is multiplying by a*b. */
  lemma MulMul(s: Suite, p: Point, a: int, b: int)
    requires s.n > 0
    ensures Mul(s, Mul(s, p, a), b) == Mul(s, p, a * b)
  {
    ModMulLeft(p * a, b, s.n);
    assert (p * a) * b == p * (a * b);
  }

  /** Scalar multiplications commute: (P^a)^b == (P^b)^a. */
  lemma MulCommutes(s: Suite, p: Point, a: int, b: int)
    requires s.n > 0
    ensures Mul(s, Mul(s, p, a), b) == Mul(s, Mul(s, p, b), a)
  {
    MulMul(s, p, a, b);
    MulMul(s, p, b, a);
    assert a * b == b * a;
  }

  /** Removing a blinding scalar: multiply by its inverse modulo n
      (`y_v.mul(r.invm(n))`). */
  function Unblind(s: Suite, y: Point, r: int): (p: Point)
    requires Valid(s) && r % s.n != 0
    ensures 0 <= p < s.n
  {
    PrimeCoprime(s.n, r);
    Mul(s, y, Inverse(r, s.n))
  }

  /** Unblinding with r undoes blinding with r. */
  lemma {:induction false} UnblindCancels(s: Suite, q: Point, r: int)
    requires Valid(s) && r % s.n != 0
    ensures Unblind(s, Mul(s, q, r), r) == q % s.n
  {
    PrimeCoprime(s.n, r);
    var inv := Inverse(r, s.n);
    MulMul(s, q, r, inv);
    ModMulRight(q, r * inv, s.n);
    assert q * 1 == q;
  }

  /** The correctness foundation of the protocol: a label's point blinded
      with a, multiplied by the holder's key b and unblinded with a is the
      holder's own point for that label. */
  lemma BlindRespondUnblind(s: Suite, u: string, a: int, b: int)
    requires Valid(s) && a % s.n != 0
    ensures Unblind(s, Mul(s, Mul(s, HashToGroup(s, u), a), b), a)
            == Mul(s, HashToGroup(s, u), b)
  {
    var h := HashToGroup(s, u);
    var owned := Mul(s, h, b);
    MulCommutes(s, h, a, b);
    UnblindCancels(s, owned, a);
    DivModUnique(owned, s.n, 0, owned);
  }

  /** Multiplication by a nonzero scalar is injective on points. */
  lemma MulCancel(s: Suite, p: Point, q: Point, k: int)
    requires Valid(s) && k % s.n != 0
    requires 0 <= p < s.n && 0 <= q < s.n
    requires Mul(s, p, k) == Mul(s, q, k)
    ensures p == q
  {
    UnblindCancels(s, p, k);
    UnblindCancels(s, q, k);
    DivModUnique(p, s.n, 0, p);
    DivModUnique(q, s.n, 0, q);
  }

  /** Blinding again with r undoes unblinding with r. */
  lemma ReblindCancels(s: Suite, x: Point, r: int)
    requires Valid(s) && r % s.n != 0
    ensures Mul(s, Unblind(s, x, r), r) == x % s.n
  {
    PrimeCoprime(s.n, r);
    MulCommutes(s, x, Inverse(r, s.n), r);
    UnblindCancels(s, x, r);
  }

  /** Unblinding commutes with a further scalar multiplication. */
  lemma UnblindCommutes(s: Suite, x: Point, k: int, r: int)
    requires Valid(s) && r % s.n != 0
    ensures Unblind(s, Mul(s, x, k), r) == Mul(s, Unblind(s, x, r), k)
  {
    PrimeCoprime(s.n, r);
    MulCommutes(s, x, k, Inverse(r, s.n));
  }
}
