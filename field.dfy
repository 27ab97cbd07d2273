/** The scalar field of the pallas curve and the curve group itself.

    A scalar is a residue modulo the prime group order `P`. The group of
    pallas points is cyclic of order `P`, so a point is represented by its
    discrete logarithm to the fixed generator: point addition is addition of
    scalars, `x·G` is `x`, and multiplying a point by a scalar multiplies the
    logarithms. Inversion is the extended Euclidean algorithm on `(x, P)`;
    because `P` is prime this gives an inverse for every nonzero scalar, but
    primality itself is not proved here, so the lemmas below characterise
    `Invert` by "an inverse exists". */
module Field {
  import opened Arith
  import opened Outcome
  import opened Sums

  /** The order of the pallas group (the modulus of `pallas::Scalar`). */
  const P: nat := 0x40000000000000000000000000000000224698fc0994a8dd8c46eb2100000001

  type Scalar = x: nat | x < P

  /** A pallas point, by its discrete logarithm to the generator. */
  type Point = Scalar

  /** `pallas::Affine::generator()`. */
  const Generator: Point := 1

  /** `pallas::Affine::identity()`. */
  const Identity: Point := 0

  /** Every u128 is a canonical scalar: `from_u128` never reduces. */
  lemma U128BelowP()
    ensures U128 < P
  {
  }

  /** `pallas::Scalar::from_u128`. */
  function FromU128(x: u128): (s: Scalar)
    ensures s == x
  {
    U128BelowP();
    x
  }

  function Add(a: Scalar, b: Scalar): Scalar { (a + b) % P }
  function Sub(a: Scalar, b: Scalar): Scalar { (a - b) % P }
  function Mul(a: Scalar, b: Scalar): Scalar { (a * b) % P }
  function Neg(a: Scalar): Scalar { (P - a) % P }

  /** `pallas::Affine::mul(pt, s)`. */
  function PointMul(pt: Point, s: Scalar): Point { Mul(pt, s) }

  /** `pallas::Affine::add(a, b)`. */
  function PointAdd(a: Point, b: Point): Point { Add(a, b) }

  /** `x·G` is the point whose logarithm is `x`. */
  lemma GeneratorMul(x: Scalar)
    ensures PointMul(Generator, x) == x
  {
    ModSmall(x, P);
  }

  /** Sum of scalars, as the folds `ans = ans + s_i` starting from zero. */
  function SumScalars(s: seq<Scalar>): Scalar
  {
    if |s| == 0 then 0 else Add(SumScalars(s[..|s| - 1]), s[|s| - 1])
  }

  /** Folding `Add` over scalars computes the integer sum modulo `P`. */
  lemma {:induction false} SumScalarsMod(s: seq<Scalar>)
    ensures SumScalars(s) == SumTo(|s|, Entry(s)) % P
  {
    if |s| > 0 {
      var init := s[..|s| - 1];
      SumScalarsMod(init);
      SumEq(|init|, Entry(init), Entry(s));
      AddModLeft(SumTo(|init|, Entry(init)), s[|s| - 1], P);
    }
  }

  // ---------------------------------------------------------------------
  // Inversion
  // ---------------------------------------------------------------------

  /** Extended Euclid: `(g, s, t)` with `s*a + t*b == g == gcd(a, b)`. */
  function Egcd(a: nat, b: nat): (nat, int, int)
    decreases b
  {
    if b == 0 then (a, 1, 0)
    else
      var r := Egcd(b, a % b);
      (r.0, r.2, r.1 - (a / b) * r.2)
  }

  lemma {:induction false} EgcdBezout(a: nat, b: nat)
    ensures Egcd(a, b).1 * a + Egcd(a, b).2 * b == Egcd(a, b).0
    decreases b
  {
    if b != 0 {
      EgcdBezout(b, a % b);
      var r := Egcd(b, a % b);
      BezoutStep(a, b, a / b, a % b, r.1, r.2, r.0);
    }
  }

  lemma BezoutStep(a: int, b: int, q: int, rem: int, s: int, t: int, g: int)
    requires s * b + t * rem == g && a == q * b + rem
    ensures t * a + (s - q * t) * b == g
  {
    assert t * a == t * (q * b) + t * rem;
    assert (s - q * t) * b == s * b - (q * t) * b;
    assert t * (q * b) == (q * t) * b;
  }

  predicate IsDivisor(d: nat, x: int)
  {
    d > 0 && x % d == 0
  }

  lemma DividesLinear(d: nat, x: int, y: int, u: int, v: int)
    requires IsDivisor(d, x) && IsDivisor(d, y)
    ensures IsDivisor(d, u * x + v * y)
  {
    var qx, qy := x / d, y / d;
    assert x == qx * d;
    assert y == qy * d;
    assert u * x + v * y == (u * qx + v * qy) * d;
    ModMultiple(u * qx + v * qy, 0, d);
  }

  /** The first component divides both arguments (unless both are 0). */
  lemma {:induction false} EgcdDivides(a: nat, b: nat)
    requires a > 0 || b > 0
    ensures IsDivisor(Egcd(a, b).0, a) && IsDivisor(Egcd(a, b).0, b)
    decreases b
  {
    if b == 0 {
      ModMultiple(1, 0, a);
    } else {
      EgcdDivides(b, a % b);
      var g := Egcd(a, b).0;
      assert a == (a / b) * b + 1 * (a % b);
      DividesLinear(g, b, a % b, a / b, 1);
    }
  }

  /** `pallas::Scalar::invert`: `None` exactly when no inverse exists. */
  function Invert(x: Scalar): Option<Scalar>
  {
    var r := Egcd(x, P);
    if r.0 == 1 then Some(r.1 % P) else None
  }

  lemma InvertSound(x: Scalar)
    ensures Invert(x).Some? ==> (x * Invert(x).value) % P == 1
  {
    var r := Egcd(x, P);
    if r.0 == 1 {
      EgcdBezout(x, P);
      assert r.1 * x == 1 - r.2 * P;
      ModMultiple(-r.2, 1, P);
      ModSmall(1, P);
      MulModLeft(r.1, x, P);
      assert (r.1 * x) % P == 1;
      assert (x * (r.1 % P)) % P == ((r.1 % P) * x) % P;
    }
  }

  lemma InvertComplete(x: Scalar, y: int)
    requires (x * y) % P == 1
    ensures Invert(x).Some?
  {
    var r := Egcd(x, P);
    EgcdDivides(x, P);
    var g := r.0;
    // x*y == k*P + 1, so g divides 1
    var k := (x * y) / P;
    assert x * y == k * P + 1;
    DividesLinear(g, x, P, y, -k);
    assert y * x + (-k) * P == 1;
    assert 1 % g == 0;
    if g > 1 {
      ModSmall(1, g);
    }
  }

  /** Inverses are unique: any `y < P` with `x*y ≡ 1` is what `Invert`
      returns. */
  lemma InvertUnique(x: Scalar, y: Scalar)
    requires (x * y) % P == 1
    ensures Invert(x) == Some(y)
  {
    InvertComplete(x, y);
    InvertSound(x);
    var v := Invert(x).value;
    // y == y*(x*v) == (y*x)*v == v  (mod P)
    calc {
      y % P;
      { MulModRight(y, x * v, P); ModSmall(1, P); }
      (y * (x * v)) % P;
      { assert y * (x * v) == (x * y) * v; }
      ((x * y) * v) % P;
      { MulModLeft(x * y, v, P); }
      (1 * v) % P;
    }
    ModSmall(y, P);
    ModSmall(v, P);
  }

  /** Zero has no inverse: `invert(0).unwrap()` panics. */
  lemma InvertZero()
    ensures Invert(0) == None
  {
    assert 0 % P == 0;
    assert Egcd(P, 0).0 == P;
    assert Egcd(0, P).0 == Egcd(P, 0).0;
  }
}
