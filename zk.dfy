/** The zero-knowledge transcript of src/paillier_verify.rs.

    The prover holds a secret `x` (its public point is `y = x·G`) and a
    Paillier cipher `w = (n+1)^x · r^n mod n²` of it. It commits with
    random `a`, `b`, `p`, `h1` and `h2`, and for the challenge `e` it
    answers `s1 = e·x + a`, `s2 = (r^e mod n²)·b` and `s3 = e·p + r`. The
    verifier checks one equation on the curve, one modulo `n²` and one
    modulo `n`.

    Randomness becomes parameters. `pow_and_mod` and `find_mod_inverse`
    are the spec functions `ModPow` and `FindModInverseSpec`; their loops
    are proved against them in module ModularArithmetic. */
module ZeroKnowledge {
  import opened Arith
  import opened ModularArithmetic
  import opened Field
  import Paillier

  /** The prover's random draws: `h1`, `h2` in `[1, 2^64)`, `a` in
      `[1, range_q]`, `b` in `[1, n]`, `p` in `[1, range_q·n]` and the
      challenge `e` in `[1, 255]`. */
  datatype Coins = Coins(h1: u128, h2: u128, a: u128, b: u128, p: u128, e: u128)

  /** What `prepare_zk_verify` returns: the points `[u1, y]` and the
      integers `[z, u2, u3, e, s1, s2, s3, h1, h2]`. */
  datatype Transcript = Transcript(
    u1: Point, y: Point,
    z: u128, u2: u128, u3: u128, e: u128, s1: u128, s2: u128, s3: u128, h1: u128, h2: u128)

  // ---------------------------------------------------------------------
  // PrepareZk::prepare_zk_verify (src/paillier_verify.rs:58-93)
  // ---------------------------------------------------------------------

  /** The u128 arithmetic of `prepare_zk_verify` neither overflows nor
      divides by zero: every `pow_and_mod` call is safe and the three
      responses fit. */
  predicate PrepareSafe(n: u128, secret: u128, r: u128, c: Coins)
  {
    && n >= 1 && n * n <= U64
    && PowAndModSafe(c.h1, secret, n) && PowAndModSafe(c.h2, c.p, n)
    && PowAndModSafe(n + 1, c.a, n * n) && PowAndModSafe(c.b, n, n * n)
    && PowAndModSafe(c.h1, c.a, n) && PowAndModSafe(c.h2, r, n)
    && PowAndModSafe(r, c.e, n * n)
    && c.b < U64
    && c.e * secret + c.a < U128 && c.e * c.p + r < U128
  }

  /** The prover side. The commitments `z`, `u2` and `u3` are residues and
      the two points are `x·G` and `a·G`. */
  function Prepare(n: u128, secret: u128, r: u128, c: Coins): (t: Transcript)
    requires PrepareSafe(n, secret, r, c)
    ensures t.z < n && t.u2 < n * n && t.u3 < n
    ensures t.y == secret && t.u1 == c.a
    ensures t.e == c.e && t.h1 == c.h1 && t.h2 == c.h2
  {
    var nn := n * n;
    MulAtLeast(n, n);
    var z := (ModPow(c.h1, secret, n) * ModPow(c.h2, c.p, n)) % n;
    var u2 := (ModPow(n + 1, c.a, nn) * ModPow(c.b, n, nn)) % nn;
    var u3 := (ModPow(c.h1, c.a, n) * ModPow(c.h2, r, n)) % n;
    var s20 := ModPow(r, c.e, nn);
    ModPowBound(r, c.e, nn);
    ProductFits(s20, c.b);
    var s1 := Response(c.e, secret, c.a);
    var s2: u128 := s20 * c.b;
    var s3 := Response(c.e, c.p, r);
    U128BelowP();
    var u1 := PointMul(Generator, FromU128(c.a));
    var y := PointMul(Generator, FromU128(secret));
    GeneratorMul(c.a);
    GeneratorMul(secret);
    Transcript(u1, y, z, u2, u3, c.e, s1, s2, s3, c.h1, c.h2)
  }

  /** A response `e·x + a` to the challenge `e`. */
  function Response(e: nat, x: nat, a: nat): u128
    requires e * x + a < U128
  {
    e * x + a
  }

  /** A `pow_and_mod` result is a residue, or the 1 of a zero exponent. */
  lemma ModPowBound(b: nat, e: nat, m: nat)
    requires m >= 1
    ensures ModPow(b, e, m) < m || ModPow(b, e, m) == 1
  {
  }

  // ---------------------------------------------------------------------
  // ZkVerify::zk_verify (src/paillier_verify.rs:113-161)
  // ---------------------------------------------------------------------

  /** Check 1, on the curve: `s1·G + (−e)·y == u1`. */
  predicate CurveCheck(t: Transcript)
  {
    var eNeg := Neg(FromU128(t.e));
    var s1g := PointMul(Generator, FromU128(t.s1));
    var yeNeg := PointMul(t.y, eNeg);
    PointAdd(s1g, yeNeg) == t.u1
  }

  /** The right-hand side of check 2: `(n+1)^s1 · s2^n · w_inv^e mod n²`,
      multiplied in the order of the source. */
  function CipherValue(n: nat, s1: nat, s2: nat, e: nat, wInv: nat): nat
    requires n >= 1
  {
    var nn := n * n;
    var v1 := ModPow(n + 1, s1, nn);
    var v2 := ModPow(s2, n, nn);
    var v3 := ModPow(wInv, e, nn);
    var v4 := (v1 * v2) % nn;
    (v3 * v4) % nn
  }

  /** Check 2, modulo `n²`. */
  predicate CipherCheck(n: u128, t: Transcript, wInv: nat)
    requires n >= 1
  {
    t.u2 == CipherValue(n, t.s1, t.s2, t.e, wInv)
  }

  /** The right-hand side of check 3:
      `(z mod n)^(n − (e+1)) · (h1^s1 · h2^s3 mod n) mod n`. */
  function RingValue(n: nat, z: nat, h1: nat, h2: nat, s1: nat, s3: nat, e: nat): nat
    requires n >= e + 1
  {
    var z2 := z % n;
    var v6 := ModPow(h1, s1, n);
    var v7 := ModPow(h2, s3, n);
    var v8 := ModPow(z2, n - (e + 1), n);
    var v9 := (v6 * v7) % n;
    (v8 * v9) % n
  }

  /** Check 3, modulo `n`. */
  predicate RingCheck(n: u128, t: Transcript)
    requires n >= t.e + 1
  {
    t.u3 == RingValue(n, t.z, t.h1, t.h2, t.s1, t.s3, t.e)
  }

  /** The u128 arithmetic of `zk_verify` neither overflows, underflows nor
      divides by zero: `find_mod_inverse` divides by `w`, the product
      `w · w_inv` is formed, every `pow_and_mod` call is safe and
      `n − (e+1)` must not go below zero. */
  predicate VerifySafe(n: u128, w: u128, t: Transcript)
  {
    && n >= 1 && n * n <= U64 && (n >= 2 ==> w > 0)
    && var wInv := FindModInverseSpec(w, n * n);
    && w * wInv < U128
    && PowAndModSafe(n + 1, t.s1, n * n) && PowAndModSafe(t.s2, n, n * n)
    && PowAndModSafe(wInv, t.e, n * n)
    && PowAndModSafe(t.h1, t.s1, n) && PowAndModSafe(t.h2, t.s3, n)
    && t.e + 1 <= n
  }

  /** `zk_verify` as written: when `w` has no inverse modulo `n²` it only
      prints "no inv" and goes on with `w_inv = 0`. The result is the
      conjunction of the three checks. An accepted transcript has
      `u1 = s1 − e·y` and a residue `u2`; without an inverse (and `e ≥ 1`)
      check 2 no longer involves `s1`, `s2` or `w`: it is `u2 == 0`. */
  predicate ZkVerify(n: u128, w: u128, t: Transcript): (ok: bool)
    requires VerifySafe(n, w, t)
    ensures ok ==> t.u1 == (t.s1 - t.e * t.y) % P && t.u2 < n * n
    ensures n >= 2 && t.e >= 1 && FindModInverseSpec(w, n * n) == 0 ==>
      (ok <==> t.u1 == (t.s1 - t.e * t.y) % P && t.u2 == 0 && RingCheck(n, t))
  {
    var wInv := FindModInverseSpec(w, n * n);
    CurveCheckMeaning(t);
    var ok := CurveCheck(t) && CipherCheck(n, t, wInv) && RingCheck(n, t);
    if n >= 2 && t.e >= 1 then CipherCheckWithoutInverse(n, t); ok else ok
  }

  /** `zk_verify` as evidently intended: the `check == 1` test that only
      prints a message rejects instead. For `n ≥ 2` it accepts exactly what
      the verifier as written accepts, less every cipher without an
      inverse. */
  predicate ZkVerifyStrict(n: u128, w: u128, t: Transcript): (ok: bool)
    requires VerifySafe(n, w, t)
    ensures n >= 2 ==> (ok <==> FindModInverseSpec(w, n * n) != 0 && ZkVerify(n, w, t))
  {
    var wInv := FindModInverseSpec(w, n * n);
    var ok := (w * wInv) % (n * n) == 1 && ZkVerify(n, w, t);
    if n >= 2 then InverseFound(n, w); ok else ok
  }

  /** Modulo `n² ≥ 4` the value `find_mod_inverse` returns is a true inverse
      exactly when it is not the 0 of a failed search. */
  lemma InverseFound(n: u128, w: u128)
    requires n >= 2 && w > 0
    ensures (w * FindModInverseSpec(w, n * n)) % (n * n) == 1 <==> FindModInverseSpec(w, n * n) != 0
  {
    var m := n * n;
    MulAtLeast(n, n);
    FindModInverseSound(w, m);
    var d := FindModInverseSpec(w, m);
    if d == 0 {
      assert w * d == 0;
      ModSmall(0, m);
    } else {
      assert w * d == d * w;
    }
  }

  // ---------------------------------------------------------------------
  // Congruence helpers
  // ---------------------------------------------------------------------

  lemma CongMul(a: int, b: int, c: int, d: int, m: int)
    requires m > 0 && a % m == b % m && c % m == d % m
    ensures (a * c) % m == (b * d) % m
  {
    MulMod(a, c, m);
    MulMod(b, d, m);
  }

  lemma CongPow(a: int, b: int, e: nat, m: int)
    requires m > 0 && a % m == b % m
    ensures Pow(a, e) % m == Pow(b, e) % m
  {
    PowMod(a, e, m);
    PowMod(b, e, m);
  }

  /** `a^e · b^e ≡ 1` when `a·b ≡ 1`. */
  lemma UnitPowers(a: int, b: int, e: nat, m: int)
    requires m > 1 && (a * b) % m == 1
    ensures (Pow(a, e) * Pow(b, e)) % m == 1
  {
    PowOfUnit(a * b, e, m);
    PowMulBase(a, b, e);
  }

  /** The product of two `pow_and_mod` residues is the product of the
      powers, modulo `m`. */
  lemma PowProductResidue(u: int, b1: nat, e1: nat, b2: nat, e2: nat, m: nat)
    requires m >= 2 && u == (ModPow(b1, e1, m) * ModPow(b2, e2, m)) % m
    ensures u % m == (Pow(b1, e1) * Pow(b2, e2)) % m
  {
    ModPowIsPow(b1, e1, m);
    ModPowIsPow(b2, e2, m);
    ProductResidue(u, ModPow(b1, e1, m), ModPow(b2, e2, m), Pow(b1, e1), Pow(b2, e2), m);
  }

  lemma ProductResidue(u: int, q1: int, q2: int, p1: int, p2: int, m: int)
    requires m > 0 && q1 == p1 % m && q2 == p2 % m && u == (q1 * q2) % m
    ensures u % m == (p1 * p2) % m
  {
    MulMod(p1, p2, m);
    ModOfMod(p1 * p2, m);
  }

  /** Raising `u ≡ b1^e1 · b2^e2` to the power `e`. */
  lemma PowOfProduct(u: int, b1: nat, e1: nat, b2: nat, e2: nat, e: nat, m: nat)
    requires m >= 2 && u % m == (Pow(b1, e1) * Pow(b2, e2)) % m
    ensures Pow(u, e) % m == (Pow(b1, e * e1) * Pow(b2, e * e2)) % m
  {
    CongPow(u, Pow(b1, e1) * Pow(b2, e2), e, m);
    PowMulBase(Pow(b1, e1), Pow(b2, e2), e);
    PowPow(b1, e1, e);
    PowPow(b2, e2, e);
    assert e1 * e == e * e1 && e2 * e == e * e2;
  }

  /** If `i·j ≡ 1` then `u ≡ i·x` forces `u·j ≡ x`. */
  lemma UnitSolveForward(i: int, j: int, x: int, u: int, m: int)
    requires m > 1 && (i * j) % m == 1 && u == (i * x) % m
    ensures (u * j) % m == x % m
  {
    MulModLeft(i * x, j, m);
    assert i * x * j == i * j * x;
    MulModLeft(i * j, x, m);
  }

  /** If `i·j ≡ 1` then `u·j ≡ x` forces `u ≡ i·x`. */
  lemma UnitSolveBackward(i: int, j: int, x: int, u: int, m: int)
    requires m > 1 && (i * j) % m == 1 && (u * j) % m == x % m
    ensures (i * x) % m == u % m
  {
    MulModRight(i, x, m);
    MulModRight(i, u * j, m);
    assert i * (u * j) == i * j * u;
    MulModLeft(i * j, u, m);
  }

  // ---------------------------------------------------------------------
  // What each check means
  // ---------------------------------------------------------------------

  /** Check 1 holds exactly when `u1 = s1 − e·y` in the scalar field: with
      `y = x·G` and `u1 = a·G` this is `s1 = e·x + a`. */
  lemma CurveCheckMeaning(t: Transcript)
    ensures CurveCheck(t) <==> t.u1 == (t.s1 - t.e * t.y) % P
  {
    U128BelowP();
    var e := FromU128(t.e);
    var s1 := FromU128(t.s1);
    GeneratorMul(s1);
    NegatedProduct(P, s1, t.y, e, PointMul(t.y, Neg(e)));
  }

  /** `s + y·((p − e) mod p)` reduces to `s − e·y` modulo `p`. */
  lemma NegatedProduct(p: int, s: int, y: int, e: int, x: int)
    requires p > 0 && 0 <= e < p
    requires x == (y * ((p - e) % p)) % p
    ensures (s + x) % p == (s - e * y) % p
  {
    MulModRight(y, p - e, p);
    AddModLeft(y * (p - e), s, p);
    assert y * (p - e) + s == y * p + (s - e * y);
    ModMultiple(y, s - e * y, p);
  }

  /** With a true inverse `w_inv` of `w`, check 2 holds exactly when
      `u2 · w^e ≡ (n+1)^s1 · s2^n (mod n²)`, the inverse-free form of the
      Paillier equation. */
  lemma CipherCheckMeaning(n: u128, w: nat, t: Transcript, wInv: nat)
    requires n >= 2 && (w * wInv) % (n * n) == 1 && t.u2 < n * n
    ensures CipherCheck(n, t, wInv) <==>
      (t.u2 * Pow(w, t.e)) % (n * n) == (Pow(n + 1, t.s1) * Pow(t.s2, n)) % (n * n)
  {
    CipherValueMeaning(n, n * n, w, wInv, t.u2, t.s1, t.s2, t.e);
  }

  lemma CipherValueMeaning(n: nat, m: nat, w: nat, wInv: nat, u2: nat, s1: nat, s2: nat, e: nat)
    requires n >= 2 && m == n * n && (w * wInv) % m == 1 && u2 < m
    ensures u2 == CipherValue(n, s1, s2, e, wInv) <==>
      (u2 * Pow(w, e)) % m == (Pow(n + 1, s1) * Pow(s2, n)) % m
  {
    MulAtLeast(n, n);
    var x := Pow(n + 1, s1) * Pow(s2, n);
    var i, j := Pow(wInv, e), Pow(w, e);
    CipherValueForm(n, m, s1, s2, e, wInv);
    UnitPowers(wInv, w, e, m);
    if u2 == (i * x) % m {
      UnitSolveForward(i, j, x, u2, m);
    }
    if (u2 * j) % m == x % m {
      UnitSolveBackward(i, j, x, u2, m);
      ModSmall(u2, m);
    }
  }

  /** Check 2's right-hand side is `w_inv^e · (n+1)^s1 · s2^n` modulo `n²`. */
  lemma CipherValueForm(n: nat, m: nat, s1: nat, s2: nat, e: nat, wInv: nat)
    requires n >= 2 && m == n * n && m >= 2
    ensures CipherValue(n, s1, s2, e, wInv) == (Pow(wInv, e) * (Pow(n + 1, s1) * Pow(s2, n))) % m
  {
    var v4 := (ModPow(n + 1, s1, m) * ModPow(s2, n, m)) % m;
    PowProductResidue(v4, n + 1, s1, s2, n, m);
    ModPowIsPow(wInv, e, m);
    ModOfMod(Pow(wInv, e), m);
    CongMul(Pow(wInv, e) % m, Pow(wInv, e), v4, Pow(n + 1, s1) * Pow(s2, n), m);
  }

  // ---------------------------------------------------------------------
  // The finding: a cipher without inverse
  // ---------------------------------------------------------------------

  /** Without an inverse `find_mod_inverse` yields 0, and then check 2 holds
      exactly when `u2 == 0`, whatever `s1` and `s2` are
      (src/paillier_verify.rs:139-147). */
  lemma CipherCheckWithoutInverse(n: u128, t: Transcript)
    requires n >= 2 && t.e >= 1
    ensures CipherCheck(n, t, 0) <==> t.u2 == 0
  {
    ZeroInverseValue(n, t.s1, t.s2, t.e);
  }

  lemma ZeroInverseValue(n: nat, s1: nat, s2: nat, e: nat)
    requires n >= 2 && e >= 1
    ensures CipherValue(n, s1, s2, e, 0) == 0
  {
    var m := n * n;
    MulAtLeast(n, n);
    ModPowIsPow(0, e, m);
    PowZeroBase(e);
    ModSmall(0, m);
  }

  /** `n` itself has no inverse modulo `n²`: the search of
      `find_mod_inverse(n, n²)` comes back with 0. */
  lemma ModulusHasNoInverse(n: u128)
    requires n >= 2
    ensures FindModInverseSpec(n, n * n) == 0
  {
    var m: int := n * n;
    MulAtLeast(n, n);
    forall j | 1 <= j < m
      ensures (j * m + 1) % n != 0
    {
      assert j * m + 1 == (j * n) * n + 1;
      ModMultiple(j * n, 1, n);
      ModSmall(1, n);
    }
    FindModInverseSound(n, m);
  }

  /** As written, the verifier accepts the cipher `w = n`, which has no
      inverse modulo `n²`, whenever checks 1 and 3 pass and `u2 == 0`: no
      `s1` or `s2` needs to satisfy the Paillier equation. */
  lemma VerifyAcceptsNonInvertibleCipher(n: u128, t: Transcript)
    requires VerifySafe(n, n, t) && n >= 2 && t.e >= 1
    requires CurveCheck(t) && RingCheck(n, t) && t.u2 == 0
    ensures ZkVerify(n, n, t)
    ensures !ZkVerifyStrict(n, n, t)
  {
    ModulusHasNoInverse(n);
    CipherCheckWithoutInverse(n, t);
    var m: int := n * n;
    MulAtLeast(n, n);
    ModSmall(0, m);
  }

  /** The corrected verifier only accepts a cipher it could invert and a
      residue `u2 < n²`, and then the Paillier equation holds in inverse-free
      form; on an invertible cipher it agrees with the verifier as written. */
  lemma StrictVerifySound(n: u128, w: u128, t: Transcript)
    requires VerifySafe(n, w, t) && n >= 2
    ensures ZkVerifyStrict(n, w, t) ==>
      t.u2 < n * n &&
      (w * FindModInverseSpec(w, n * n)) % (n * n) == 1 &&
      t.u1 == (t.s1 - t.e * t.y) % P &&
      (t.u2 * Pow(w, t.e)) % (n * n) == (Pow(n + 1, t.s1) * Pow(t.s2, n)) % (n * n)
    ensures (w * FindModInverseSpec(w, n * n)) % (n * n) == 1 ==>
      (ZkVerifyStrict(n, w, t) <==> ZkVerify(n, w, t))
  {
    var wInv := FindModInverseSpec(w, n * n);
    CurveCheckMeaning(t);
    MulAtLeast(n, n);
    if t.u2 >= n * n {
      assert !CipherCheck(n, t, wInv);
    } else if (w * wInv) % (n * n) == 1 {
      CipherCheckMeaning(n, w, t, wInv);
    }
  }

  // ---------------------------------------------------------------------
  // Completeness (src/paillier_verify.rs:167-209)
  // ---------------------------------------------------------------------

  /** Fermat's condition on the commitment `z`: `z^(n−1) ≡ 1 (mod n)`. It
      holds when `n` is prime and does not divide `z`. */
  predicate FermatUnit(z: nat, n: nat)
    requires n >= 1
  {
    Pow(z, n - 1) % n == 1
  }

  /** An honest transcript passes check 1. */
  lemma HonestCurveCheck(n: u128, secret: u128, r: u128, c: Coins)
    requires PrepareSafe(n, secret, r, c)
    ensures CurveCheck(Prepare(n, secret, r, c))
  {
    var t := Prepare(n, secret, r, c);
    CurveCheckMeaning(t);
    U128BelowP();
    assert t.s1 - t.e * t.y == c.a;
    ModSmall(c.a, P);
  }

  /** An honest transcript satisfies the Paillier equation of check 2 for
      `w = encrypt(n, r, x)`. */
  lemma HonestCipherEquation(n: u128, secret: u128, r: u128, c: Coins)
    requires PrepareSafe(n, secret, r, c) && n >= 2 && Paillier.EncryptSafe(n, r)
    ensures var t := Prepare(n, secret, r, c);
      var w := Paillier.Encrypt(n, r, secret);
      (t.u2 * Pow(w, t.e)) % (n * n) == (Pow(n + 1, t.s1) * Pow(t.s2, n)) % (n * n)
  {
    var t := Prepare(n, secret, r, c);
    HonestCipherAlgebra(n, n * n, secret, r, c.a, c.b, c.e, t.u2, Paillier.Encrypt(n, r, secret), t.s1, t.s2);
  }

  /** The algebra behind check 2: with `u2 ≡ (n+1)^a · b^n`,
      `w ≡ (n+1)^x · r^n`, `s1 = e·x + a` and `s2 = (r^e mod n²)·b`,
      both sides are `(n+1)^(e·x + a) · r^(e·n) · b^n` modulo `n²`. */
  lemma HonestCipherAlgebra(n: nat, m: nat, x: nat, r: nat, a: nat, b: nat, e: nat, u2: nat, w: nat, s1: nat, s2: nat)
    requires n >= 2 && m == n * n
    requires u2 == (ModPow(n + 1, a, m) * ModPow(b, n, m)) % m
    requires w == (ModPow(n + 1, x, m) * ModPow(r, n, m)) % m
    requires s1 == e * x + a && s2 == ModPow(r, e, m) * b
    ensures (u2 * Pow(w, e)) % m == (Pow(n + 1, s1) * Pow(s2, n)) % m
  {
    MulAtLeast(n, n);
    PowProductResidue(u2, n + 1, a, b, n, m);
    PowProductResidue(w, n + 1, x, r, n, m);
    PowOfProduct(w, n + 1, x, r, n, e, m);
    MaskedPower(r, e, b, n, m, s2);
    PowAdd(n + 1, e * x, a);
    CombineCongruent(u2, Pow(w, e), Pow(n + 1, s1), Pow(s2, n),
      Pow(n + 1, a), Pow(b, n), Pow(n + 1, e * x), Pow(r, e * n), m);
  }

  /** `u2 ≡ A·B`, `W ≡ X·R`, `S1 = X·A` and `S2 ≡ R·B` give `u2·W ≡ S1·S2`. */
  lemma CombineCongruent(u2: int, W: int, S1: int, S2: int, A: int, B: int, X: int, R: int, m: int)
    requires m > 0
    requires u2 % m == (A * B) % m && W % m == (X * R) % m
    requires S1 == X * A && S2 % m == (R * B) % m
    ensures (u2 * W) % m == (S1 * S2) % m
  {
    CongMul(u2, A * B, W, X * R, m);
    CongMul(S1, X * A, S2, R * B, m);
    assert (A * B) * (X * R) == (X * A) * (R * B);
  }

  /** `((r^e mod m)·b)^n ≡ r^(e·n) · b^n (mod m)`. */
  lemma MaskedPower(r: nat, e: nat, b: nat, n: nat, m: nat, s2: nat)
    requires m >= 2 && s2 == ModPow(r, e, m) * b
    ensures Pow(s2, n) % m == (Pow(r, e * n) * Pow(b, n)) % m
  {
    ModPowIsPow(r, e, m);
    var re := Pow(r, e);
    ModOfMod(re, m);
    CongMul(re % m, re, b, b, m);
    CongPow(s2, re * b, n, m);
    PowMulBase(re, b, n);
    PowPow(r, e, n);
  }

  /** An honest transcript passes check 3 when `z` is a Fermat unit modulo
      `n`. */
  lemma HonestRingCheck(n: u128, secret: u128, r: u128, c: Coins)
    requires PrepareSafe(n, secret, r, c) && n >= 2 && c.e + 1 <= n
    requires FermatUnit(Prepare(n, secret, r, c).z, n)
    ensures RingCheck(n, Prepare(n, secret, r, c))
  {
    var t := Prepare(n, secret, r, c);
    HonestRingAlgebra(n, secret, r, c.h1, c.h2, c.a, c.p, c.e, t.z, t.u3, t.s1, t.s3);
  }

  /** The algebra behind check 3: `h1^s1 · h2^s3 = (h1^x · h2^p)^e ·
      (h1^a · h2^r)`, and `z^(n−e−1) · z^e = z^(n−1) ≡ 1`. */
  lemma HonestRingAlgebra(n: nat, x: nat, r: nat, h1: nat, h2: nat, a: nat, p: nat, e: nat,
                          z: nat, u3: nat, s1: nat, s3: nat)
    requires n >= 2 && e + 1 <= n
    requires z == (ModPow(h1, x, n) * ModPow(h2, p, n)) % n
    requires u3 == (ModPow(h1, a, n) * ModPow(h2, r, n)) % n
    requires s1 == e * x + a && s3 == e * p + r
    requires Pow(z, n - 1) % n == 1
    ensures u3 == RingValue(n, z, h1, h2, s1, s3, e)
  {
    PowProductResidue(u3, h1, a, h2, r, n);
    PowProductResidue(z, h1, x, h2, p, n);
    PowOfProduct(z, h1, x, h2, p, e, n);
    var v9 := (ModPow(h1, s1, n) * ModPow(h2, s3, n)) % n;
    PowProductResidue(v9, h1, s1, h2, s3, n);
    PowAdd(h1, e * x, a);
    PowAdd(h2, e * p, r);
    Regroup(Pow(h1, e * x), Pow(h1, a), Pow(h2, e * p), Pow(h2, r));
    var k: nat := n - (e + 1);
    ModSmall(z, n);
    ModPowIsPow(z, k, n);
    PowAdd(z, k, e);
    FermatCancel(n, ModPow(z % n, k, n), v9, Pow(z, k), Pow(z, e), Pow(z, n - 1),
      Pow(h1, e * x) * Pow(h2, e * p), Pow(h1, a) * Pow(h2, r));
    ModSmall(u3, n);
  }

  lemma Regroup(a: int, b: int, c: int, d: int)
    ensures (a * b) * (c * d) == (a * c) * (b * d)
  {
  }

  /** `z^k · (z^e · u) ≡ u` when `z^k · z^e = z^(n−1) ≡ 1`. */
  lemma FermatCancel(n: nat, v8: int, v9: int, zk: int, ze1: int, zn1: int, ze: int, u: int)
    requires n >= 2 && zn1 == zk * ze1 && zn1 % n == 1
    requires v8 == zk % n && ze1 % n == ze % n && v9 % n == (ze * u) % n
    ensures (v8 * v9) % n == u % n
  {
    ModOfMod(zk, n);
    CongMul(ze1, ze, u, u, n);
    CongMul(v8, zk, v9, ze1 * u, n);
    assert zk * (ze1 * u) == zn1 * u;
    MulModLeft(zn1, u, n);
  }

  /** The honest prover convinces the verifier (src/paillier_verify.rs:167-209):
      for `w = encrypt(n, r, x)` with an inverse modulo `n²` and a Fermat-unit
      commitment `z`, both the verifier as written and the corrected one
      accept the transcript of `prepare_zk_verify`. */
  lemma Completeness(n: u128, secret: u128, r: u128, c: Coins, w: u128)
    requires PrepareSafe(n, secret, r, c) && n >= 2 && Paillier.EncryptSafe(n, r)
    requires w == Paillier.Encrypt(n, r, secret)
    requires VerifySafe(n, w, Prepare(n, secret, r, c))
    requires (w * FindModInverseSpec(w, n * n)) % (n * n) == 1
    requires FermatUnit(Prepare(n, secret, r, c).z, n)
    ensures ZkVerify(n, w, Prepare(n, secret, r, c))
    ensures ZkVerifyStrict(n, w, Prepare(n, secret, r, c))
  {
    var t := Prepare(n, secret, r, c);
    HonestCurveCheck(n, secret, r, c);
    HonestCipherEquation(n, secret, r, c);
    CipherCheckMeaning(n, w, t, FindModInverseSpec(w, n * n));
    HonestRingCheck(n, secret, r, c);
  }
}
