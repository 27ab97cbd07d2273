/** Paillier encryption with generator `g = n + 1` over u128 (src/lib.rs):
    `encrypt`, the homomorphic scale-then-mask `mut_and_add` (and its two
    halves `encrypt_mut` / `encrypt_add`, used by the two-party commitment
    code), and `decrypt` through the L-function and `lcm(p - 1, q - 1)`.

    The operations are straight-line expressions over `pow_and_mod` and
    `invmod`; here they are functions over `ModPow` and `InvModSpec`, the
    specifications that the loops `PowAndMod` and `InvMod` are proved
    against. */
module Paillier {
  import opened Arith
  import opened Outcome
  import opened ModularArithmetic
  import Field

  /** `num_integer::gcd` (Euclid's algorithm gives the same value). */
  function Gcd(a: nat, b: nat): nat
    decreases b
  {
    if b == 0 then a else Gcd(b, a % b)
  }

  lemma NonnegQuotient(a: nat, b: nat, g: nat)
    requires g > 0
    ensures b / g >= 0 && a * (b / g) >= 0
  {
  }

  /** `num_integer::lcm`: 0 when both arguments are 0, otherwise
      `a * (b / gcd(a, b))` (the gcd is then positive). */
  function Lcm(a: nat, b: nat): nat
  {
    var g := Gcd(a, b);
    if g == 0 then 0 else NonnegQuotient(a, b, g); a * (b / g)
  }

  /** Carmichael's `λ = lcm(p - 1, q - 1)` of the decryption key. */
  function Lambda(p: nat, q: nat): nat
    requires p >= 1 && q >= 1
  {
    Lcm(p - 1, q - 1)
  }

  // ---------------------------------------------------------------------
  // Encryption
  // ---------------------------------------------------------------------

  /** The u128 arithmetic of `encrypt(n, r, m)` neither overflows nor divides
      by zero: `n == 0` makes the final `% (n*n)` divide by zero, `n*n` must
      fit the squaring bound of `pow_and_mod`, and so must `r`. */
  predicate EncryptSafe(n: nat, r: nat)
  {
    n >= 1 && n * n <= U64 && PowAndModSafe(r, n, n * n)
  }

  /** `Encrypt::encrypt` (src/lib.rs:67-71). */
  function Encrypt(n: nat, r: nat, m: nat): (c: nat)
    requires EncryptSafe(n, r)
    ensures c < n * n
  {
    (ModPow(n + 1, m, n * n) * ModPow(r, n, n * n)) % (n * n)
  }

  /** The `encrypt_mut` that com.rs:41-63 calls on a u128 `EncryptAddMut`
      (its definition, in mta.rs, does not compile), with the src/lib.rs
      `pow_and_mod`: `c^k mod n²`. main.rs's i128 `encrypt_mut` uses the naive
      power instead; `PaillierNaive` relates the two. */
  function ScaleCipher(n: nat, c: nat, k: nat): (c': nat)
    requires n * n <= U64 && PowAndModSafe(c, k, n * n)
    ensures k > 0 ==> c' < n * n
  {
    ModPow(c, k, n * n)
  }

  /** The mask `(n+1)^add · rand^n mod n²` shared by `encrypt_add` and
      `mut_and_add`. */
  function Mask(n: nat, add: nat, rand: nat): (v: nat)
    requires n >= 1 && n * n <= U64 && PowAndModSafe(rand, n, n * n)
    ensures v < n * n
  {
    (ModPow(n + 1, add, n * n) * ModPow(rand, n, n * n)) % (n * n)
  }

  /** The `encrypt_add` that com.rs:41-63 calls, with the src/lib.rs
      `pow_and_mod`: multiplies the cipher by a fresh encryption of `add`.
      main.rs's i128 `encrypt_add` is related to it in `PaillierNaive`. */
  function AddPlain(n: nat, c: nat, add: nat, rand: nat): (c': nat)
    requires n >= 1 && n * n <= U64 && PowAndModSafe(rand, n, n * n) && c < U64
    ensures c' < n * n
  {
    (Mask(n, add, rand) * c) % (n * n)
  }

  /** `EncryptAddMut::mut_and_add` (src/lib.rs:83-92): scale first, then
      mask; the mask itself is not scaled. */
  function MutAndAdd(n: nat, c: nat, add: nat, k: nat, rand: nat): (c': nat)
    requires n >= 1 && n * n <= U64 && PowAndModSafe(c, k, n * n) && PowAndModSafe(rand, n, n * n)
    ensures c' < n * n
  {
    (Mask(n, add, rand) * ModPow(c, k, n * n)) % (n * n)
  }

  // ---------------------------------------------------------------------
  // Decryption
  // ---------------------------------------------------------------------

  /** The u128 arithmetic of `decrypt(p, q, c)` neither overflows nor
      underflows at `p - 1`, `q - 1`. */
  predicate DecryptSafe(p: nat, q: nat, c: nat)
  {
    p >= 1 && q >= 1 && (p * q) * (p * q) <= U64 && PowAndModSafe(c, Lambda(p, q), (p * q) * (p * q))
  }

  /** The cipher half of decryption, `L(c^λ mod n²) · u mod n`, where `u` is
      the inverse found for the key half; `cs - 1` underflows at `cs == 0`. */
  function CipherHalf(n: nat, lambda: nat, c: nat, u: nat): (r: Result<nat>)
    requires n >= 1
    ensures r.Ok? ==> r.value < n
  {
    var cs := ModPow(c, lambda, n * n);
    if cs == 0 then Err(SubtractionUnderflow) else Ok((((cs - 1) / n) * u) % n)
  }

  /** `Decrypt::decrypt` (src/lib.rs:102-114). The three ways it panics are
      errors: `gs - 1` or `cs - 1` below zero, and `invmod` failing. */
  function Decrypt(p: nat, q: nat, c: nat): (r: Result<nat>)
    requires DecryptSafe(p, q, c)
    ensures r.Ok? ==> r.value < p * q
  {
    var n := p * q;
    var lambda := Lambda(p, q);
    var gs := ModPow(n + 1, lambda, n * n);
    if gs == 0 then Err(SubtractionUnderflow)
    else
      var u := InvModSpec((gs - 1) / n, n);
      if u.Err? then Err(u.error) else CipherHalf(n, lambda, c, u.value)
  }

  // ---------------------------------------------------------------------
  // The binomial identity behind g = n + 1
  // ---------------------------------------------------------------------

  lemma {:induction false} BinomialLinear(n: nat, x: nat)
    requires n >= 1
    ensures Pow(n + 1, x) % (n * n) == (1 + x * n) % (n * n)
  {
    if x > 0 {
      BinomialLinear(n, x - 1);
      var N := n * n;
      var a, b := Pow(n + 1, x - 1), 1 + (x - 1) * n;
      assert Pow(n + 1, x) == (n + 1) * a;
      MulModRight(n + 1, a, N);
      MulModRight(n + 1, b, N);
      BinomialStep(n, x - 1);
      ModMultiple(x - 1, 1 + x * n, N);
    }
  }

  lemma BinomialStep(n: int, y: int)
    ensures (n + 1) * (1 + y * n) == y * (n * n) + (1 + (y + 1) * n)
  {
  }

  /** `(n+1)^x ≡ 1 + (x mod n)·n  (mod n²)`. */
  lemma Binomial(n: nat, x: nat)
    requires n >= 2
    ensures Pow(n + 1, x) % (n * n) == 1 + (x % n) * n
  {
    BinomialLinear(n, x);
    var q, r := x / n, x % n;
    SplitTimes(x, q, r, n);
    ModMultiple(q, 1 + r * n, n * n);
    DigitBelow(r, n);
    ModSmall(1 + r * n, n * n);
  }

  lemma SplitTimes(x: int, q: int, r: int, n: int)
    requires x == q * n + r
    ensures 1 + x * n == q * (n * n) + (1 + r * n)
  {
    calc {
      x * n;
      (q * n + r) * n;
      q * n * n + r * n;
    }
  }

  lemma DigitBelow(r: int, n: int)
    requires 0 <= r < n && n >= 2
    ensures 0 <= 1 + r * n < n * n
  {
    MulLe(0, 0, r, n);
    MulLe(r, n, n - 1, n);
    assert (n - 1) * n == n * n - n;
  }

  /** `L((n+1)^λ mod n²) == λ mod n`: the key-side half of decryption. */
  lemma DecryptKey(n: nat, lambda: nat)
    requires n >= 2
    ensures ModPow(n + 1, lambda, n * n) == 1 + (lambda % n) * n
    ensures (ModPow(n + 1, lambda, n * n) - 1) / n == lambda % n
  {
    ModPowIsPow(n + 1, lambda, n * n);
    Binomial(n, lambda);
    ModUnique((lambda % n) * n, lambda % n, 0, n);
  }

  /** The cipher-side half: a cipher of the form `(n+1)^m · s` with
      `s^λ ≡ 1` raises to `1 + (m·λ mod n)·n`. */
  lemma CipherPower(n: nat, lambda: nat, c: nat, m: nat, s: int)
    requires n >= 2 && lambda >= 1
    requires c == (Pow(n + 1, m) * s) % (n * n)
    requires Pow(s, lambda) % (n * n) == 1
    ensures ModPow(c, lambda, n * n) == 1 + ((m * lambda) % n) * n
  {
    var N := n * n;
    calc {
      ModPow(c, lambda, N);
      Pow(c, lambda) % N;
      { PowMod(Pow(n + 1, m) * s, lambda, N); }
      Pow(Pow(n + 1, m) * s, lambda) % N;
      { PowMulBase(Pow(n + 1, m), s, lambda); }
      (Pow(Pow(n + 1, m), lambda) * Pow(s, lambda)) % N;
      { PowPow(n + 1, m, lambda); }
      (Pow(n + 1, m * lambda) * Pow(s, lambda)) % N;
      { MulModRight(Pow(n + 1, m * lambda), Pow(s, lambda), N); }
      (Pow(n + 1, m * lambda) * 1) % N;
      { Binomial(n, m * lambda); }
      1 + ((m * lambda) % n) * n;
    }
  }

  /** The last step of decryption: `L(c^λ) · u ≡ m` when `u` inverts `λ`. */
  lemma PlainFromPower(n: nat, lambda: nat, m: nat, u: nat)
    requires n >= 2 && (u * (lambda % n)) % n == 1
    ensures (((m * lambda) % n) * u) % n == m % n
  {
    calc {
      (((m * lambda) % n) * u) % n;
      { MulModLeft(m * lambda, u, n); }
      ((m * lambda) * u) % n;
      { assert (m * lambda) * u == m * (lambda * u); }
      (m * (lambda * u)) % n;
      { MulModRight(m, lambda * u, n); }
      (m * ((lambda * u) % n)) % n;
      { MulModLeft(lambda, u, n); assert (lambda % n) * u == u * (lambda % n); }
      (m * 1) % n;
    }
  }

  /** Decryption recovers `m mod n` from any cipher `(n+1)^m · s mod n²` whose
      randomness part satisfies `s^λ ≡ 1 (mod n²)`, exactly when `invmod`
      finds the inverse of `λ mod n`; otherwise it reports `invmod`'s
      failure. */
  lemma DecryptRecovers(p: nat, q: nat, c: nat, m: nat, s: int)
    requires DecryptSafe(p, q, c) && p * q >= 2
    requires c == (Pow(p * q + 1, m) * s) % ((p * q) * (p * q))
    requires Pow(s, Lambda(p, q)) % ((p * q) * (p * q)) == 1
    ensures var inv := InvModSpec(Lambda(p, q) % (p * q), p * q);
      Decrypt(p, q, c) == if inv.Ok? then Ok(m % (p * q)) else Err(inv.error)
  {
    var n, lambda := p * q, Lambda(p, q);
    var inv := InvModSpec(lambda % n, n);
    var gs := ModPow(n + 1, lambda, n * n);
    assert gs >= 1 && (gs - 1) / n == lambda % n by {
      DecryptKey(n, lambda);
      MulLe(0, 0, lambda % n, n);
    }
    if inv.Ok? {
      var u := inv.value;
      var cl := (m * lambda) % n;
      var cs := ModPow(c, lambda, n * n);
      assert cs >= 1 && (cs - 1) / n == cl by {
        CipherPower(n, lambda, c, m, s);
        MulLe(0, 0, cl, n);
        ModUnique(cl * n, cl, 0, n);
      }
      assert (cl * u) % n == m % n by {
        InvModSound(lambda % n, n, u);
        PlainFromPower(n, lambda, m, u);
      }
    }
  }

  /** The randomness part of `Encrypt(n, r, m)` is `r^n`, and `(r^n)^λ ≡ 1`
      whenever `r^(n·λ) ≡ 1`. */
  lemma EncryptForm(n: nat, r: nat, m: nat, lambda: nat)
    requires EncryptSafe(n, r) && n >= 2
    ensures Encrypt(n, r, m) == (Pow(n + 1, m) * (Pow(r, n) % (n * n))) % (n * n)
    ensures Pow(r, n * lambda) % (n * n) == 1 ==> Pow(Pow(r, n) % (n * n), lambda) % (n * n) == 1
  {
    var N := n * n;
    ModPowIsPow(n + 1, m, N);
    ModPowIsPow(r, n, N);
    MulModLeft(Pow(n + 1, m), Pow(r, n) % N, N);
    PowMod(Pow(r, n), lambda, N);
    PowPow(r, n, lambda);
  }

  /** Round trip: decrypting an encryption of `m < n` gives `m` back, given
      the randomness condition `r^(n·λ) ≡ 1 (mod n²)`, which holds for every
      `r` coprime to `n` when `p`, `q` are distinct primes. */
  lemma EncryptRoundTrip(p: nat, q: nat, r: nat, m: nat)
    requires EncryptSafe(p * q, r) && p >= 1 && q >= 1 && p * q >= 2 && m < p * q
    requires Pow(r, (p * q) * Lambda(p, q)) % ((p * q) * (p * q)) == 1
    ensures var inv := InvModSpec(Lambda(p, q) % (p * q), p * q);
      Decrypt(p, q, Encrypt(p * q, r, m)) == if inv.Ok? then Ok(m) else Err(inv.error)
  {
    var n := p * q;
    EncryptForm(n, r, m, Lambda(p, q));
    DecryptRecovers(p, q, Encrypt(n, r, m), m, Pow(r, n) % (n * n));
    ModSmall(m, n);
  }

  /** With randomness 1 the round trip needs no assumption. */
  lemma EncryptRoundTripUnitRandomness(p: nat, q: nat, m: nat)
    requires p >= 1 && q >= 1 && p * q >= 2 && (p * q) * (p * q) <= U64 && m < p * q
    ensures var inv := InvModSpec(Lambda(p, q) % (p * q), p * q);
      Decrypt(p, q, Encrypt(p * q, 1, m)) == if inv.Ok? then Ok(m) else Err(inv.error)
  {
    var n := p * q;
    PowOfOne(n * Lambda(p, q));
    ModSmall(1, n * n);
    EncryptRoundTrip(p, q, 1, m);
  }

  /** The mask is `(n+1)^add · rand^n mod n²`. */
  lemma MaskPower(n: nat, add: nat, rand: nat)
    requires n >= 2 && n * n <= U64 && PowAndModSafe(rand, n, n * n)
    ensures Mask(n, add, rand) == (Pow(n + 1, add) * Pow(rand, n)) % (n * n)
  {
    ModPowIsPow(n + 1, add, n * n);
    ModPowIsPow(rand, n, n * n);
    MulMod(Pow(n + 1, add), Pow(rand, n), n * n);
  }

  /** Scaling a cipher `(n+1)^k · s` by `w` gives `(n+1)^(k·w) · s^w`. */
  lemma ScaledCipherPower(n: nat, c: nat, k: nat, s: int, w: nat)
    requires n >= 2 && c == (Pow(n + 1, k) * s) % (n * n)
    ensures ModPow(c, w, n * n) == (Pow(n + 1, k * w) * Pow(s, w)) % (n * n)
  {
    ModPowIsPow(c, w, n * n);
    PowMod(Pow(n + 1, k) * s, w, n * n);
    PowMulBase(Pow(n + 1, k), s, w);
    PowPow(n + 1, k, w);
  }

  lemma Regroup(a: int, r: int, b: int, s: int)
    ensures (a * r) * (b * s) == (b * a) * (s * r)
  {
  }

  /** `mut_and_add` on a cipher `(n+1)^k · s` gives the cipher
      `(n+1)^(k·w + add) · s^w · rand^n`: the plaintext is scaled by `w` and
      then shifted by the unscaled `add`. */
  lemma MutAndAddForm(n: nat, c: nat, k: nat, s: int, add: nat, w: nat, rand: nat)
    requires n >= 2 && n * n <= U64 && PowAndModSafe(c, w, n * n) && PowAndModSafe(rand, n, n * n)
    requires c == (Pow(n + 1, k) * s) % (n * n)
    ensures MutAndAdd(n, c, add, w, rand) == (Pow(n + 1, k * w + add) * (Pow(s, w) * Pow(rand, n))) % (n * n)
  {
    var A, R, B, S := Pow(n + 1, add), Pow(rand, n), Pow(n + 1, k * w), Pow(s, w);
    MaskPower(n, add, rand);
    ScaledCipherPower(n, c, k, s, w);
    MulMod(A * R, B * S, n * n);
    Regroup(A, R, B, S);
    PowAdd(n + 1, k * w, add);
  }

  /** A product of two values whose λ-th powers are 1 has the same property. */
  lemma UnitProduct(a: int, b: int, w: nat, lambda: nat, N: nat)
    requires N >= 2 && Pow(a, lambda) % N == 1 && Pow(b, lambda) % N == 1
    ensures Pow(Pow(a, w) * b, lambda) % N == 1
  {
    PowMulBase(Pow(a, w), b, lambda);
    PowPow(a, w, lambda);
    PowPow(a, lambda, w);
    assert w * lambda == lambda * w;
    PowMod(Pow(a, lambda), w, N);
    PowOfOne(w);
    ModSmall(1, N);
    MulMod(Pow(a, w * lambda), Pow(b, lambda), N);
  }

  /** The homomorphism the MtA step relies on: decrypting
      `mut_and_add(encrypt(k), add, w)` gives `(k·w + add) mod n`. */
  lemma DecryptMutAndAdd(p: nat, q: nat, r: nat, k: nat, add: nat, w: nat, rand: nat)
    requires EncryptSafe(p * q, r) && p >= 1 && q >= 1 && p * q >= 2
    requires PowAndModSafe(Encrypt(p * q, r, k), w, (p * q) * (p * q))
    requires PowAndModSafe(rand, p * q, (p * q) * (p * q))
    requires Pow(r, (p * q) * Lambda(p, q)) % ((p * q) * (p * q)) == 1
    requires Pow(rand, (p * q) * Lambda(p, q)) % ((p * q) * (p * q)) == 1
    ensures var inv := InvModSpec(Lambda(p, q) % (p * q), p * q);
      Decrypt(p, q, MutAndAdd(p * q, Encrypt(p * q, r, k), add, w, rand))
        == if inv.Ok? then Ok((k * w + add) % (p * q)) else Err(inv.error)
  {
    var n, lambda := p * q, Lambda(p, q);
    var N := n * n;
    var s := Pow(r, n) % N;
    var c0 := Encrypt(n, r, k);
    EncryptForm(n, r, k, lambda);
    assert c0 == (Pow(n + 1, k) * s) % N;
    assert Pow(s, lambda) % N == 1;
    var c := MutAndAdd(n, c0, add, w, rand);
    var t := Pow(s, w) * Pow(rand, n);
    MulLe(0, 0, k, w);
    MutAndAddForm(n, c0, k, s, add, w, rand);
    assert c == (Pow(n + 1, k * w + add) * t) % N;
    PowPow(rand, n, lambda);
    assert Pow(Pow(rand, n), lambda) % N == 1;
    UnitProduct(s, Pow(rand, n), w, lambda, N);
    assert Pow(t, lambda) % N == 1;
    assert DecryptSafe(p, q, c);
    DecryptRecovers(p, q, c, k * w + add, t);
  }

  // ---------------------------------------------------------------------
  // Decryption with an extended-Euclid inverse
  // ---------------------------------------------------------------------

  /** Euclid's algorithm inside `Field.Egcd` computes `Gcd`. */
  lemma {:induction false} EgcdIsGcd(a: nat, b: nat)
    ensures Field.Egcd(a, b).0 == Gcd(a, b)
    decreases b
  {
    if b != 0 {
      EgcdIsGcd(b, a % b);
    }
  }

  /** The inverse of `a` modulo `n` by the extended Euclidean algorithm, the
      way `Field.Invert` inverts modulo `P`. */
  function EgcdInverse(a: nat, n: nat): (r: Result<nat>)
    requires n >= 1
    ensures r.Ok? ==> r.value < n
    ensures r.Err? ==> r.error == NoInverse
  {
    var e := Field.Egcd(a, n);
    if e.0 == 1 then Ok(e.1 % n) else Err(NoInverse)
  }

  /** The extended-Euclid inverse exists exactly when `gcd(a, n) == 1`, and
      then it is an inverse. */
  lemma EgcdInverseSound(a: nat, n: nat)
    requires n >= 2
    ensures EgcdInverse(a, n).Ok? <==> Gcd(a, n) == 1
    ensures EgcdInverse(a, n).Ok? ==> (EgcdInverse(a, n).value * a) % n == 1
  {
    EgcdIsGcd(a, n);
    var e := Field.Egcd(a, n);
    if e.0 == 1 {
      Field.EgcdBezout(a, n);
      assert e.1 * a == (-e.2) * n + 1;
      ModMultiple(-e.2, 1, n);
      ModSmall(1, n);
      MulModLeft(e.1, a, n);
    }
  }

  /** `decrypt` with `invmod` replaced by the extended-Euclid inverse of
      `L(g^λ mod n²)`; every other step is that of `Decrypt`. */
  function DecryptCorrected(p: nat, q: nat, c: nat): (r: Result<nat>)
    requires DecryptSafe(p, q, c)
    ensures r.Ok? ==> r.value < p * q
  {
    var n := p * q;
    var lambda := Lambda(p, q);
    var gs := ModPow(n + 1, lambda, n * n);
    if gs == 0 then Err(SubtractionUnderflow)
    else
      var u := EgcdInverse((gs - 1) / n, n);
      if u.Err? then Err(u.error) else CipherHalf(n, lambda, c, u.value)
  }

  /** The corrected decryption recovers `m mod n` from any cipher
      `(n+1)^m · s mod n²` with `s^λ ≡ 1`, exactly when `gcd(λ mod n, n) == 1`. */
  lemma DecryptCorrectedRecovers(p: nat, q: nat, c: nat, m: nat, s: int)
    requires DecryptSafe(p, q, c) && p * q >= 2
    requires c == (Pow(p * q + 1, m) * s) % ((p * q) * (p * q))
    requires Pow(s, Lambda(p, q)) % ((p * q) * (p * q)) == 1
    ensures DecryptCorrected(p, q, c)
      == if Gcd(Lambda(p, q) % (p * q), p * q) == 1 then Ok(m % (p * q)) else Err(NoInverse)
  {
    var n, lambda := p * q, Lambda(p, q);
    var gs := ModPow(n + 1, lambda, n * n);
    assert gs >= 1 && (gs - 1) / n == lambda % n by {
      DecryptKey(n, lambda);
      MulLe(0, 0, lambda % n, n);
    }
    EgcdInverseSound(lambda % n, n);
    var inv := EgcdInverse(lambda % n, n);
    if inv.Ok? {
      var u := inv.value;
      var cl := (m * lambda) % n;
      var cs := ModPow(c, lambda, n * n);
      assert cs >= 1 && (cs - 1) / n == cl by {
        CipherPower(n, lambda, c, m, s);
        MulLe(0, 0, cl, n);
        ModUnique(cl * n, cl, 0, n);
      }
      assert (cl * u) % n == m % n by {
        PlainFromPower(n, lambda, m, u);
      }
    }
  }

  /** Round trip of the corrected decryption: `m < n` comes back whenever
      `gcd(λ mod n, n) == 1`, whatever `invmod` would have done. */
  lemma CorrectedRoundTrip(p: nat, q: nat, r: nat, m: nat)
    requires EncryptSafe(p * q, r) && p >= 1 && q >= 1 && p * q >= 2 && m < p * q
    requires Pow(r, (p * q) * Lambda(p, q)) % ((p * q) * (p * q)) == 1
    ensures DecryptCorrected(p, q, Encrypt(p * q, r, m))
      == if Gcd(Lambda(p, q) % (p * q), p * q) == 1 then Ok(m) else Err(NoInverse)
  {
    var n := p * q;
    EncryptForm(n, r, m, Lambda(p, q));
    DecryptCorrectedRecovers(p, q, Encrypt(n, r, m), m, Pow(r, n) % (n * n));
    ModSmall(m, n);
  }

  /** The key `p = 5, q = 13` has `λ = 12` and `gcd(12, 65) == 1`, yet
      `decrypt` panics on every cipher of it, because `invmod(12, 65)` stalls;
      the corrected decryption returns the message. */
  lemma DecryptFailsOnInvertibleKey(m: nat)
    requires m < 65
    ensures Lambda(5, 13) == 12 && Gcd(12, 65) == 1
    ensures Decrypt(5, 13, Encrypt(65, 1, m)) == Err(NoInverse)
    ensures DecryptCorrected(5, 13, Encrypt(65, 1, m)) == Ok(m)
  {
    assert Lambda(5, 13) == 12;
    InvModStallsOnTwelve();
    EncryptRoundTripUnitRandomness(5, 13, m);
    PowOfOne(65 * 12);
    ModSmall(1, 65 * 65);
    CorrectedRoundTrip(5, 13, 1, m);
  }
}
