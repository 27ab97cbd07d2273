/** The i128 Paillier of main.rs. It has the same formulas as src/lib.rs but
    exponentiates by repeated multiplication (`NaivePowMod`), which returns
    the base unreduced for exponents 0 and 1, and it takes the public modulus
    `n` of `decrypt` as a separate argument. Inputs are taken nonnegative
    (all the values the file uses are); Rust's truncating `/` and `%` on i128
    are written out. */
module PaillierNaive {
  import opened Arith
  import opened Outcome
  import opened ModularArithmetic
  import Paillier

  /** Rust's `/` on i128 for a positive divisor: rounds toward zero. */
  function TruncDiv(a: int, m: int): int
    requires m > 0
  {
    if a >= 0 then a / m else -((-a) / m)
  }

  /** No i128 product of `encrypt` overflows. */
  predicate NaiveEncryptSafe(n: int, r: int)
  {
    n >= 1 && 0 <= r < I63 && n * n < I63
  }

  /** `Encrypt::encrypt` (main.rs:40-44). Both factors are nonnegative, so
      the truncated remainder is a residue modulo `n²`. */
  function NaiveEncrypt(n: int, r: int, m: int): (c: int)
    requires NaiveEncryptSafe(n, r)
    ensures 0 <= c < n * n
  {
    var x := NaivePowMod(n + 1, m, n * n) * NaivePowMod(r, n, n * n);
    NaivePowNonneg(n + 1, m, n * n);
    NaivePowNonneg(r, n, n * n);
    MulLe(0, 0, NaivePowMod(n + 1, m, n * n), NaivePowMod(r, n, n * n));
    TruncRemAsEuclid(x, n * n);
    TruncRem(x, n * n)
  }

  /** A naive power of a nonnegative base is nonnegative. */
  lemma NaivePowNonneg(b: int, e: int, m: int)
    requires b >= 0 && m >= 1
    ensures NaivePowMod(b, e, m) >= 0
  {
    if e >= 2 {
      PowNonneg(b, e);
    }
  }

  /** `Encrypt_add_mut::encrypt_mut` (main.rs:63-66). `n*n` and every
      product of `pow_and_mod` fit in i128 (a debug build panics otherwise). */
  function NaiveScaleCipher(n: int, c: int, k: int): (c': int)
    requires n >= 1 && n * n < I63 && NaivePowSafe(c, k, n * n)
    ensures k >= 2 ==> Abs(c') < n * n
  {
    if k >= 2 then TruncRemBound(Pow(c, k), n * n); NaivePowMod(c, k, n * n)
    else NaivePowMod(c, k, n * n)
  }

  /** `Encrypt_add_mut::encrypt_add` (main.rs:56-62). The mask takes the
      products of an encryption, and `add_value * cipher` fits in i128 when
      the incoming cipher is below 2^63 in magnitude. */
  function NaiveAddPlain(n: int, c: int, add: int, rand: int): (c': int)
    requires NaiveEncryptSafe(n, rand) && Abs(c) < I63
    ensures Abs(c') < n * n
    ensures c >= 0 ==> 0 <= c'
  {
    var addValue := NaiveEncrypt(n, rand, add);
    MulLe(0, 0, addValue, Abs(c));
    TruncRemBound(addValue * c, n * n);
    TruncRem(addValue * c, n * n)
  }

  /** The i128 arithmetic of main.rs `decrypt` does not overflow: `g = p·q + 1`
      and the cipher are below 2^63, and so is `n²`, which bounds the residues
      that `invmod` and the final product multiply. */
  predicate NaiveDecryptSafe(p: int, q: int, n: int, c: int)
  {
    p >= 1 && q >= 1 && n >= 1 && n * n < I63 && p * q + 1 < I63 && 0 <= c < I63
  }

  /** `Decrypt::decrypt` (main.rs:77-88). As in src/lib.rs the panics of
      `invmod` are errors; `gs - 1` and `cs - 1` cannot panic on i128, they go
      to -1, which truncating division turns into 0 for `n >= 2`. For the
      modulus argument `n == 1` it leaves `l == -1`, and main.rs's
      `invmod(-1, 1)` zeroes `d` and `r` in its one round and panics: the
      `l < 0` branch. */
  function NaiveDecrypt(p: int, q: int, n: int, c: int): (r: Result<int>)
    requires NaiveDecryptSafe(p, q, n, c)
    ensures r.Ok? ==> 0 <= r.value < n
  {
    var g := p * q + 1;
    var lambda := Paillier.Lambda(p, q);
    var gs := NaivePowMod(g, lambda, n * n);
    var l := TruncDiv(gs - 1, n);
    if l < 0 then Err(NoInverse)
    else
      var u := InvModSpec(l, n);
      if u.Err? then Err(u.error)
      else
        var cs := NaivePowMod(c, lambda, n * n);
        var cl := TruncDiv(cs - 1, n);
        NaivePowNonneg(c, lambda, n * n);
        CipherHalfResidue(cs, n, u.value);
        Ok(TruncRem(cl * u.value, n))
  }

  /** The last step of `decrypt` gives a residue modulo `n`: `cs − 1` is at
      least −1, which the truncating division turns into 0 for `n >= 2`, and
      modulo 1 every remainder is 0. */
  lemma CipherHalfResidue(cs: int, n: int, u: nat)
    requires cs >= 0 && n >= 1
    ensures 0 <= TruncRem(TruncDiv(cs - 1, n) * u, n) < n
  {
    var cl := TruncDiv(cs - 1, n);
    if n >= 2 {
      MulLe(0, 0, cl, u);
      TruncRemAsEuclid(cl * u, n);
    } else {
      TruncRemBound(cl * u, n);
    }
  }

  /** For a nonnegative base and exponent at least 2 the naive power is the
      square-and-multiply one. */
  lemma NaiveIsModPow(b: nat, e: nat, m: nat)
    requires e >= 2 && m >= 1
    ensures NaivePowMod(b, e, m) == ModPow(b, e, m)
  {
    PowNonneg(b, e);
    TruncRemAsEuclid(Pow(b, e), m);
  }

  /** At exponent 1 the naive power returns the base unreduced. */
  lemma NaiveAtOne(b: nat, m: nat)
    requires b < m
    ensures NaivePowMod(b, 1, m) == ModPow(b, 1, m)
  {
    ModSmall(b, m);
  }

  /** For every message `m >= 1` main.rs encrypts as src/lib.rs does. */
  lemma NaiveEncryptAgrees(n: nat, r: nat, m: nat)
    requires NaiveEncryptSafe(n, r) && Paillier.EncryptSafe(n, r) && n >= 2 && m >= 1
    ensures NaiveEncrypt(n, r, m) == Paillier.Encrypt(n, r, m)
  {
    if m == 1 {
      assert n + 1 < n * n by { MulAtLeast(n, n); assert n * n == n + (n - 1) * n; MulAtLeast(n - 1, n); }
      NaiveAtOne(n + 1, n * n);
    } else {
      NaiveIsModPow(n + 1, m, n * n);
    }
    NaiveIsModPow(r, n, n * n);
    var x := ModPow(n + 1, m, n * n) * ModPow(r, n, n * n);
    TruncRemAsEuclid(x, n * n);
  }

  /** The message 0 is encrypted as the message 1: `pow_and_mod(n+1, 0, ·)`
      returns `n + 1`, not 1. */
  lemma NaiveEncryptZeroIsOne(n: nat, r: nat)
    requires NaiveEncryptSafe(n, r) && Paillier.EncryptSafe(n, r) && n >= 2
    ensures NaiveEncrypt(n, r, 0) == Paillier.Encrypt(n, r, 1)
  {
    NaiveEncryptAgrees(n, r, 1);
  }

  /** So a zero message decrypts to 1 whenever decryption succeeds, whereas
      src/lib.rs encrypts it to a cipher of 0. */
  lemma NaiveEncryptZeroDecryptsToOne(p: nat, q: nat)
    requires p >= 1 && q >= 1 && p * q >= 2 && (p * q) * (p * q) < I63
    requires InvModSpec(Paillier.Lambda(p, q) % (p * q), p * q).Ok?
    ensures NaiveEncrypt(p * q, 1, 0) == Paillier.Encrypt(p * q, 1, 1)
      && Paillier.Decrypt(p, q, NaiveEncrypt(p * q, 1, 0)) == Ok(1)
    ensures NaiveDecryptSafe(p, q, p * q, NaiveEncrypt(p * q, 1, 0))
    ensures Paillier.Lambda(p, q) >= 2 ==> NaiveDecrypt(p, q, p * q, NaiveEncrypt(p * q, 1, 0)) == Ok(1)
    ensures Paillier.Decrypt(p, q, Paillier.Encrypt(p * q, 1, 0)) == Ok(0)
  {
    var n := p * q;
    assert n * n <= U64;
    BelowSquare(n);
    var c := NaiveEncrypt(n, 1, 0);
    NaiveEncryptZeroIsOne(n, 1);
    assert 0 <= c < n * n;
    Paillier.EncryptRoundTripUnitRandomness(p, q, 1);
    Paillier.EncryptRoundTripUnitRandomness(p, q, 0);
    if Paillier.Lambda(p, q) >= 2 {
      NaiveDecryptsOne(p, q, c);
    }
  }

  lemma BelowSquare(n: int)
    requires n >= 2
    ensures n + 1 < n * n
  {
    MulAtLeast(n - 1, n);
    assert n * n == n + (n - 1) * n;
  }

  lemma NaiveDecryptsOne(p: nat, q: nat, c: nat)
    requires Paillier.DecryptSafe(p, q, c) && NaiveDecryptSafe(p, q, p * q, c) && Paillier.Lambda(p, q) >= 2
    requires Paillier.Decrypt(p, q, c) == Ok(1)
    ensures NaiveDecrypt(p, q, p * q, c) == Ok(1)
  {
    NaiveDecryptAgrees(p, q, c);
  }

  lemma NaiveMaskAgrees(n: nat, add: nat, rand: nat)
    requires NaiveEncryptSafe(n, rand) && n >= 2 && add >= 1
    ensures TruncRem(NaivePowMod(n + 1, add, n * n) * NaivePowMod(rand, n, n * n), n * n)
      == Paillier.Mask(n, add, rand)
  {
    var N := n * n;
    NaiveIsModPow(rand, n, N);
    if add == 1 {
      assert n + 1 < N by { MulAtLeast(n - 1, n); assert N == n + (n - 1) * n; }
      NaiveAtOne(n + 1, N);
    } else {
      NaiveIsModPow(n + 1, add, N);
    }
    MulLe(0, 0, ModPow(n + 1, add, N), ModPow(rand, n, N));
    TruncRemAsEuclid(ModPow(n + 1, add, N) * ModPow(rand, n, N), N);
  }

  /** `encrypt_mut` followed by `encrypt_add` is src/lib.rs `mut_and_add` when
      the scale factor is at least 2 and the added value at least 1. */
  lemma NaiveMutThenAddAgrees(n: nat, c: nat, add: nat, k: nat, rand: nat)
    requires NaiveEncryptSafe(n, rand) && n >= 2 && k >= 2 && add >= 1 && c < I63
    ensures NaiveAddPlain(n, NaiveScaleCipher(n, c, k), add, rand) == Paillier.MutAndAdd(n, c, add, k, rand)
  {
    var N := n * n;
    NaiveIsModPow(c, k, N);
    NaiveMaskAgrees(n, add, rand);
    var m, x := Paillier.Mask(n, add, rand), ModPow(c, k, N);
    MulLe(0, 0, m, x);
    TruncRemAsEuclid(m * x, N);
  }

  /** `λ >= 2` needs both primes at least 2 (`lcm(0, x) == 0`). */
  lemma LambdaAtLeastTwo(p: nat, q: nat)
    requires p >= 1 && q >= 1 && Paillier.Lambda(p, q) >= 2
    ensures p >= 2 && q >= 2 && p * q >= 4
  {
    MulLe(2, 2, p, q);
  }

  /** The last step: on `cs >= 1` both versions compute `((cs-1)/n · u) mod n`. */
  lemma NaivePlainStep(cs: nat, n: nat, u: nat)
    requires cs >= 1 && n >= 1
    ensures TruncRem(TruncDiv(cs - 1, n) * u, n) == (((cs - 1) / n) * u) % n
  {
    MulLe(0, 0, (cs - 1) / n, u);
    TruncRemAsEuclid(((cs - 1) / n) * u, n);
  }

  /** The key half of main.rs decryption is `λ mod n`, as in src/lib.rs. */
  lemma NaiveDecryptKey(p: nat, q: nat, n: nat)
    requires n == p * q && p >= 2 && q >= 2 && n >= 4 && n * n < I63 && Paillier.Lambda(p, q) >= 2
    ensures TruncDiv(NaivePowMod(p * q + 1, Paillier.Lambda(p, q), n * n) - 1, n) == Paillier.Lambda(p, q) % n
    ensures ModPow(n + 1, Paillier.Lambda(p, q), n * n) == 1 + (Paillier.Lambda(p, q) % n) * n
    ensures (ModPow(n + 1, Paillier.Lambda(p, q), n * n) - 1) / n == Paillier.Lambda(p, q) % n
  {
    var lambda := Paillier.Lambda(p, q);
    NaiveIsModPow(n + 1, lambda, n * n);
    Paillier.DecryptKey(n, lambda);
  }

  /** The last step of src/lib.rs decryption, from the key inverse `u` and
      the cipher power `cs`. */
  function LibFinalStep(u: Result<nat>, cs: nat, n: nat): Result<nat>
    requires n >= 1
  {
    if u.Err? then Err(u.error)
    else if cs == 0 then Err(SubtractionUnderflow)
    else Ok((((cs - 1) / n) * u.value) % n)
  }

  /** The last step of main.rs decryption. */
  function NaiveFinalStep(u: Result<nat>, cs: nat, n: nat): Result<int>
    requires n >= 1
  {
    if u.Err? then Err(u.error)
    else Ok(TruncRem(TruncDiv(cs - 1, n) * u.value, n))
  }

  /** src/lib.rs decryption once its key half is known to be `λ mod n`. */
  lemma LibDecryptUnfold(p: nat, q: nat, c: nat)
    requires Paillier.DecryptSafe(p, q, c) && Paillier.Lambda(p, q) >= 2
    ensures p * q >= 4 && Paillier.Decrypt(p, q, c) == LibFinalStep(
      InvModSpec(Paillier.Lambda(p, q) % (p * q), p * q), ModPow(c, Paillier.Lambda(p, q), (p * q) * (p * q)), p * q)
  {
    LambdaAtLeastTwo(p, q);
    Paillier.DecryptKey(p * q, Paillier.Lambda(p, q));
  }

  /** main.rs decryption once its key half is known to be `λ mod n`. */
  lemma NaiveDecryptUnfold(p: nat, q: nat, c: nat)
    requires Paillier.DecryptSafe(p, q, c) && NaiveDecryptSafe(p, q, p * q, c) && Paillier.Lambda(p, q) >= 2
    ensures p * q >= 4 && NaiveDecrypt(p, q, p * q, c) == NaiveFinalStep(
      InvModSpec(Paillier.Lambda(p, q) % (p * q), p * q), ModPow(c, Paillier.Lambda(p, q), (p * q) * (p * q)), p * q)
  {
    LambdaAtLeastTwo(p, q);
    var n := p * q;
    NaiveDecryptKey(p, q, n);
    NaiveIsModPow(c, Paillier.Lambda(p, q), n * n);
  }

  /** Where src/lib.rs underflows at `cs - 1`, main.rs divides -1 by `n`
      toward zero and yields 0. */
  lemma NaivePlainAtZero(n: nat, u: nat)
    requires n >= 2
    ensures TruncRem(TruncDiv(0 - 1, n) * u, n) == 0
  {
    ModUnique(1, 0, 1, n);
    ModSmall(0, n);
  }

  /** The two last steps agree except where src/lib.rs underflows at
      `cs - 1`: main.rs divides -1 by `n` toward zero and yields 0. */
  lemma FinalStepsAgree(u: Result<nat>, cs: nat, n: nat)
    requires n >= 2 && (u.Err? ==> u.error != SubtractionUnderflow)
    ensures NaiveFinalStep(u, cs, n) ==
      if LibFinalStep(u, cs, n) == Err(SubtractionUnderflow) then Ok(0) else LibFinalStep(u, cs, n)
  {
    if u.Ok? && cs == 0 {
      NaivePlainAtZero(n, u.value);
    } else if u.Ok? {
      NaivePlainStep(cs, n, u.value);
    }
  }

  /** With `λ >= 2`, main.rs decrypts as src/lib.rs does, except that where
      src/lib.rs underflows at `cs - 1` main.rs returns 0. */
  lemma NaiveDecryptAgrees(p: nat, q: nat, c: nat)
    requires Paillier.DecryptSafe(p, q, c) && NaiveDecryptSafe(p, q, p * q, c) && Paillier.Lambda(p, q) >= 2
    ensures p * q >= 4 && NaiveDecrypt(p, q, p * q, c) ==
      if Paillier.Decrypt(p, q, c) == Err(SubtractionUnderflow) then Ok(0) else Paillier.Decrypt(p, q, c)
  {
    LibDecryptUnfold(p, q, c);
    NaiveDecryptUnfold(p, q, c);
    InvModErrors(Paillier.Lambda(p, q) % (p * q), p * q);
    FinalStepsAgree(InvModSpec(Paillier.Lambda(p, q) % (p * q), p * q), ModPow(c, Paillier.Lambda(p, q), (p * q) * (p * q)), p * q);
  }

  /** With the modulus argument 1 (and `λ >= 2`, so that `pow_and_mod`
      reduces), `gs == 0`, `l == -1` and main.rs's decryption panics in
      `invmod` whatever the cipher. */
  lemma NaiveDecryptUnitModulus(p: nat, q: nat, c: nat)
    requires NaiveDecryptSafe(p, q, 1, c) && Paillier.Lambda(p, q) >= 2
    ensures NaiveDecrypt(p, q, 1, c) == Err(NoInverse)
  {
    NaiveIsModPow(p * q + 1, Paillier.Lambda(p, q), 1);
  }
}
