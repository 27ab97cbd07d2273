/** Modular exponentiation and the three modular-inverse searches of the
    repository: the square-and-multiply `pow_and_mod` of src/lib.rs (copied
    verbatim in src/paillier_verify.rs), the repeated-multiplication
    `pow_and_mod` of main.rs over i128, `invmod` (src/lib.rs and main.rs) and
    `find_mod_inverse` (src/paillier_verify.rs). */
module ModularArithmetic {
  import opened Arith
  import opened Outcome

  // ---------------------------------------------------------------------
  // Square-and-multiply exponentiation (src/lib.rs, src/paillier_verify.rs)
  // ---------------------------------------------------------------------

  /** What `pow_and_mod` computes: 1 for a zero exponent whatever the
      modulus, otherwise the residue of `b^e`. */
  function ModPow(b: nat, e: nat, m: nat): (r: nat)
    requires e == 0 || m > 0
  {
    if e == 0 then 1 else Pow(b, e) % m
  }

  /** `ModPow` agrees with the power at a positive modulus except for the
      exponent-0 shortcut, which is 1 whatever the modulus. */
  lemma ModPowIsPow(b: nat, e: nat, m: nat)
    requires m >= 2
    ensures ModPow(b, e, m) == Pow(b, e) % m
  {
    if e == 0 {
      ModSmall(1, m);
    }
  }

  /** The u128 products of `pow_and_mod` cannot overflow: a positive exponent
      needs a positive modulus (else `%` divides by zero), and an exponent of
      at least 2 squares the unreduced base once and then multiplies residues. */
  predicate PowAndModSafe(base: nat, exponent: nat, modulus: nat)
  {
    && (exponent >= 1 ==> modulus > 0)
    && (exponent >= 2 ==> base < U64 && modulus <= U64)
  }

  lemma SquareStep(b: int, k: nat, m: int)
    requires m > 0
    ensures Pow((b * b) % m, k) % m == Pow(b, 2 * k) % m
  {
    PowMod(b * b, k, m);
    assert Pow(b, 2) == b * b;
    PowPow(b, 2, k);
  }

  /** One round of the first loop: squaring the base halves an even exponent. */
  lemma StripStep(b: int, e: nat, m: int, t: int)
    requires m > 0 && e % 2 == 0 && Pow(b, e) % m == t
    ensures Pow((b * b) % m, e / 2) % m == t
  {
    SquareStep(b, e / 2, m);
    assert 2 * (e / 2) == e;
  }

  /** An odd power is the base times an even power. */
  lemma OddSplit(b: int, e: nat, m: int, t: int)
    requires m > 0 && e % 2 == 1 && Pow(b, e) % m == t
    ensures (b * Pow(b, e / 2 * 2)) % m == t
    ensures e == 1 ==> ((b % m) * Pow(b % m, e / 2 * 2)) % m == t
  {
    assert e / 2 * 2 == e - 1;
    if e == 1 {
      ModOfMod(b, m);
    }
  }

  /** One round of the second loop keeps `acc * base^(2*(e/2))` congruent to
      the target. */
  lemma MultiplyStep(a: int, b: int, e: nat, m: int, t: int)
    requires m > 0 && (a * Pow(b, e / 2 * 2)) % m == t
    ensures var e', b' := e / 2, (b * b) % m;
      (if e' % 2 == 1 then ((a * b') % m) * Pow(b', e' / 2 * 2) else a * Pow(b', e' / 2 * 2)) % m == t
  {
    var e', b' := e / 2, (b * b) % m;
    SquareStep(b, e', m);
    assert e / 2 * 2 == 2 * e';
    // a * b^(2e') == a * b'^e'  (mod m)
    MulModRight(a, Pow(b', e'), m);
    MulModRight(a, Pow(b, 2 * e'), m);
    assert (a * Pow(b', e')) % m == t;
    if e' % 2 == 1 {
      assert Pow(b', e') == b' * Pow(b', e' / 2 * 2);
      assert a * Pow(b', e') == (a * b') * Pow(b', e' / 2 * 2);
      MulModLeft(a * b', Pow(b', e' / 2 * 2), m);
    } else {
      assert e' / 2 * 2 == e';
    }
  }

  /** The square-and-multiply loop of src/lib.rs:9-35. */
  method PowAndMod(base0: u128, exponent0: u128, modulus: u128) returns (acc: u128)
    requires PowAndModSafe(base0, exponent0, modulus)
    ensures exponent0 == 0 ==> acc == 1
    ensures exponent0 > 0 ==> acc < modulus && acc == Pow(base0, exponent0) % modulus
    ensures acc == ModPow(base0, exponent0, modulus)
  {
    if exponent0 == 0 {
      return 1;
    }
    ghost var target := Pow(base0, exponent0) % modulus;
    var base: u128 := base0;
    var exponent: u128 := exponent0;
    // strip the trailing zero bits of the exponent
    while exponent % 2 == 0
      invariant 1 <= exponent <= exponent0
      invariant Pow(base, exponent) % modulus == target
      invariant exponent0 >= 2 ==> base < U64
      decreases exponent
    {
      ghost var b, e := base, exponent;
      ProductFits(base, base);
      base := base * base;
      base := base % modulus;
      exponent := exponent / 2;
      StripStep(b, e, modulus, target);
    }
    OddSplit(base, exponent, modulus, target);
    if exponent == 1 {
      ModOfMod(base, modulus);
      base := base % modulus;
    }
    acc := base;
    while exponent > 1
      invariant 1 <= exponent <= exponent0
      invariant (acc * Pow(base, exponent / 2 * 2)) % modulus == target
      invariant exponent == 1 ==> acc < modulus
      invariant exponent0 >= 2 ==> acc < U64 && base < U64
      decreases exponent
    {
      ghost var a, b, e := acc, base, exponent;
      exponent := exponent / 2;
      ProductFits(base, base);
      base := base * base;
      base := base % modulus;
      MultiplyStep(a, b, e, modulus, target);
      if exponent % 2 == 1 {
        assert base < U64;
        ProductFits(acc, base);
        acc := acc * base;
        acc := acc % modulus;
      }
    }
    assert Pow(base, 0) == 1;
    ModSmall(acc, modulus);
  }

  // ---------------------------------------------------------------------
  // Repeated-multiplication exponentiation over i128 (main.rs)
  // ---------------------------------------------------------------------

  /** 2^63 and 2^127, for the bounds of Rust's i128. */
  const I63: int := 0x8000_0000_0000_0000
  const I127: int := 0x8000_0000_0000_0000_0000_0000_0000_0000

  /** Rust's `i128`. */
  type i128 = x: int | -I127 <= x < I127

  function Abs(x: int): nat { if x < 0 then -x else x }

  /** Rust's `%` on signed integers: the remainder takes the sign of the
      dividend (truncating division), unlike Dafny's Euclidean `%`. */
  function TruncRem(a: int, m: int): (r: int)
    requires m != 0
  {
    if a >= 0 then a % Abs(m) else -((-a) % Abs(m))
  }

  lemma TruncRemAsEuclid(a: int, m: int)
    requires a >= 0 && m > 0
    ensures TruncRem(a, m) == a % m
  {
  }

  lemma TruncRemBound(a: int, m: int)
    requires m != 0
    ensures Abs(TruncRem(a, m)) < Abs(m)
    ensures Abs(TruncRem(a, m)) <= Abs(a)
  {
    if a >= 0 {
      if a < Abs(m) { ModSmall(a, Abs(m)); }
    } else {
      if -a < Abs(m) { ModSmall(-a, Abs(m)); }
    }
  }

  /** The sign of a product. */
  lemma MulSign(a: int, b: int)
    ensures a > 0 && b > 0 ==> a * b > 0
    ensures a < 0 && b < 0 ==> a * b > 0
    ensures a > 0 && b < 0 ==> a * b < 0
    ensures a < 0 && b > 0 ==> a * b < 0
  {
    if a < 0 && b < 0 {
      assert a * b == (-a) * (-b);
    } else if a < 0 && b > 0 {
      assert a * b == -((-a) * b);
    } else if a > 0 && b < 0 {
      assert a * b == -(a * (-b));
    }
  }

  lemma AbsMul(a: int, b: int)
    ensures Abs(a * b) == Abs(a) * Abs(b)
  {
    if a < 0 && b < 0 { assert a * b == (-a) * (-b); }
    else if a < 0 { assert -(a * b) == (-a) * b; }
    else if b < 0 { assert -(a * b) == a * (-b); }
  }

  /** Truncated remainders agree when the magnitudes agree modulo `|m|` and,
      unless that residue is 0, the signs agree. */
  lemma SameTruncRem(a: int, c: int, m: int)
    requires m != 0 && Abs(a) % Abs(m) == Abs(c) % Abs(m)
    requires Abs(a) % Abs(m) != 0 ==> (a < 0 <==> c < 0)
    ensures TruncRem(a, m) == TruncRem(c, m)
  {
  }

  /** The magnitude of a truncated remainder is the Euclidean remainder of
      the magnitude; when it is not 0 it has the dividend's sign. */
  lemma TruncRemSign(x: int, m: int)
    requires m != 0
    ensures Abs(TruncRem(x, m)) == Abs(x) % Abs(m)
    ensures Abs(x) % Abs(m) != 0 ==> (TruncRem(x, m) < 0 <==> x < 0)
  {
  }

  lemma ResidueNonzero(x: int, b: int, M: int)
    requires M > 0 && (Abs(x) * Abs(b)) % M != 0
    ensures Abs(x) % M != 0 && b != 0
  {
    MulModLeft(Abs(x), Abs(b), M);
    ZeroProductResidue(Abs(x) % M, Abs(b), M);
  }

  lemma ZeroProductResidue(a: int, c: int, M: int)
    requires M > 0
    ensures a == 0 || c == 0 ==> (a * c) % M == 0
  {
    ModSmall(0, M);
  }

  /** Multiplying two numbers that agree in magnitude modulo `M` (and in
      sign, unless that residue is 0) by the same `b` keeps both agreements. */
  lemma ProductResidues(x: int, t: int, b: int, M: int)
    requires M > 0 && Abs(t) == Abs(x) % M
    requires Abs(x) % M != 0 ==> (t < 0 <==> x < 0)
    ensures Abs(t * b) % M == Abs(x * b) % M
    ensures Abs(x * b) % M != 0 ==> (t * b < 0 <==> x * b < 0)
  {
    ProductMagnitude(x, t, b, M);
    if Abs(x * b) % M != 0 {
      ProductSign(x, t, b, M);
    }
  }

  lemma ProductMagnitude(x: int, t: int, b: int, M: int)
    requires M > 0 && Abs(t) == Abs(x) % M
    ensures Abs(t * b) % M == Abs(x * b) % M == (Abs(x) * Abs(b)) % M
  {
    AbsMul(t, b);
    AbsMul(x, b);
    MulModLeft(Abs(x), Abs(b), M);
  }

  lemma ProductSign(x: int, t: int, b: int, M: int)
    requires M > 0 && Abs(t) == Abs(x) % M
    requires Abs(x) % M != 0 ==> (t < 0 <==> x < 0)
    requires (Abs(x) * Abs(b)) % M != 0
    ensures t * b < 0 <==> x * b < 0
  {
    ResidueNonzero(x, b, M);
    NonzeroResidue(x, t, M);
    SameSignProducts(t, x, b);
  }

  lemma NonzeroResidue(x: int, t: int, M: int)
    requires M > 0 && Abs(t) == Abs(x) % M && Abs(x) % M != 0
    ensures t != 0 && x != 0
  {
    if x == 0 {
      ModSmall(0, M);
    }
  }

  lemma SameSignProducts(t: int, x: int, b: int)
    requires t != 0 && x != 0 && b != 0 && (t < 0 <==> x < 0)
    ensures t * b < 0 <==> x * b < 0
  {
    MulSign(t, b);
    MulSign(x, b);
  }

  /** Taking the truncated remainder of one factor first does not change the
      truncated remainder of a product. */
  lemma TruncRemMul(x: int, b: int, m: int)
    requires m != 0
    ensures TruncRem(TruncRem(x, m) * b, m) == TruncRem(x * b, m)
  {
    var t := TruncRem(x, m);
    TruncRemSign(x, m);
    ProductResidues(x, t, b, Abs(m));
    SameTruncRem(t * b, x * b, m);
  }

  /** What main.rs `pow_and_mod` computes: the base itself, unreduced, when the
      exponent is at most 1 (the loop `0..(exponent-1)` is then empty), and the
      truncated remainder of `base^exponent` otherwise. */
  function NaivePowMod(b: int, e: int, m: int): int
    requires e >= 2 ==> m != 0
  {
    if e <= 1 then b else TruncRem(Pow(b, e), m)
  }

  /** The i128 products of main.rs `pow_and_mod` stay in range. */
  predicate NaivePowSafe(base: int, exponent: int, modulus: int)
  {
    exponent >= 2 ==> modulus != 0 && Abs(base) < I63 && Abs(modulus) <= I63
  }

  /** One multiplication of the counted loop stays in range and keeps the
      truncated residue of the next power. */
  lemma NaiveStep(prev: int, b: int, m: int, i: nat)
    requires m != 0 && Abs(prev) < I63 && Abs(b) < I63 && Abs(m) <= I63
    requires i == 0 ==> prev == b
    requires i > 0 ==> prev == TruncRem(Pow(b, i + 1), m)
    ensures -I127 <= prev * b < I127
    ensures TruncRem(prev * b, m) == TruncRem(Pow(b, i + 2), m)
    ensures Abs(TruncRem(prev * b, m)) < I63
  {
    MulStrict(Abs(prev), Abs(b), I63, I63);
    assert Abs(prev * b) == Abs(prev) * Abs(b) by {
      if prev < 0 && b < 0 { assert prev * b == (-prev) * (-b); }
      else if prev < 0 { assert -(prev * b) == (-prev) * b; }
      else if b < 0 { assert -(prev * b) == prev * (-b); }
    }
    assert I63 * I63 < I127;
    TruncRemBound(prev * b, m);
    if i > 0 {
      TruncRemMul(Pow(b, i + 1), b, m);
    }
    assert Pow(b, i + 2) == Pow(b, i + 1) * b;
    assert Pow(b, 2) == b * b;
  }

  /** The counted loop of main.rs:1-8. */
  method NaivePowAndMod(base: i128, exponent: i128, modulus: i128) returns (result: i128)
    requires NaivePowSafe(base, exponent, modulus)
    ensures exponent <= 1 ==> result == base
    ensures exponent >= 2 ==> result == TruncRem(Pow(base, exponent), modulus)
    ensures exponent >= 2 && base >= 0 && modulus > 0 ==> result == Pow(base, exponent) % modulus
    ensures result == NaivePowMod(base, exponent, modulus)
  {
    result := base;
    var i: int := 0;
    while i < exponent - 1
      invariant 0 <= i && (exponent >= 1 ==> i <= exponent - 1)
      invariant i == 0 ==> result == base
      invariant i > 0 ==> exponent >= 2 && result == TruncRem(Pow(base, i + 1), modulus)
      invariant exponent >= 2 ==> Abs(result) < I63
    {
      NaiveStep(result, base, modulus, i);
      result := result * base;
      result := TruncRem(result, modulus);
      i := i + 1;
    }
    if exponent >= 2 && base >= 0 && modulus > 0 {
      PowNonneg(base, exponent as nat);
      TruncRemAsEuclid(Pow(base, exponent as nat), modulus);
    }
  }

  // ---------------------------------------------------------------------
  // invmod (src/lib.rs:37-58, main.rs:10-31)
  // ---------------------------------------------------------------------

  /** The rounds of `invmod` that remain after the current one: `d` is the
      candidate inverse, `r` the residue `(d * a) % p`, `k` the rounds left of
      `for _ in 0..p`. */
  function InvModRounds(a: nat, p: nat, d: nat, r: nat, k: nat): Result<nat>
    requires k > 0 ==> p > 0
    decreases k
  {
    if k == 0 then
      (if r == 1 then Ok(d) else Err(NoInverse))
    else if r == 0 then
      Err(DivisionByZero)
    else
      var d' := ((p / r + 1) * d) % p;
      var r' := (d' * a) % p;
      if r' == 1 then Ok(d') else InvModRounds(a, p, d', r', k - 1)
  }

  /** What `invmod(a, p)` returns, each panic as an error. */
  function InvModSpec(a: nat, p: nat): Result<nat>
  {
    if a == 0 then Err(ZeroHasNoInverse) else InvModRounds(a, p, 1, a, p)
  }

  /** The rounds only fail by running out or by reaching a zero residue. */
  lemma {:induction false} InvModRoundsErrors(a: nat, p: nat, d: nat, r: nat, k: nat)
    requires k > 0 ==> p > 0
    ensures InvModRounds(a, p, d, r, k).Err? ==>
      InvModRounds(a, p, d, r, k).error == NoInverse || InvModRounds(a, p, d, r, k).error == DivisionByZero
    decreases k
  {
    if k > 0 && r != 0 {
      var d' := ((p / r + 1) * d) % p;
      InvModRoundsErrors(a, p, d', (d' * a) % p, k - 1);
    }
  }

  /** `invmod` fails only in the three ways of `Error` that belong to it. */
  lemma InvModErrors(a: nat, p: nat)
    ensures InvModSpec(a, p).Err? ==> InvModSpec(a, p).error in {ZeroHasNoInverse, NoInverse, DivisionByZero}
  {
    if a != 0 {
      InvModRoundsErrors(a, p, 1, a, p);
    }
  }

  /** The u128 products of `invmod` cannot overflow. */
  predicate InvModSafe(a: nat, p: nat)
  {
    p <= U64 && a * p <= U128
  }

  /** The scaled candidate `(p / r + 1) * d` of one `invmod` round fits in a
      u128. */
  lemma ScaledFits(p: nat, r: nat, d: nat)
    requires 1 <= p <= U64 && 1 <= r && (d < p || d == 1)
    ensures 0 <= (p / r + 1) * d < U128
  {
    var c := p / r + 1;
    assert c <= p + 1 by {
      DivAtMost(p, r);
    }
    FactorsFit(c, d, p);
  }

  lemma FactorsFit(c: nat, d: nat, p: nat)
    requires 1 <= p <= U64 && c <= p + 1 && (d < p || d == 1)
    ensures c * d < U128
  {
    if d != 1 {
      MulLe(c, d, p + 1, p - 1);
      SquareBelow(p);
    }
  }

  lemma SquareBelow(p: nat)
    requires 1 <= p <= U64
    ensures (p + 1) * (p - 1) < U128
  {
    assert (p + 1) * (p - 1) == p * p - 1;
    MulLe(p, p, U64, U64);
    assert U64 * U64 == U128;
  }

  lemma DivAtMost(p: nat, r: nat)
    requires r >= 1
    ensures p / r <= p
  {
    var q := p / r;
    assert p == q * r + p % r;
    if q > 0 {
      MulAtLeast(r, q);
    }
  }

  /** So does the product of its residue with `a`. */
  lemma ResidueTimesFits(x: nat, a: nat, p: nat)
    requires 1 <= p && a * p <= U128
    ensures 0 <= (x % p) * a < U128
  {
    MulLe(x % p, a, p - 1, a);
    assert (p - 1) * a == p * a - a;
    if a == 0 {
      assert (x % p) * a == 0;
    }
  }

  /** The search loop of `invmod`. */
  method InvMod(a: u128, p: u128) returns (res: Result<u128>)
    requires InvModSafe(a, p)
    ensures res == InvModSpec(a, p)
  {
    if a == 0 {
      return Err(ZeroHasNoInverse);
    }
    var r: u128 := a;
    var d: u128 := 1;
    var i: u128 := 0;
    while i < p
      invariant i <= p
      invariant d < p || d == 1
      invariant InvModSpec(a, p) == InvModRounds(a, p, d, r, p - i)
      invariant r != 1 || i == 0
    {
      if r == 0 {
        return Err(DivisionByZero);
      }
      ScaledFits(p, r, d);
      var scaled: u128 := (p / r + 1) * d;
      d := scaled % p;
      ResidueTimesFits(scaled, a, p);
      var product: u128 := d * a;
      r := product % p;
      i := i + 1;
      if r == 1 {
        break;
      }
    }
    if r != 1 {
      return Err(NoInverse);
    }
    res := Ok(d);
  }

  lemma {:induction false} InvModRoundsSound(a: nat, p: nat, d: nat, r: nat, k: nat, d0: nat)
    requires k > 0 ==> p > 0
    requires InvModRounds(a, p, d, r, k) == Ok(d0)
    ensures (k == 0 && r == 1 && d0 == d) || (p > 0 && d0 < p && (d0 * a) % p == 1)
    decreases k
  {
    if k > 0 && r != 0 {
      var d' := ((p / r + 1) * d) % p;
      var r' := (d' * a) % p;
      if r' != 1 {
        InvModRoundsSound(a, p, d', r', k - 1, d0);
      }
    }
  }

  /** A successful `invmod` returns an inverse: `(d * a) % p == 1`, with `d < p`.
      The only other success is `invmod(1, 0) == 1`, where the loop never runs. */
  lemma InvModSound(a: nat, p: nat, d: nat)
    requires InvModSpec(a, p) == Ok(d)
    ensures a != 0
    ensures (p == 0 && a == 1 && d == 1) || (p >= 2 && d < p && (d * a) % p == 1)
  {
    InvModRoundsSound(a, p, 1, a, p, d);
  }

  /** `p / r` of the source's divisor: `1 < x < p` never divides a prime `p`. */
  predicate Divides(x: nat, y: nat)
    requires x > 0
  {
    y % x == 0
  }

  predicate IsPrime(p: nat)
  {
    p >= 2 && forall x :: 1 < x < p ==> !Divides(x, p)
  }

  /** One round of `invmod` maps the residue `r` to `r - p % r`. */
  lemma InvModRoundStep(a: nat, p: nat, d: nat, r: nat)
    requires 1 <= r < p && (d * a) % p == r
    ensures ((((p / r + 1) * d) % p) * a) % p == r - p % r
  {
    var c := p / r + 1;
    ScaledResidue(c, d, a, p, r);
    RoundQuotient(p, r);
    ModUnique(c * r, 1, r - p % r, p);
  }

  /** Scaling `d` by `c` scales the residue `d·a mod p` by `c`. */
  lemma ScaledResidue(c: nat, d: nat, a: nat, p: nat, r: nat)
    requires p > 0 && (d * a) % p == r
    ensures (((c * d) % p) * a) % p == (c * r) % p
  {
    MulModLeft(c * d, a, p);
    assert c * d * a == c * (d * a);
    MulModRight(c, d * a, p);
  }

  /** `(⌊p/r⌋ + 1)·r` overshoots `p` by `r - p % r`. */
  lemma RoundQuotient(p: nat, r: nat)
    requires r >= 1
    ensures (p / r + 1) * r == p + (r - p % r)
  {
    assert p == (p / r) * r + p % r;
    assert (p / r + 1) * r == (p / r) * r + r;
  }

  lemma {:induction false} InvModRoundsPrime(a: nat, p: nat, d: nat, r: nat, k: nat)
    requires IsPrime(p) && 1 <= r < p && r <= k && (d * a) % p == r
    ensures InvModRounds(a, p, d, r, k).Ok?
    decreases r
  {
    var d' := ((p / r + 1) * d) % p;
    InvModRoundStep(a, p, d, r);
    var r' := (d' * a) % p;
    if r' != 1 {
      assert r > 1;
      assert p % r != 0 by { assert !Divides(r, p); }
      InvModRoundsPrime(a, p, d', r', k - 1);
    }
  }

  /** For a prime modulus the search always succeeds on `0 < a < p`. */
  lemma InvModPrimeComplete(a: nat, p: nat)
    requires IsPrime(p) && 0 < a < p
    ensures InvModSpec(a, p).Ok?
    ensures (InvModSpec(a, p).value * a) % p == 1
  {
    ModSmall(a, p);
    InvModRoundsPrime(a, p, 1, a, p);
    InvModSound(a, p, InvModSpec(a, p).value);
  }

  /** Once `invmod(5, 6)` reaches `d == 4, r == 2` it stays there. */
  lemma {:induction false} InvModStuckAtTwo(k: nat)
    ensures InvModRounds(5, 6, 4, 2, k) == Err(NoInverse)
  {
    if k > 0 {
      assert (6 / 2 + 1) * 4 % 6 == 4;
      assert 4 * 5 % 6 == 2;
      InvModStuckAtTwo(k - 1);
    }
  }

  /** The first two rounds of `invmod(5, 6)`: `(d, r)` goes from `(1, 5)` to
      `(2, 4)` to `(4, 2)`. */
  lemma InvModSixFirstRound()
    ensures InvModSpec(5, 6) == InvModRounds(5, 6, 2, 4, 5)
  {
    assert (6 / 5 + 1) * 1 % 6 == 2;
    assert 2 * 5 % 6 == 4;
  }

  lemma InvModSixSecondRound()
    ensures InvModRounds(5, 6, 2, 4, 5) == InvModRounds(5, 6, 4, 2, 4)
  {
    assert (6 / 4 + 1) * 2 % 6 == 4;
    assert 4 * 5 % 6 == 2;
  }

  /** For a composite modulus the search can stall although an inverse
      exists: 5 is its own inverse modulo 6, yet `invmod(5, 6)` panics
      because the residue gets stuck at 2. */
  lemma InvModStallsOnComposite()
    ensures (5 * 5) % 6 == 1
    ensures InvModSpec(5, 6) == Err(NoInverse)
  {
    ModUnique(5 * 5, 4, 1, 6);
    InvModSixFirstRound();
    InvModSixSecondRound();
    InvModStuckAtTwo(4);
  }

  /** Once `invmod(12, 65)` reaches `d == 60, r == 5` it stays there:
      `⌊65/5⌋ + 1 == 14` and `14·60 ≡ 60 (mod 65)`. */
  lemma {:induction false} InvModStuckAtFive(k: nat)
    ensures InvModRounds(12, 65, 60, 5, k) == Err(NoInverse)
  {
    if k > 0 {
      assert (65 / 5 + 1) * 60 % 65 == 60;
      assert 60 * 12 % 65 == 5;
      InvModStuckAtFive(k - 1);
    }
  }

  /** The first two rounds of `invmod(12, 65)`: `(d, r)` goes from `(1, 12)`
      to `(6, 7)` to `(60, 5)`. */
  lemma InvModSixtyFiveFirstRound()
    ensures InvModSpec(12, 65) == InvModRounds(12, 65, 6, 7, 64)
  {
    assert (65 / 12 + 1) * 1 % 65 == 6;
    assert 6 * 12 % 65 == 7;
  }

  lemma InvModSixtyFiveSecondRound()
    ensures InvModRounds(12, 65, 6, 7, 64) == InvModRounds(12, 65, 60, 5, 63)
  {
    assert (65 / 7 + 1) * 6 % 65 == 60;
    assert 60 * 12 % 65 == 5;
  }

  /** 12 is invertible modulo 65 (`12·38 == 7·65 + 1`), yet `invmod(12, 65)`
      panics: the residue gets stuck at 5, a divisor of 65. */
  lemma InvModStallsOnTwelve()
    ensures (38 * 12) % 65 == 1
    ensures InvModSpec(12, 65) == Err(NoInverse)
  {
    ModUnique(38 * 12, 7, 1, 65);
    InvModSixtyFiveFirstRound();
    InvModSixtyFiveSecondRound();
    InvModStuckAtFive(63);
  }

  // ---------------------------------------------------------------------
  // find_mod_inverse (src/paillier_verify.rs:35-49)
  // ---------------------------------------------------------------------

  /** The linear search from `k` on: the first `k < m` with `x | k*m + 1`
      gives `(k*m + 1) / x`; no such `k` gives 0. */
  function FindInverseFrom(x: nat, m: nat, k: nat): nat
    requires k >= 1 && (m >= 2 ==> x > 0)
    decreases m - k
  {
    if k >= m then 0
    else if (k * m + 1) % x == 0 then (k * m + 1) / x
    else FindInverseFrom(x, m, k + 1)
  }

  function FindModInverseSpec(x: nat, m: nat): nat
    requires m >= 2 ==> x > 0
  {
    FindInverseFrom(x, m, 1)
  }

  /** The search loop of `find_mod_inverse`. */
  method FindModInverse(x: u128, modulus: u128) returns (ans: u128)
    requires modulus >= 2 ==> x > 0
    requires modulus <= U64
    ensures ans == FindModInverseSpec(x, modulus)
  {
    var k: u128 := 1;
    var k2: u128 := 0;
    ans := 0;
    while k < modulus
      invariant 1 <= k
      invariant FindModInverseSpec(x, modulus) == FindInverseFrom(x, modulus, k)
      decreases modulus - k
    {
      MulLe(k, modulus, U64 - 1, U64);
      k2 := (k * modulus) + 1;
      if k2 % x == 0 {
        ans := k2 / x;
        return;
      }
      k := k + 1;
    }
  }

  lemma {:induction false} FindInverseFromFound(x: nat, m: nat, k: nat)
    requires m >= 2 && x > 0 && k >= 1
    requires FindInverseFrom(x, m, k) != 0
    ensures exists j :: k <= j < m && FindInverseFrom(x, m, k) * x == j * m + 1
    decreases m - k
  {
    if (k * m + 1) % x == 0 {
      var d := (k * m + 1) / x;
      assert d * x == k * m + 1;
    } else {
      FindInverseFromFound(x, m, k + 1);
    }
  }

  lemma {:induction false} FindInverseFromZero(x: nat, m: nat, k: nat)
    requires m >= 2 && x > 0 && k >= 1
    ensures FindInverseFrom(x, m, k) == 0 <==> forall j :: k <= j < m ==> (j * m + 1) % x != 0
    decreases m - k
  {
    if k < m {
      FindInverseFromZero(x, m, k + 1);
      var y := k * m + 1;
      if y % x == 0 {
        ExactQuotientPositive(y, x);
      }
    }
  }

  lemma ExactQuotientPositive(y: int, x: int)
    requires y >= 1 && x >= 1 && y % x == 0
    ensures y / x >= 1
  {
    assert y == (y / x) * x;
  }

  /** A nonzero result `d` of `find_mod_inverse(x, m)` satisfies
      `d*x == j*m + 1` for some `1 <= j < m`, so it is an inverse of `x`
      modulo `m` (it may exceed `m`); 0 means no such `j` exists. */
  lemma FindModInverseSound(x: nat, m: nat)
    requires m >= 2 && x > 0
    ensures var d := FindModInverseSpec(x, m);
      d != 0 ==> (d * x) % m == 1 && exists j :: 1 <= j < m && d * x == j * m + 1
    ensures FindModInverseSpec(x, m) == 0 <==>
      forall j :: 1 <= j < m ==> (j * m + 1) % x != 0
  {
    FindInverseFromZero(x, m, 1);
    var d := FindModInverseSpec(x, m);
    if d != 0 {
      FindInverseFromFound(x, m, 1);
      var j :| 1 <= j < m && d * x == j * m + 1;
      ModMultiple(j, 1, m);
      ModSmall(1, m);
      assert (j * m + 1) % x == 0 by {
        assert j * m + 1 == d * x;
        ModUnique(d * x, d, 0, x);
      }
    }
  }
}
