/** The two-party nonce commitment of com.rs.

    Each party holds a nonce share `k` and a commitment share `r` and a
    Paillier key of its own. A party encrypts its `k` (`FirstStep`), the
    other party scales that cipher by its own `r` and masks it with a small
    `c` (`SecondStep`), the owner decrypts `k·r' + c` (`ThirdStep`), and
    each party combines `k·r + plain − c` (`FourthStep`). The two results
    add up to `(k_a + k_b)·(r_a + r_b)`.

    com.rs calls `Encrypt`, `EncryptAddMut::encrypt_mut`/`encrypt_add` and
    `Decrypt` from mta.rs, which does not compile; they are modelled with
    the Paillier semantics of src/lib.rs (square-and-multiply `pow_and_mod`,
    decryption through `lcm(p − 1, q − 1)`). */
module Commitment {
  import opened Arith
  import opened Outcome
  import opened ModularArithmetic
  import opened Field
  import Paillier

  /** The largest mask `SecondStep::cipher_k` draws. */
  const MaskMax: nat := 1234

  // ---------------------------------------------------------------------
  // The four steps
  // ---------------------------------------------------------------------

  /** `FirstStep::cipher_k` (com.rs:20-30): the party's own `k` encrypted
      under its own key, with randomness drawn from `[1, n]`. */
  function FirstCipher(n: nat, k: u128, rand: nat): (c: nat)
    requires Paillier.EncryptSafe(n, rand) && 1 <= rand <= n
    ensures c < n * n
  {
    Paillier.Encrypt(n, rand, k)
  }

  /** What `SecondStep::cipher_k` returns: the masked cipher for the other
      party and the mask the caller keeps. */
  datatype Masked = Masked(cipher: nat, mask: nat)

  /** The u128 arithmetic of `SecondStep::cipher_k` cannot overflow: the
      other party's key squared fits the squaring bound, its cipher is a
      residue, and the randomness lies in `[1, n]`. */
  predicate SecondSafe(n: nat, c: nat, rand: nat)
  {
    n >= 1 && n * n <= U64 && c < n * n && 1 <= rand <= n && PowAndModSafe(rand, n, n * n)
  }

  /** `SecondStep::cipher_k` (com.rs:41-63): `encrypt_mut` raises the other
      party's cipher to the own `r`, then `encrypt_add` multiplies in an
      encryption of the mask drawn from `[1, 1234]`. The returned "negative"
      is the mask itself, not its negation. The two calls together are the
      one-call `mut_and_add` of src/lib.rs. */
  function SecondCipher(n: nat, c: nat, selfr: u128, mask: nat, rand: nat): (m: Masked)
    requires SecondSafe(n, c, rand) && 1 <= mask <= MaskMax
    ensures m.mask == mask
    ensures m.cipher < n * n
    ensures m.cipher == Paillier.MutAndAdd(n, c, mask, selfr, rand)
  {
    var scaled := Paillier.ScaleCipher(n, c, selfr);
    Masked(Paillier.AddPlain(n, scaled, mask, rand), mask)
  }

  /** `ThirdStep::decrypt_cipher` (com.rs:76-86): the owner's decryption;
      the result is a residue below `n = p·q`. */
  function ThirdPlain(p: nat, q: nat, c: nat): (r: Result<nat>)
    requires Paillier.DecryptSafe(p, q, c)
    ensures r.Ok? ==> r.value < p * q
  {
    Paillier.Decrypt(p, q, c)
  }

  /** What `FourthStep::combine` returns: the commitment share and the
      verify point `r·G`. */
  datatype Share = Share(commitment: u128, verifyPoint: Point)

  /** The u128 arithmetic of `FourthStep::combine` neither overflows nor
      underflows. */
  predicate FourthSafe(plain: int, k: int, r: int, neg: int)
  {
    k * r + plain < U128 && neg <= k * r + plain
  }

  /** `FourthStep::combine` (com.rs:106-114): `k·r + plain − neg`, and the
      verify point `r·G`, whose logarithm is `r`. */
  function FourthCombine(plain: u128, k: u128, r: u128, neg: u128): (s: Share)
    requires FourthSafe(plain, k, r, neg)
    ensures s.commitment + neg == k * r + plain
    ensures s.verifyPoint == r
  {
    GeneratorMul(FromU128(r));
    Share(k * r + plain - neg, PointMul(Generator, FromU128(r)))
  }

  // ---------------------------------------------------------------------
  // One direction of the exchange
  // ---------------------------------------------------------------------

  /** What a key needs for decryption to invert encryption: the u128 bounds
      of `decrypt`, `n ≥ 2`, and a `λ mod n` that `invmod` inverts. */
  predicate KeyOk(p: nat, q: nat)
  {
    p >= 1 && q >= 1 && p * q >= 2 && (p * q) * (p * q) <= U64 &&
    InvModSpec(Paillier.Lambda(p, q) % (p * q), p * q).Ok?
  }

  /** Randomness in `[1, n]` whose `n·λ`-th power is 1 modulo `n²`, as every
      value coprime to `n` is when `p`, `q` are distinct primes. */
  predicate RandOk(p: nat, q: nat, rand: nat)
    requires p >= 1 && q >= 1
  {
    1 <= rand <= p * q && Pow(rand, (p * q) * Paillier.Lambda(p, q)) % ((p * q) * (p * q)) == 1
  }

  /** A key's modulus is below its square, which fits the squaring bound. */
  lemma KeyBounds(p: nat, q: nat)
    requires KeyOk(p, q)
    ensures p * q < (p * q) * (p * q) <= U64
  {
    var n := p * q;
    MulLe(2, n, n, n);
  }

  /** One direction of the exchange runs without panicking and the owner
      of key `(p, q)` decrypts `plain`: the owner encrypts its `k` with
      randomness `rand`, the other party applies its `r'`, mask and
      randomness `rand2`. */
  predicate Exchanged(p: nat, q: nat, k: u128, rand: nat, otherR: u128, mask: nat, rand2: nat, plain: nat)
    requires p >= 1 && q >= 1 && 1 <= mask <= MaskMax
  {
    && Paillier.EncryptSafe(p * q, rand) && 1 <= rand <= p * q
    && SecondSafe(p * q, FirstCipher(p * q, k, rand), rand2)
    && var c := SecondCipher(p * q, FirstCipher(p * q, k, rand), otherR, mask, rand2).cipher;
      Paillier.DecryptSafe(p, q, c) && ThirdPlain(p, q, c) == Ok(plain)
  }

  /** The multiplicative-to-additive step of the protocol: the owner of key
      `(p, q)` decrypts `(k·r' + c) mod n`, its own `k` times the other
      party's `r'` plus the other party's mask. */
  lemma ExchangeDecrypts(p: nat, q: nat, k: u128, rand: nat, otherR: u128, mask: nat, rand2: nat)
    requires KeyOk(p, q) && RandOk(p, q, rand) && RandOk(p, q, rand2) && 1 <= mask <= MaskMax
    ensures Exchanged(p, q, k, rand, otherR, mask, rand2, (k * otherR + mask) % (p * q))
  {
    var n := p * q;
    var N := n * n;
    KeyBounds(p, q);
    assert PowAndModSafe(rand, n, N);
    assert Paillier.EncryptSafe(n, rand);
    var c0 := FirstCipher(n, k, rand);
    assert PowAndModSafe(rand2, n, N);
    assert SecondSafe(n, c0, rand2);
    var c := SecondCipher(n, c0, otherR, mask, rand2).cipher;
    assert c == Paillier.MutAndAdd(n, c0, mask, otherR, rand2);
    assert PowAndModSafe(c0, otherR, N);
    Paillier.DecryptMutAndAdd(p, q, rand, k, mask, otherR, rand2);
    assert PowAndModSafe(c, Paillier.Lambda(p, q), N);
  }

  // ---------------------------------------------------------------------
  // The two-party identity
  // ---------------------------------------------------------------------

  lemma Expand(a: int, b: int, c: int, d: int)
    ensures (a + b) * (c + d) == a * c + a * d + b * d + b * c
  {
  }

  /** With exact plaintexts `plain_a = k_a·r_b + c_b` and
      `plain_b = k_b·r_a + c_a`, the two commitment shares add up to
      `(k_a + k_b)·(r_a + r_b)` and the verify points to `(r_a + r_b)·G`
      (com.rs:183-204). */
  lemma TwoPartyIdentity(ka: u128, ra: u128, ca: u128, plainA: u128, kb: u128, rb: u128, cb: u128, plainB: u128)
    requires plainA == ka * rb + cb && plainB == kb * ra + ca
    requires FourthSafe(plainA, ka, ra, ca) && FourthSafe(plainB, kb, rb, cb)
    ensures var sa := FourthCombine(plainA, ka, ra, ca);
      var sb := FourthCombine(plainB, kb, rb, cb);
      sa.commitment + sb.commitment == (ka + kb) * (ra + rb) &&
      PointAdd(sa.verifyPoint, sb.verifyPoint) == (ra + rb) % P
  {
    Expand(ka, kb, ra, rb);
  }

  // ---------------------------------------------------------------------
  // The caller's guard
  // ---------------------------------------------------------------------

  /** The guard the com.rs driver applies to each party before encrypting
      (com.rs:125-128, 135-138): `k·r < n` with the party's OWN `k` and `r`.
      The plaintext that key decrypts is `k·r' + c` with the OTHER party's
      `r'`, so the guard does not keep it below `n`. */
  predicate DriverGuard(k: int, r: int, n: int)
  {
    k * r < n
  }

  /** The guard the reduction `mod n` calls for: own `k` times the other
      party's `r'` plus the largest mask stays below `n`. */
  predicate ExchangeGuard(k: int, otherR: int, n: int)
  {
    k * otherR + MaskMax < n
  }

  /** Under `ExchangeGuard` no mask makes the decrypted value wrap, and
      without it the largest mask does. */
  lemma ExchangeGuardExact(k: nat, otherR: nat, n: nat, mask: nat)
    requires n > 0 && 1 <= mask <= MaskMax
    ensures ExchangeGuard(k, otherR, n) ==> (k * otherR + mask) % n == k * otherR + mask
    ensures !ExchangeGuard(k, otherR, n) ==> (k * otherR + MaskMax) % n != k * otherR + MaskMax
  {
    var x := k * otherR;
    if x + MaskMax < n {
      ModSmall(x + mask, n);
    } else {
      assert (x + MaskMax) % n < n;
    }
  }

  /** A small key whose `λ` and `invmod(λ, n)` are given: randomness 1
      suits it, and `invmod` succeeds when `d` inverts `λ` in one round. */
  lemma SmallKey(p: nat, q: nat, lambda: nat, d: nat)
    requires p >= 1 && q >= 1 && 2 <= p * q && (p * q) * (p * q) <= U64
    requires Paillier.Lambda(p, q) == lambda && 0 < lambda < p * q
    requires d == (p * q / lambda + 1) % (p * q) && (d * lambda) % (p * q) == 1
    ensures KeyOk(p, q) && RandOk(p, q, 1)
  {
    var n := p * q;
    ModSmall(lambda, n);
    assert InvModSpec(lambda, n) == Ok(d);
    PowOfOne(n * lambda);
    MulAtLeast(n, n);
    ModSmall(1, n * n);
  }

  /** On such a key, with randomness 1, the owner decrypts
      `(k·r' + c) mod n`. */
  lemma SmallExchange(p: nat, q: nat, lambda: nat, d: nat, k: u128, otherR: u128, mask: nat, plain: nat)
    requires p >= 1 && q >= 1 && 2 <= p * q && (p * q) * (p * q) <= U64
    requires Paillier.Lambda(p, q) == lambda && 0 < lambda < p * q
    requires d == (p * q / lambda + 1) % (p * q) && (d * lambda) % (p * q) == 1
    requires 1 <= mask <= MaskMax && plain == (k * otherR + mask) % (p * q)
    ensures KeyOk(p, q) && Exchanged(p, q, k, 1, otherR, mask, 1, plain)
  {
    SmallKey(p, q, lambda, d);
    ExchangeDecrypts(p, q, k, 1, otherR, mask, 1);
  }

  /** The two keys of the witness below: `λ(3, 5) = lcm(2, 4) = 4` and
      `λ(5, 7) = lcm(4, 6) = 12`. */
  lemma WrapKeys()
    ensures Paillier.Lambda(3, 5) == 4 && Paillier.Lambda(5, 7) == 12
  {
    assert Paillier.Gcd(2, 4) == 2;
    assert Paillier.Gcd(4, 6) == 2;
  }

  /** Alice's side of the witness below: the key `p = 3, q = 5` decrypts
      `(1·14 + 1) mod 15 = 0`. */
  lemma AliceWraps()
    ensures KeyOk(3, 5) && Exchanged(3, 5, 1, 1, 14, 1, 1, 0)
  {
    WrapKeys();
    SmallExchange(3, 5, 4, 4, 1, 14, 1, 0);
  }

  /** Bob's side of the witness below: the key `p = 5, q = 7` decrypts
      `1·1 + 1 = 2`. */
  lemma BobExact()
    ensures KeyOk(5, 7) && Exchanged(5, 7, 1, 1, 1, 1, 1, 2)
  {
    WrapKeys();
    SmallExchange(5, 7, 12, 3, 1, 1, 1, 2);
  }

  /** The driver's guard lets a wrapped plaintext through. Alice holds the
      key `p = 3, q = 5` (`n_a = 15`, `λ = 4`, `invmod(4, 15) = 4`) and
      `k_a = r_a = 1`; Bob holds `p = 5, q = 7` (`n_b = 35`, `λ = 12`,
      `invmod(12, 35) = 3`), `k_b = 1` and `r_b = 14`; both masks are 1 and
      all randomness is 1. Both parties pass the guard, yet Alice decrypts
      `(1·14 + 1) mod 15 = 0` while Bob decrypts `1·1 + 1 = 2`, and the
      shares then add up to 15, not `(1 + 1)·(1 + 14) = 30`. */
  lemma DriverGuardAdmitsWrap()
    ensures KeyOk(3, 5) && KeyOk(5, 7)
    ensures DriverGuard(1, 1, 3 * 5) && DriverGuard(1, 14, 5 * 7)
    ensures Exchanged(3, 5, 1, 1, 14, 1, 1, 0)
    ensures Exchanged(5, 7, 1, 1, 1, 1, 1, 2)
    ensures FourthSafe(0, 1, 1, 1) && FourthSafe(2, 1, 14, 1)
    ensures FourthCombine(0, 1, 1, 1).commitment + FourthCombine(2, 1, 14, 1).commitment
      != (1 + 1) * (1 + 14)
  {
    AliceWraps();
    BobExact();
    var sa := FourthCombine(0, 1, 1, 1);
    var sb := FourthCombine(2, 1, 14, 1);
    assert sa.commitment == 0;
    assert sb.commitment == 15;
  }

  // ---------------------------------------------------------------------
  // The whole protocol
  // ---------------------------------------------------------------------

  /** Both parties run the four steps against each other. When each key
      passes `ExchangeGuard` for the mixed product it decrypts, both
      decryptions are exact and the commitment shares add up to
      `(k_a + k_b)·(r_a + r_b)`, with verify points adding up to
      `(r_a + r_b)·G`. */
  lemma CommitmentProtocol(
    pa: nat, qa: nat, ka: u128, ra: u128, encA: nat, maskA: nat, randA: nat,
    pb: nat, qb: nat, kb: u128, rb: u128, encB: nat, maskB: nat, randB: nat,
    plainA: u128, plainB: u128)
    requires KeyOk(pa, qa) && RandOk(pa, qa, encA) && RandOk(pa, qa, randB)
    requires KeyOk(pb, qb) && RandOk(pb, qb, encB) && RandOk(pb, qb, randA)
    requires 1 <= maskA <= MaskMax && 1 <= maskB <= MaskMax
    requires ExchangeGuard(ka, rb, pa * qa) && ExchangeGuard(kb, ra, pb * qb)
    requires plainA == ka * rb + maskB && plainB == kb * ra + maskA
    requires FourthSafe(plainA, ka, ra, maskA) && FourthSafe(plainB, kb, rb, maskB)
    ensures Exchanged(pa, qa, ka, encA, rb, maskB, randB, plainA)
    ensures Exchanged(pb, qb, kb, encB, ra, maskA, randA, plainB)
    ensures FourthCombine(plainA, ka, ra, maskA).commitment +
      FourthCombine(plainB, kb, rb, maskB).commitment == (ka + kb) * (ra + rb)
  {
    ExchangeGuardExact(ka, rb, pa * qa, maskB);
    ExchangeGuardExact(kb, ra, pb * qb, maskA);
    ExchangeDecrypts(pa, qa, ka, encA, rb, maskB, randB);
    ExchangeDecrypts(pb, qb, kb, encB, ra, maskA, randA);
    TwoPartyIdentity(ka, ra, maskA, plainA, kb, rb, maskB, plainB);
  }
}
