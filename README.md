# rust-threshold-signature, modelled in Dafny

This project models the arithmetic core of a threshold-signature toolkit over
the pallas curve and states what that core guarantees.

- **Modular arithmetic.** Square-and-multiply `pow_and_mod`, the naive i128
  `pow_and_mod`, and the inverse searches `invmod` and `find_mod_inverse`.
- **Paillier encryption.** Generator `n + 1`: `encrypt`, the homomorphic
  `mut_and_add` (and its halves `encrypt_mut` / `encrypt_add`), and `decrypt`
  through the L-function and `lcm(p − 1, q − 1)`. There is a u128 version
  (src/lib.rs) and an i128 version (main.rs).
- **N-party signing** (src/make_signature.rs, and its u128 twin makes.rs).
  Every party's nonce share is encrypted. Every ordered pair of parties runs a
  multiplicative-to-additive (MtA) exchange: the ciphertext of `k_player` is
  scaled by `w_raw` and masked. The ciphertexts are decrypted with a
  wrap-around key index, and each party's signature share is combined from
  the decrypted plaintexts while skipping the diagonal.
- **Two-party nonce commitment** (com.rs).
- **Dealer-less key generation** (key_generate.rs). Each party deals
  polynomial sub-shares, collects its column by a modular stride, and the
  public key is interpolated at zero.
- **Zero-knowledge transcript** (src/paillier_verify.rs). It ties a Paillier
  cipher to a curve point; the prover side and the three-equation verifier
  are modelled.
- **Schnorr-style signature shares** (`pre_compute`, src/group_eddsa.rs),
  with the single-share and aggregate equations its circuits constrain.

Modelling conventions:

- A Rust `u128` is a `nat` below 2^128. An arithmetic panic in a debug build
  (overflow, underflow, division by zero) becomes a precondition, with two
  exceptions that are errors instead because the operation fails either way:
  the division `p / r` by a zero residue in `invmod` is
  `Err(DivisionByZero)`, and the underflow of `gs − 1` or `cs − 1` in
  src/lib.rs `decrypt` is `Err(SubtractionUnderflow)`. An explicit `panic!`
  or `unwrap()` on a missing value becomes an `Err` of a `Result`.
- The pallas group is cyclic of prime order `P`, so a point is represented by
  its discrete logarithm modulo `P`: `x·G` is `x` and point addition is
  addition.
- Every random draw is a parameter. Where a proof depends on the range the
  source draws it from (the MtA masks, the Paillier randomness), that range
  is a precondition. The zero-knowledge prover's draws (`ZeroKnowledge.Coins`)
  are unconstrained, so the lemmas about them hold for any values.
- Loops that update locals are methods. Each is proved against a function
  that specifies it (`PowAndMod` against `ModPow`, `InvMod` against
  `InvModSpec`, `Calculate` against `LagrangeSum`, `Combine` against
  `CombineSpec`). The properties are then proved about those functions.

## Model

| member | source | states |
|---|---|---|
| ModularArithmetic.PowAndMod | src/lib.rs:9-35 | Returns 1 at exponent 0 whatever the modulus; otherwise returns `base^e mod m`, a residue below `m`. It returns exactly `ModPow`. |
| ModularArithmetic.ModPowIsPow | src/paillier_verify.rs:7-33 | The verifier's copy of `pow_and_mod` is `b^e mod m` for every modulus of at least 2 (including the exponent-0 case, where both are 1). |
| ModularArithmetic.NaivePowAndMod | main.rs:1-8 | The i128 counted loop returns the base unreduced for exponents 0 and 1. For exponents of at least 2 it returns the truncated remainder of `base^e`, which is `base^e mod m` for nonnegative inputs. |
| ModularArithmetic.InvMod | src/lib.rs:37-58 | The search loop returns exactly `InvModSpec`: `Err` for a zero argument, for a search that never reaches residue 1, or for a division by zero. |
| ModularArithmetic.InvModErrors | src/lib.rs:37-58 | `invmod` fails only as zero-has-no-inverse, no-inverse-found or division-by-zero. |
| ModularArithmetic.InvModSound | src/lib.rs:37-58 | A successful `invmod(a, p)` has `a ≠ 0` and returns `d < p` with `d·a ≡ 1 (mod p)`. The one exception is `invmod(1, 0) = 1`, where the loop never runs. |
| ModularArithmetic.InvModPrimeComplete | src/lib.rs:37-58 | For a prime modulus and `0 < a < p` the search always finds the inverse. |
| ModularArithmetic.InvModStallsOnComposite | main.rs:10-31 | 5 is its own inverse modulo 6, yet `invmod(5, 6)` panics: the residue gets stuck at 2. |
| ModularArithmetic.InvModStallsOnTwelve | src/lib.rs:37-58 | 12 is invertible modulo 65 (`38·12 ≡ 1`), yet `invmod(12, 65)` panics: its residue goes 12, 7, 5 and stays at 5, a divisor of 65. |
| ModularArithmetic.FindModInverse | src/paillier_verify.rs:35-49 | The loop returns exactly `FindModInverseSpec`. |
| ModularArithmetic.FindModInverseSound | src/paillier_verify.rs:35-49 | A nonzero result `d` satisfies `d·x = j·m + 1` for some `1 ≤ j < m`, so `d·x ≡ 1 (mod m)`. The result is 0 exactly when no such `j` exists. |
| Paillier.Encrypt | src/lib.rs:67-71 | The cipher `(n+1)^m · r^n mod n²` is below `n²`. |
| Paillier.ScaleCipher | com.rs:41-63 | The `encrypt_mut` com.rs calls, with the src/lib.rs `pow_and_mod`, gives a cipher below `n²` for `k > 0`. main.rs's i128 version is related to it by `PaillierNaive.NaiveMutThenAddAgrees`. |
| Paillier.AddPlain | com.rs:41-63 | The `encrypt_add` com.rs calls, with the src/lib.rs `pow_and_mod`, gives a cipher below `n²`. main.rs's i128 version is related to it by `PaillierNaive.NaiveMutThenAddAgrees`. |
| Paillier.MutAndAdd | src/lib.rs:83-92 | `mut_and_add` gives a cipher below `n²`. |
| Paillier.MutAndAddForm | src/lib.rs:83-92 | On a cipher `(n+1)^k·s`, `mut_and_add` gives `(n+1)^(k·w + add) · s^w · rand^n mod n²`: the scaling applies before the mask, so the mask is not scaled. |
| Paillier.Decrypt | src/lib.rs:102-114 | A successful decryption is a residue below `n = p·q`. |
| Paillier.CipherHalf | src/lib.rs:110-112 | The cipher half of decryption, `L(c^λ mod n²)·u mod n`, is below `n` when `cs − 1` does not underflow. |
| Paillier.Binomial | src/lib.rs:102-114 | `(n+1)^x ≡ 1 + (x mod n)·n (mod n²)`. |
| Paillier.DecryptKey | src/lib.rs:102-114 | The key half of decryption, `L((n+1)^λ mod n²)`, is `λ mod n`. |
| Paillier.DecryptRecovers | src/lib.rs:102-114 | Any cipher `(n+1)^m · s mod n²` with `s^λ ≡ 1` decrypts to `m mod n` when `invmod` finds the inverse of `λ mod n`. Otherwise decryption reports `invmod`'s error. |
| Paillier.EncryptRoundTrip | src/lib.rs:66-114 | For `m < n` and `r^(n·λ) ≡ 1 (mod n²)`, `decrypt(p, q, encrypt(p·q, r, m))` is `m` when `invmod(λ mod n, n)` succeeds. When it fails, decryption reports `invmod`'s error, which also happens for keys where `gcd(λ mod n, n) = 1` (see Findings). |
| Paillier.EncryptRoundTripUnitRandomness | src/lib.rs:66-114 | With randomness 1 the round trip needs no assumption on `r`. It still gives `m` only when `invmod(λ mod n, n)` succeeds, and `invmod`'s error otherwise. |
| Paillier.DecryptMutAndAdd | src/lib.rs:83-114 | Decrypting `mut_and_add(encrypt(k), add, w)` gives `(k·w + add) mod n` when `invmod(λ mod n, n)` succeeds, and `invmod`'s error otherwise. This is the homomorphism MtA relies on. |
| Paillier.EgcdInverse | src/lib.rs:37-58 | The extended-Euclid replacement for `invmod` returns a value below `n`. Its only error is no-inverse. |
| Paillier.EgcdInverseSound | src/lib.rs:37-58 | The extended-Euclid inverse exists exactly when `gcd(a, n) = 1`, and it is then an inverse of `a` modulo `n`. |
| Paillier.DecryptCorrected | src/lib.rs:102-114 | `decrypt` with `invmod` replaced by the extended-Euclid inverse gives a residue below `n` when it succeeds. |
| Paillier.DecryptCorrectedRecovers | src/lib.rs:102-114 | The corrected decryption gives `m mod n` for any cipher `(n+1)^m · s` with `s^λ ≡ 1` exactly when `gcd(λ mod n, n) = 1`. Otherwise it reports no-inverse. |
| Paillier.CorrectedRoundTrip | src/lib.rs:66-114 | With the corrected decryption, every `m < n` comes back whenever `gcd(λ mod n, n) = 1` and `r^(n·λ) ≡ 1 (mod n²)`. |
| Paillier.DecryptFailsOnInvertibleKey | src/lib.rs:102-114 | For `p = 5`, `q = 13` (so `λ = 12` and `gcd(12, 65) = 1`), `decrypt` fails with no-inverse on the randomness-1 encryption of every `m < 65`. The corrected decryption returns `m`. |
| PaillierNaive.NaiveIsModPow | main.rs:1-8 | For exponents of at least 2 the naive power equals the square-and-multiply one. |
| PaillierNaive.NaiveAtOne | main.rs:1-8 | At exponent 1 the two powers agree on a reduced base. |
| PaillierNaive.NaiveEncrypt | main.rs:40-45 | Within the i128 bounds (`n² < 2^63`, `0 ≤ r < 2^63`), main.rs's `encrypt` gives a residue in `[0, n²)`; `NaiveEncryptAgrees` relates it to src/lib.rs. |
| PaillierNaive.NaiveEncryptAgrees | main.rs:40-45 | For every message of at least 1, main.rs encrypts exactly as src/lib.rs does. |
| PaillierNaive.NaiveEncryptZeroIsOne | main.rs:40-45 | main.rs encrypts the message 0 as the src/lib.rs encryption of 1. |
| PaillierNaive.NaiveEncryptZeroDecryptsToOne | main.rs:40-45 | main.rs's encryption of 0 decrypts to 1, under main.rs's own decryption (for `λ ≥ 2`) as under src/lib.rs's, while the src/lib.rs encryption of 0 decrypts to 0. |
| PaillierNaive.NaiveScaleCipher | main.rs:63-66 | Under the i128 bounds (`n² < 2^63`, base below 2^63), main.rs's `encrypt_mut` with a scale of at least 2 gives a residue of magnitude below `n²`. |
| PaillierNaive.NaiveAddPlain | main.rs:56-62 | Within the i128 bounds (those of `encrypt` and an incoming cipher below 2^63 in magnitude), `encrypt_add` multiplies the cipher by main.rs's encryption of the added value and gives a truncated remainder of magnitude below `n²`, nonnegative for a nonnegative cipher. |
| PaillierNaive.NaiveMaskAgrees | main.rs:56-62 | Within the i128 bounds of main.rs (`n² < 2^63`, `0 ≤ rand < 2^63`), the mask `encrypt_add` multiplies in is the src/lib.rs mask when `add ≥ 1`. |
| PaillierNaive.NaiveMutThenAddAgrees | main.rs:56-66 | Within the i128 bounds of main.rs (`n² < 2^63`, cipher and `rand` below 2^63), `encrypt_mut` followed by `encrypt_add` is src/lib.rs `mut_and_add` when the scale is at least 2 and the added value at least 1. |
| PaillierNaive.NaiveDecrypt | main.rs:77-89 | Within the i128 bounds (`n² < 2^63`, `p·q + 1 < 2^63`, `0 ≤ c < 2^63`), a successful main.rs decryption is a residue in `[0, n)`; `invmod`'s panics are its errors. |
| PaillierNaive.NaiveDecryptKey | main.rs:77-89 | For `n² < 2^63`, the key half of main.rs decryption is `λ mod n`, as in src/lib.rs. |
| PaillierNaive.NaiveDecryptAgrees | main.rs:77-89 | Within the i128 bounds of main.rs (`n² < 2^63`, cipher below 2^63) and with `λ ≥ 2`, main.rs decrypts as src/lib.rs does. The one exception is where src/lib.rs underflows at `cs − 1`: there main.rs returns 0. |
| PaillierNaive.NaiveDecryptUnitModulus | main.rs:77-89 | With the modulus argument 1, `λ ≥ 2` and the i128 bounds, `l = (0 − 1)/1 = −1` and main.rs's decryption panics in `invmod` for every cipher. |
| Field.InvertSound | key_generate.rs:78-84 | Field inversion (the extended Euclidean algorithm modulo `P`) returns an inverse when it returns one. |
| Field.InvertUnique | key_generate.rs:78-84 | Any inverse of `x` modulo `P` is what `invert` returns. |
| Field.InvertZero | key_generate.rs:78-84 | 0 has no inverse: `invert(0).unwrap()` panics. |
| Field.SumScalarsMod | src/make_signature.rs:265-308 | Folding field addition over scalars gives the integer sum modulo `P`. |
| Signature.EncryptK | src/make_signature.rs:11-34 | There are `min(len k, len n)` ciphertexts, and ciphertext `i` is `encrypt(n_i, rand_i, k_i)` with `rand_i ∈ [1, n_i]`. makes.rs:16-39 is the same loop. |
| Signature.CipherK | src/make_signature.rs:45-79 | Entry `t = raw·n + player` is `mut_and_add(n_player, c_player, add[t], w_raw, rand[t])`. The masks are returned unchanged and both vectors have the masks' length. makes.rs:51-85 is the same loop. |
| Signature.DecryptCipher | src/make_signature.rs:90-119 | Ciphertext `t` is decrypted with key `t mod min(len p, len q)` and the output keeps the input length. The run fails exactly when some decryption fails, with the error of the first failing one. makes.rs:96-126 is the same loop. |
| Signature.StartProducts | src/make_signature.rs:133-137 | Share `i` starts as `k_i·w_i`. |
| Signature.AddPlaintexts | src/make_signature.rs:141-152 | Plaintext `t` is added to party `t mod n` only, skipping the diagonal. |
| Signature.TakeBackMasks | src/make_signature.rs:154-165 | Mask `t` is taken from party `t div n` only, skipping the diagonal. |
| Signature.FinishShares | src/make_signature.rs:167-175 | Every share becomes `r·accumulated_i + k_i·message`. |
| Signature.Combine | src/make_signature.rs:132-177 | The output is exactly `CombineSpec`: one share `r·(k_i·w_i + received − masks) + k_i·message` per party. |
| Signature.AccumulatedTotal | src/make_signature.rs:132-165 | With consistent MtA plaintexts, the accumulated values add up to `(Σk)·(Σw)` modulo `P`: every mask is added once and taken back once. |
| Signature.CombineSumIdentity | src/make_signature.rs:265-308 | When every off-diagonal plaintext is `k_player·w_raw + mask`, the shares add up to `message·Σk + r·Σk·Σw`. |
| Signature.ToScalars | src/make_signature.rs:212-227 | `from_u128` over a vector keeps every value. |
| Signature.PipelineDecrypts | src/make_signature.rs:192-210 | Under the soundness conditions, the decryption of ciphertext `t` is exactly `k_player·w_raw + add[t]`. |
| Signature.MtaSteps | src/make_signature.rs:192-210 | Encrypt, `cipher_k` and decrypt return the masks unchanged and plaintexts of the masks' length. Under the soundness conditions they succeed with exact plaintexts. |
| Signature.FieldShares | src/make_signature.rs:212-238 | Conversion to field elements followed by `combine` gives `CombineSpec` of the u128 values. |
| Signature.MakeSignature | src/make_signature.rs:191-240 | There is one share per party. Under the soundness conditions the run succeeds, and the shares add up to `message·Σk + r·Σk·Σw`. |
| Signature.MakeSignature2 | src/make_signature.rs:251-258 | The single signer's value is `k·(message + w·r)` in the field. |
| Signature.ThresholdMatchesSingle | src/make_signature.rs:251-308 | The threshold shares add up to the single-signer signature with nonce `Σk` and key `Σw`. |
| MtaU128.StartProducts | makes.rs:140-143 | Share `i` starts as the exact product `k_i·w_i`. |
| MtaU128.AddPlaintexts | makes.rs:147-158 | In u128 arithmetic, plaintext `t` is added to party `t mod n` only, skipping the diagonal. |
| MtaU128.TakeBackMasks | makes.rs:160-171 | In u128 arithmetic, mask `t` is subtracted from party `t div n` only, skipping the diagonal. |
| MtaU128.FinishShares | makes.rs:173-179 | Every share becomes exactly `r·accumulated_i + k_i·message`. |
| MtaU128.Combine | makes.rs:138-182 | When no step overflows or underflows, the output is the exact integers `CombineExact`. |
| MtaU128.ExactReducesToField | makes.rs:138-182 | Reduced modulo `P`, the u128 shares are the field shares of src/make_signature.rs. |
| MtaU128.AccumulatedTotalExact | makes.rs:147-171 | With exact MtA plaintexts, the accumulated values add up to `(Σk)·(Σw)` with no reduction. |
| MtaU128.CombineExactIdentity | makes.rs:238-245 | With exact MtA plaintexts, the u128 shares add up to `message·Σk + r·Σk·Σw`, the value the driver compares against. |
| Commitment.FirstCipher | com.rs:20-30 | The own nonce is encrypted into a cipher below `n²`. |
| Commitment.SecondCipher | com.rs:41-63 | The cipher is `mut_and_add` of the other party's cipher by the own `r` with a mask from `[1, 1234]`. The returned "negative" is the mask itself. |
| Commitment.ThirdPlain | com.rs:76-86 | A successful decryption is below `n`. |
| Commitment.FourthCombine | com.rs:97-116 | The commitment share is `k·r + plain − neg`, and the verify point is `r·G`. |
| Commitment.ExchangeDecrypts | com.rs:20-86 | The key owner decrypts `(k·r' + c) mod n`: its own `k` times the other party's `r'`, plus the other party's mask. |
| Commitment.TwoPartyIdentity | com.rs:183-204 | With exact plaintexts the two commitment shares add up to `(k_a + k_b)·(r_a + r_b)`, and the verify points to `(r_a + r_b)·G`. |
| Commitment.ExchangeGuardExact | com.rs:41-86 | The mixed guard `k·r' + 1234 < n` makes every masked product decrypt exactly. Without it the largest mask wraps. |
| Commitment.DriverGuardAdmitsWrap | com.rs:125-138 | For Alice's key `p = 3, q = 5` and Bob's key `p = 5, q = 7` (both satisfying `KeyOk`), `k_a = r_a = k_b = 1`, `r_b = 14`, masks and randomness 1, both parties pass the driver's own-`k`-times-own-`r` guard. The modelled exchanges decrypt 0 for Alice (a wrap of 15) and 2 for Bob, and the shares add up to 15, not `(k_a + k_b)·(r_a + r_b) = 30`. |
| Commitment.CommitmentProtocol | com.rs:118-204 | Under the mixed guard, both exchanges decrypt exactly and the commitment shares add up to `(k_a + k_b)·(r_a + r_b)`. |
| KeyGeneration.OutputKeyShare | key_generate.rs:21-30 | There are exactly `output_max` entries, and entry `i` is `key_share + Σ_{e=1}^{min−1} ((i+1)·rand)^e`. When a row is dealt it requires `1 ≤ output_min ≤ 2^32`: `output_min − 1` must not underflow and the u32 exponent `(j as u32) + 1` must not overflow. |
| KeyGeneration.PicksResidue | key_generate.rs:45-50 | The test picks exactly the positions congruent to `self_num` modulo `member`; the `count == self_num` disjunct is redundant. |
| KeyGeneration.Collect | key_generate.rs:41-57 | Returns the stride sum of the entries at positions `≡ self_num (mod member)`, together with that sum times `G`. It requires exactly what keeps the u128 arithmetic from panicking: `member > 0`, no underflow of `count + member − self_num`, no overflow of `count + member` at any position other than `self_num` (`CountSumFits`), and a sum below 2^128. |
| KeyGeneration.CollectFromDealers | key_generate.rs:147-173 | Over `member`-long dealer blocks, collecting gives the sum of the dealers' entries at `self_num − 1`. |
| KeyGeneration.OffsetCancels | key_generate.rs:78-83 | The `+1000 … −1000` offset cancels: the field difference is `c_iter − c_num`. |
| KeyGeneration.Calculate | key_generate.rs:67-93 | The loop returns exactly `LagrangeSum`: `Σ pub_num · Π_{iter≠num} c_iter·(c_iter − c_num)^(−1)`, or an error when a difference has no inverse. |
| KeyGeneration.PartyTerm | key_generate.rs:71-88 | The inner `for` loop for one party returns exactly `LagrangeFactor` over all coefficients: the party's point times `c_iter·(c_iter − c_num)^(−1)` for every other coefficient, or `NotInvertible` at the first difference without inverse. |
| KeyGeneration.EqualCoefficientsFail | key_generate.rs:78-84 | Two equal coefficients make `calculate` fail (`invert().unwrap()` panics). |
| KeyGeneration.FactorErrors | key_generate.rs:67-93 | The only failure of the Lagrange weight computation is a non-invertible difference. |
| KeyGeneration.InterpolateOneTwoThree | key_generate.rs:175-187 | With coefficients `[1, 2, 3]`, `calculate` returns `3·pk_1 − 3·pk_2 + pk_3`. |
| KeyGeneration.ColumnsCancel | key_generate.rs:101-173 | For degree-2 dealing, `3·col_1 − 3·col_2 + col_3` is the sum of the dealers' secrets. |
| KeyGeneration.ReconstructPublicKey | key_generate.rs:131-187 | End to end: `calculate` over the collected public shares of parties 1, 2 and 3 is `(Σ key_share)·G`. |
| ZeroKnowledge.Prepare | src/paillier_verify.rs:58-93 | The commitments `z`, `u2` and `u3` are residues (modulo `n`, `n²` and `n`). The points are `y = x·G` and `u1 = a·G`. The challenge and the `h` values are the coins drawn. |
| ZeroKnowledge.ZkVerify | src/paillier_verify.rs:113-161 | The verifier as written, the conjunction of the three checks with `w_inv = find_mod_inverse(w, n²)`, under the u128 bounds of `VerifySafe`. An accepted transcript has `u1 = s1 − e·y` and `u2 < n²`. When `w` has no inverse (`w_inv = 0`), `n ≥ 2` and `e ≥ 1`, it accepts exactly when `u1 = s1 − e·y`, `u2 = 0` and check 3 holds, whatever `s1`, `s2` and `w` are. |
| ZeroKnowledge.ZkVerifyStrict | src/paillier_verify.rs:139-147 | The corrected verifier, which rejects when `(w·w_inv) mod n² ≠ 1`. For `n ≥ 2` it accepts exactly what the verifier as written accepts, less every `w` for which `find_mod_inverse` returns 0. |
| ZeroKnowledge.CurveCheckMeaning | src/paillier_verify.rs:131-135 | Check 1 holds exactly when `u1 = s1 − e·y` in the scalar field. |
| ZeroKnowledge.CipherCheckMeaning | src/paillier_verify.rs:137-147 | With a true inverse of `w`, check 2 holds exactly when `u2·w^e ≡ (n+1)^s1 · s2^n (mod n²)`. |
| ZeroKnowledge.CipherCheckWithoutInverse | src/paillier_verify.rs:139-147 | With `w_inv = 0` and `e ≥ 1`, check 2 holds exactly when `u2 = 0`, whatever `s1` and `s2` are. |
| ZeroKnowledge.ModulusHasNoInverse | src/paillier_verify.rs:35-49 | `find_mod_inverse(n, n²)` returns 0. |
| ZeroKnowledge.VerifyAcceptsNonInvertibleCipher | src/paillier_verify.rs:113-161 | As written, the verifier accepts the cipher `w = n` whenever checks 1 and 3 pass and `u2 = 0`. The corrected verifier rejects it. |
| ZeroKnowledge.StrictVerifySound | src/paillier_verify.rs:113-161 | The corrected verifier accepts only an invertible cipher and a residue `u2 < n²`. It then implies check 1's meaning and the inverse-free Paillier equation, and it agrees with the verifier as written. |
| ZeroKnowledge.HonestCurveCheck | src/paillier_verify.rs:84-87 | An honest transcript passes check 1. |
| ZeroKnowledge.HonestCipherEquation | src/paillier_verify.rs:84-87 | An honest transcript satisfies the Paillier equation for `w = encrypt(n, r, x)`. |
| ZeroKnowledge.HonestRingCheck | src/paillier_verify.rs:149-156 | An honest transcript passes check 3 when `z^(n−1) ≡ 1 (mod n)`. |
| ZeroKnowledge.Completeness | src/paillier_verify.rs:167-209 | The honest prover convinces both the verifier as written and the corrected one. This needs an invertible `w` and a Fermat-unit `z`. |
| Eddsa.PreCompute | src/group_eddsa.rs:634-647 | The commitment is `input_r·G`, and the share passes the single-share equation `s·G = r + h·(pri·G)` with `h` the hash of the message. |
| Eddsa.Challenge | src/group_eddsa.rs:641-643 | The challenge is the 64-bit hash value, a canonical scalar below 2^64. |
| Eddsa.VerifiesMeaning | src/group_eddsa.rs:281-311 | The `Eddsa` circuit accepts exactly one response for a given commitment, key and challenge: `r + e·pub`. |
| Eddsa.NonceRecovered | src/group_eddsa.rs:634-647 | `s − pri·h` is the nonce `input_r`. |
| Eddsa.AggregateOfValidShares | src/group_eddsa.rs:592-627 | If every share verifies against its own key with the common challenge, `(Σs)·G = Σr + e·(Σpub)` holds: the `MyCircuit` equation. |
| Eddsa.LastShareDetermined | src/group_eddsa.rs:592-627 | Suppose the aggregate equation holds and all shares but the last verify. Then the last share verifies too. |
| Eddsa.SignAll | src/group_eddsa.rs:759-782 | Every player's share carries its own nonce as commitment. With the challenge of the common message, each share verifies against that player's public key share. |
| Eddsa.PublicSharesSum | src/group_eddsa.rs:784-789 | The sum of the public key shares is the public key of the sum of the private key shares. |
| Eddsa.Session | src/group_eddsa.rs:759-838 | The aggregate of a session passes `MyCircuit`, and it is a single signature under the public key of the summed private key shares. |
| Eddsa.ThreeKeys | src/group_eddsa.rs:381-436 | `VerifyKey`'s sum `pub1 + pub2 + pub3` is the aggregated public key. |

## Left out

- Randomness (`generate_random_u128_in_range`, `rand::rngs::OsRng`) is a parameter. It is constrained to the source's range only where a proof needs that range. `tool.rs`'s `rand_prime` is not part of this model.
- `DefaultHasher` (SipHash, foreign code) is a parameter `hash: u128 -> u64`. Nothing about its output is assumed beyond its width.
- The Halo2 circuits (`Eddsa`, `MyCircuit`, `VerifyKey`) are represented only by the equation each constrains. Their gadgets (`add_incomplete`'s exceptional cases, the range check on the base-to-scalar conversion, `NonIdentityPoint`) are not modelled.
- Pallas point arithmetic is represented by discrete logarithms. This relies on the group being cyclic of prime order `P`; that `P` is prime is not proved.
- Console printing (the "no inv" message of `zk_verify`, the drivers' `println!`) and the `main` drivers themselves are left out. The driver-level identities they print are stated as lemmas (`MtaU128.CombineExactIdentity`, `Commitment.CommitmentProtocol`, `KeyGeneration.ReconstructPublicKey`).
- The demo expectation of main.rs (`(decrypt(...) − 1777) % n == 2000·5` for `p = 1847`, `q = 1721`) is not evaluated. The general agreement of main.rs with src/lib.rs is proved instead.
- The `gcd(n, (p−1)(q−1)) == 1` check of the src/main.rs driver is not modelled; the Paillier lemmas carry the randomness condition `r^(n·λ) ≡ 1` instead.
- com.rs and makes.rs import their Paillier operations from mta.rs, which does not compile. They are modelled with the src/lib.rs semantics.
- `CalculatePriKey` (used by the group_eddsa.rs test) is not part of the shipped source and is not part of this model. Private key shares enter `Eddsa.Session` as parameters.
- `range_q` and any other range-proof parameters of the transcript are not modelled.
- Paillier.EncryptRoundTrip: assumes `r^(n·λ) ≡ 1 (mod n²)` instead of proving it from `gcd(r, n) = 1`, because Carmichael's theorem is not proved here.
- Paillier.EncryptRoundTrip: promises `m` back only when `invmod(λ mod n, n)` succeeds, because the source's `invmod` can stall on an invertible `λ mod n` (see Findings). `Paillier.CorrectedRoundTrip` states the unconditional round trip for the corrected decryption.
- Paillier.EncryptRoundTripUnitRandomness: promises `m` back only when `invmod(λ mod n, n)` succeeds, for the same reason.
- Paillier.DecryptMutAndAdd: promises `(k·w + add) mod n` only when `invmod(λ mod n, n)` succeeds, for the same reason.
- Signature.MtaSound: requires `k_player·w_raw + add[t] < n_player` at the diagonal entries too. `decrypt_cipher` decrypts those entries as well, and the exact-plaintext promise of `Signature.MtaSteps` covers them, although `combine` never reads them.
- Signature.KeySound and Commitment.KeyOk: require `invmod(λ mod n, n)` to succeed. The MtA and commitment lemmas built on them (`Signature.MtaSound`, `Commitment.CommitmentProtocol`) say nothing about keys such as `p = 5`, `q = 13`, where it fails. These lemmas keep the source's decryption rather than the corrected one.
- ZeroKnowledge.Completeness: assumes `z^(n−1) ≡ 1 (mod n)` (`FermatUnit`) instead of deriving it from `n` prime, because Fermat's little theorem is not proved here.
- ZeroKnowledge.Completeness: also assumes that `w` has an inverse modulo `n²`. The source's test (`n = 3517`) has one.
- Paillier.AddPlain: requires the incoming cipher below 2^64 so that the u128 product does not overflow; the source has no such guard and would panic.
- Signature.CipherK: takes the masks as a parameter with `add[t] ≥ 1`. The upper bound `w_player` (and `w_player·k_player` in makes.rs) is left to the caller.
- KeyGeneration.Collect: requires `member > 0` (the source's `%` panics on zero), that the first position does not underflow, and that `count + member` fits in a u128 at every position other than `self_num` (`CountSumFits`); each of these would panic in the source.
- KeyGeneration.OutputKeyShare: requires `output_min ≤ 2^32` whenever a row is dealt, because `(j as u32) + 1` overflows at `j = 2^32 − 1` and would panic in the source.
- PaillierNaive.NaiveDecrypt, PaillierNaive.NaiveAddPlain, PaillierNaive.NaiveScaleCipher: the i128 no-overflow preconditions (`n² < 2^63`, every base and cipher below 2^63, `p·q + 1 < 2^63`) are sufficient rather than exact. Inputs that overflow in main.rs are excluded, but so are some that would not, such as a large cipher at `λ ≤ 1`, where `pow_and_mod` multiplies nothing. The agreement lemmas with src/lib.rs hold only within these bounds; larger u128 keys panic in main.rs.
- ZeroKnowledge.Prepare: requires that the u128 products `e·secret + a`, `e·p + r` and the `pow_and_mod` calls do not overflow; these would panic in the source.

## Findings

| source | as written | input that shows it | evidently intended | confidence | as-written member | corrected member |
|---|---|---|---|---|---|---|
| main.rs:1-8 | `pow_and_mod(b, 0, m)` returns `b`, so `encrypt(n, r, 0)` encrypts the message 1 | `p·q = n ≥ 2`, `r = 1`, `m = 0`: main.rs's cipher decrypts to 1 | `b^0 = 1`, so a zero message encrypts to a cipher of 0 | not executed | PaillierNaive.NaiveEncryptZeroDecryptsToOne | Paillier.EncryptRoundTrip |
| com.rs:125-138 | the driver checks `k·r < n` with a party's OWN `k` and `r`, but that party decrypts `k·r' + c` with the OTHER party's `r'` | Alice's key `p = 3, q = 5` (`n_a = 15`), Bob's key `p = 5, q = 7`, `k_a = r_a = k_b = 1`, `r_b = 14`, masks and randomness 1: Alice decrypts 0, and the shares add up to 15 instead of 30 | guard the decrypted value `k·r' + c < n` | not executed | Commitment.DriverGuardAdmitsWrap | Commitment.CommitmentProtocol |
| src/paillier_verify.rs:139-147 | with no inverse of `w`, verification continues with `w_inv = 0` | `w = n` (no inverse modulo `n²`), `u2 = 0`, checks 1 and 3 passing: accepted for any `s1`, `s2` | reject when `(w·w_inv) mod n² ≠ 1` | not executed | ZeroKnowledge.VerifyAcceptsNonInvertibleCipher | ZeroKnowledge.StrictVerifySound |
| src/lib.rs:37-58 | `decrypt` inverts `λ mod n` with `invmod` (called at line 108). `invmod` replaces the residue `r` by `r − n mod r` and gives up when `r` divides `n`, even though an inverse exists | `p = 5`, `q = 13`: `λ = 12`, `gcd(12, 65) = 1`, but `invmod(12, 65)` stalls at residue 5, so every cipher fails to decrypt | invert `λ mod n` whenever `gcd(λ mod n, n) = 1`, e.g. by the extended Euclidean algorithm | not executed | Paillier.DecryptFailsOnInvertibleKey | Paillier.CorrectedRoundTrip |
