/** The n-party signing flow of src/make_signature.rs.

    Each party `i` holds a nonce share `k_i`, a key share `w_i` and a Paillier
    key `(p_i, q_i)` with public modulus `n_i`. The four steps compute, for
    every ordered pair of parties, an additive sharing of `k_player · w_raw`
    (the multiplicative-to-additive, MtA, exchange), and then each party's
    signature share `r · (k_i·w_i + received − masks) + k_i · message`.

    The entries of the `n·n` vectors are laid out as `t = raw·n + player`:
    the ciphertext of `k_player` scaled by `w_raw` and masked by `add[t]`.
    The combine step skips the diagonal entries `player == raw`. */
module Signature {
  import opened Arith
  import opened Outcome
  import opened ModularArithmetic
  import Paillier
  import opened Field
  import opened Sums

  function Min(a: nat, b: nat): nat
  {
    if a <= b then a else b
  }

  // ---------------------------------------------------------------------
  // Index arithmetic of the `raw·n + player` layout
  // ---------------------------------------------------------------------

  /** Advancing `t` by one advances `player = t % n`, wrapping to 0 and
      bumping `raw = t / n` at the end of a row. */
  lemma CounterStep(t: nat, n: nat)
    requires n > 0
    ensures t % n + 1 == n ==> (t + 1) % n == 0 && (t + 1) / n == t / n + 1
    ensures t % n + 1 != n ==> (t + 1) % n == t % n + 1 && (t + 1) / n == t / n
  {
    if t % n + 1 == n {
      ModUnique(t + 1, t / n + 1, 0, n);
    } else {
      ModUnique(t + 1, t / n, t % n + 1, n);
    }
  }

  lemma BlockIndex(r: nat, p: nat, n: nat)
    requires p < n
    ensures (r * n + p) % n == p && (r * n + p) / n == r
  {
    ModUnique(r * n + p, r, p, n);
  }

  /** Every index of an `n·n` vector has a row below `n`. */
  lemma RowBelow(t: nat, n: nat)
    requires t < n * n
    ensures t / n < n
  {
    if t / n >= n {
      MulLe(n, n, t / n, n);
    }
  }

  /** The party that owns entry `t` of the layout (`player`). */
  function Player(t: nat, n: nat): (p: nat)
    requires t < n * n
    ensures p < n && p == t % n
  {
    t % n
  }

  /** The party that drew the mask of entry `t` (`raw`). */
  function Raw(t: nat, n: nat): (r: nat)
    requires t < n * n
    ensures r < n && r == t / n
  {
    RowBelow(t, n);
    t / n
  }

  /** A modulus whose square fits the squaring bound is itself below it. */
  lemma ModulusBelow(x: nat)
    requires x >= 1 && x * x <= U64
    ensures x < U64
  {
    if x >= 2 {
      MulLe(2, x, x, x);
    }
  }

  // ---------------------------------------------------------------------
  // FirstStep::encrypt_k
  // ---------------------------------------------------------------------

  /** `FirstStep::encrypt_k` (src/make_signature.rs:11-34): party `i`'s
      nonce share `k_i` is encrypted under modulus `n_i` with randomness
      `rand_i ∈ [1, n_i]`; `k` and the moduli are zipped, so there are
      `min(|k|, |n|)` ciphertexts. */
  method EncryptK(k: seq<u128>, n: seq<u128>, rand: seq<u128>) returns (c: seq<u128>)
    requires |rand| == |n|
    requires forall i :: 0 <= i < |n| ==> 1 <= rand[i] <= n[i]
    requires forall i :: 0 <= i < Min(|k|, |n|) ==> Paillier.EncryptSafe(n[i], rand[i])
    ensures |c| == Min(|k|, |n|)
    ensures forall i :: 0 <= i < |c| ==> c[i] == Paillier.Encrypt(n[i], rand[i], k[i])
  {
    c := [];
    var iter := 0;
    while iter < Min(|k|, |n|)
      invariant 0 <= iter <= Min(|k|, |n|) && |c| == iter
      invariant forall i :: 0 <= i < iter ==> c[i] == Paillier.Encrypt(n[i], rand[i], k[i])
    {
      c := c + [Paillier.Encrypt(n[iter], rand[iter], k[iter])];
      iter := iter + 1;
    }
  }

  // ---------------------------------------------------------------------
  // SecondStep::cipher_k
  // ---------------------------------------------------------------------

  /** The u128 arithmetic of `mut_and_add` neither overflows nor divides by
      zero. */
  predicate MutAndAddSafe(n: nat, c: nat, w: nat, rand: nat)
  {
    n >= 1 && n * n <= U64 && PowAndModSafe(c, w, n * n) && PowAndModSafe(rand, n, n * n)
  }

  /** The shapes `cipher_k` works on and the absence of overflow in every
      `mut_and_add` it performs. */
  predicate CipherKSafe(n: seq<u128>, c: seq<u128>, w: seq<u128>, add: seq<u128>, rand: seq<u128>)
  {
    && |n| == |c| == |w| && |add| == |rand| == |n| * |n|
    && forall t :: 0 <= t < |add| ==>
         MutAndAddSafe(n[Player(t, |n|)], c[Player(t, |n|)], w[Raw(t, |n|)], rand[t])
  }

  /** Entry `t = raw·n + player` of the `cipher_k` output: the ciphertext of
      `k_player` scaled by `w_raw` and masked by `add[t]`. */
  function MaskedEntry(n: seq<u128>, c: seq<u128>, w: seq<u128>, add: seq<u128>, rand: seq<u128>, t: nat): nat
    requires CipherKSafe(n, c, w, add, rand) && t < |add|
  {
    var player, raw := Player(t, |n|), Raw(t, |n|);
    assert MutAndAddSafe(n[player], c[player], w[raw], rand[t]);
    Paillier.MutAndAdd(n[player], c[player], add[t], w[raw], rand[t])
  }

  /** `SecondStep::cipher_k` (src/make_signature.rs:45-79): for every row
      `raw` (the party whose key share scales) and every column `player`
      (the party whose ciphertext is scaled), entry `t = raw·n + player` is
      `mut_and_add` of `k_player`'s ciphertext by `w_raw`, masked by
      `add[t] ≥ 1` with randomness `rand[t] ∈ [1, n_player]`. The masks are
      returned with the ciphertexts. The same loop is `cipher_k` of the u128
      twin (makes.rs:51-85); the two differ only in the range the masks are
      drawn from (`[1, w_player]` here, `[1, w_player·k_player]` there),
      which the callers state. */
  method CipherK(n: seq<u128>, c: seq<u128>, w: seq<u128>, add: seq<u128>, rand: seq<u128>)
    returns (out: seq<u128>, masks: seq<u128>)
    requires CipherKSafe(n, c, w, add, rand)
    requires forall t :: 0 <= t < |add| ==> 1 <= add[t] && 1 <= rand[t] <= n[Player(t, |n|)]
    ensures masks == add && |out| == |add|
    ensures forall t :: 0 <= t < |out| ==> out[t] == MaskedEntry(n, c, w, add, rand, t)
  {
    var N := |n|;
    out := [];
    var iter := 0;
    var raw := 0;
    while raw < N
      invariant 0 <= raw <= N && iter == |out| == raw * N <= |add|
      invariant forall t :: 0 <= t < |out| ==> out[t] == MaskedEntry(n, c, w, add, rand, t)
    {
      var player := 0;
      assert (raw + 1) * N == raw * N + N;
      MulLe(raw + 1, N, N, N);
      while player < N
        invariant 0 <= player <= N && iter == |out| == raw * N + player
        invariant forall t :: 0 <= t < |out| ==> out[t] == MaskedEntry(n, c, w, add, rand, t)
      {
        BlockIndex(raw, player, N);
        assert MaskedEntry(n, c, w, add, rand, iter)
          == Paillier.MutAndAdd(n[player], c[player], add[iter], w[raw], rand[iter]);
        out := out + [Paillier.MutAndAdd(n[player], c[player], add[iter], w[raw], rand[iter])];
        iter := iter + 1;
        player := player + 1;
      }
      raw := raw + 1;
    }
    masks := add;
  }

  // ---------------------------------------------------------------------
  // ThirdStep::decrypt_cipher
  // ---------------------------------------------------------------------

  /** Every ciphertext can be decrypted without overflow under the key its
      index selects, `t mod min(|p|, |q|)`. */
  predicate DecryptionsSafe(p: seq<u128>, q: seq<u128>, cipher: seq<u128>)
  {
    && (|cipher| > 0 ==> Min(|p|, |q|) > 0)
    && forall t :: 0 <= t < |cipher| ==>
         Paillier.DecryptSafe(p[t % Min(|p|, |q|)], q[t % Min(|p|, |q|)], cipher[t])
  }

  /** Ciphertext `t` decrypted under the key its index selects. */
  function KeyDecrypt(p: seq<u128>, q: seq<u128>, cipher: seq<u128>, t: nat): (r: Result<nat>)
    requires DecryptionsSafe(p, q, cipher) && t < |cipher|
    ensures r.Ok? ==> r.value < U128
  {
    var m := Min(|p|, |q|);
    var pp, qq := p[t % m], q[t % m];
    assert Paillier.DecryptSafe(pp, qq, cipher[t]);
    MulAtLeast(pp, qq);
    ModulusBelow(pp * qq);
    Paillier.Decrypt(pp, qq, cipher[t])
  }

  /** `ThirdStep::decrypt_cipher` (src/make_signature.rs:90-119): the key
      index `iter` runs through `0 .. min(|p|, |q|)` and wraps, so
      ciphertext `t` is decrypted with key `t mod min(|p|, |q|)`. The first
      decryption that panics ends the step. */
  method DecryptCipher(p: seq<u128>, q: seq<u128>, cipher: seq<u128>) returns (res: Result<seq<u128>>)
    requires DecryptionsSafe(p, q, cipher)
    ensures res.Ok? <==> forall t :: 0 <= t < |cipher| ==> KeyDecrypt(p, q, cipher, t).Ok?
    ensures res.Ok? ==> |res.value| == |cipher|
    ensures res.Ok? ==> forall t :: 0 <= t < |cipher| ==> KeyDecrypt(p, q, cipher, t).value == res.value[t]
    ensures res.Err? ==>
      exists t :: 0 <= t < |cipher| && KeyDecrypt(p, q, cipher, t) == Err(res.error) &&
        (forall s :: 0 <= s < t ==> KeyDecrypt(p, q, cipher, s).Ok?)
  {
    var m := Min(|p|, |q|);
    var plain: seq<u128> := [];
    var iter := 0;
    var t := 0;
    while t < |cipher|
      invariant 0 <= t <= |cipher| && |plain| == t
      invariant m > 0 ==> iter == t % m
      invariant forall s :: 0 <= s < t ==>
        KeyDecrypt(p, q, cipher, s).Ok? && KeyDecrypt(p, q, cipher, s).value == plain[s]
    {
      var d := Paillier.Decrypt(p[iter], q[iter], cipher[t]);
      assert d == KeyDecrypt(p, q, cipher, t);
      if d.Err? {
        return Err(d.error);
      }
      plain := plain + [d.value];
      CounterStep(t, m);
      iter := iter + 1;
      if iter == m {
        iter := 0;
      }
      t := t + 1;
    }
    return Ok(plain);
  }

  // ---------------------------------------------------------------------
  // FourthStep::combine
  // ---------------------------------------------------------------------

  /** Entry `(i, t)` is the plaintext `t` when it is addressed to party `i`
      (`t % n == i`) off the diagonal. */
  function PlainTable(plain: seq<Scalar>, n: nat): (nat, nat) -> int
    requires n > 0
  {
    (i: nat, t: nat) => if t < |plain| && t % n == i && t / n != i then plain[t] else 0
  }

  /** Entry `(i, t)` is the mask `t` when party `i` drew it (`t / n == i`)
      off the diagonal. */
  function MaskTable(add: seq<Scalar>, n: nat): (nat, nat) -> int
    requires n > 0
  {
    (i: nat, t: nat) => if t < |add| && t / n == i && t % n != i then add[t] else 0
  }

  /** What party `i` holds before the final step: `k_i·w_i`, plus every
      plaintext addressed to it, minus every mask it drew. */
  function Accumulated(plain: seq<Scalar>, k: seq<Scalar>, w: seq<Scalar>, add: seq<Scalar>, i: nat): int
    requires |k| <= |w| && i < |k|
  {
    k[i] * w[i] + SumTo(|plain|, Row(PlainTable(plain, |k|), i)) - SumTo(|add|, Row(MaskTable(add, |k|), i))
  }

  /** The signature shares `r · accumulated_i + k_i · message` in the
      scalar field, one per party. */
  function CombineSpec(plain: seq<Scalar>, k: seq<Scalar>, w: seq<Scalar>, add: seq<Scalar>, message: Scalar, r: Scalar): (sig: seq<Scalar>)
    requires |k| <= |w|
    ensures |sig| == |k|
  {
    seq(|k|, (i: nat) requires i < |k| => (Accumulated(plain, k, w, add, i) * r + k[i] * message) % P)
  }

  lemma ShareStep(a: int, r: int, km: int)
    ensures (((a % P) * r) % P + km % P) % P == (a * r + km) % P
  {
    MulModLeft(a, r, P);
    AddMod(a * r, km, P);
  }

  /** The running values of the combine step after the plaintext loop. */
  function AfterPlain(plain: seq<Scalar>, k: seq<Scalar>, w: seq<Scalar>, j: nat, t: nat): int
    requires |k| <= |w| && j < |k|
  {
    k[j] * w[j] + SumTo(t, Row(PlainTable(plain, |k|), j))
  }

  /** One more plaintext changes only the running value of the party it is
      addressed to. */
  lemma AfterPlainStep(plain: seq<Scalar>, k: seq<Scalar>, w: seq<Scalar>, t: nat)
    requires |k| <= |w| && |k| > 0 && t < |plain|
    ensures forall j :: 0 <= j < |k| ==>
      AfterPlain(plain, k, w, j, t + 1)
        == AfterPlain(plain, k, w, j, t) + (if j == t % |k| && t / |k| != j then plain[t] as int else 0)
  {
  }

  /** After `t` plaintexts, share `j` is the running value of party `j`. */
  predicate PlainLoopInvariant(plain: seq<Scalar>, k: seq<Scalar>, w: seq<Scalar>, sig: seq<Scalar>, t: nat)
    requires |k| <= |w|
  {
    |sig| == |k| && forall j :: 0 <= j < |k| ==> sig[j] == AfterPlain(plain, k, w, j, t) % P
  }

  /** One iteration of the plaintext loop keeps `PlainLoopInvariant`. */
  lemma PlainLoopStep(plain: seq<Scalar>, k: seq<Scalar>, w: seq<Scalar>, sig: seq<Scalar>, t: nat)
    requires |k| <= |w| && |k| > 0 && t < |plain|
    requires PlainLoopInvariant(plain, k, w, sig, t)
    ensures var player := t % |k|;
      PlainLoopInvariant(plain, k, w,
        if player != t / |k| then sig[player := Add(sig[player], plain[t])] else sig, t + 1)
  {
    var player := t % |k|;
    AfterPlainStep(plain, k, w, t);
    if player != t / |k| {
      AddModLeft(AfterPlain(plain, k, w, player, t), plain[t], P);
    }
  }

  /** The plaintext loop of `combine` (src/make_signature.rs:141-152): entry
      `t` is added to party `player = t % n` unless `player == raw`. */
  method AddPlaintexts(plain: seq<Scalar>, k: seq<Scalar>, w: seq<Scalar>, sig0: seq<Scalar>)
    returns (sig: seq<Scalar>)
    requires |k| <= |w| && |sig0| == |k|
    requires |k| == 0 ==> |plain| <= 1
    requires forall j :: 0 <= j < |k| ==> sig0[j] == (k[j] * w[j]) % P
    ensures |sig| == |k|
    ensures forall j :: 0 <= j < |k| ==> sig[j] == AfterPlain(plain, k, w, j, |plain|) % P
  {
    var n := |k|;
    sig := sig0;
    var player, raw, t := 0, 0, 0;
    while t < |plain|
      invariant 0 <= t <= |plain|
      invariant n > 0 ==> player == t % n && raw == t / n
      invariant n == 0 ==> player == t && raw == 0
      invariant PlainLoopInvariant(plain, k, w, sig, t)
    {
      if n > 0 {
        PlainLoopStep(plain, k, w, sig, t);
        CounterStep(t, n);
      }
      if player != raw {
        sig := sig[player := Add(sig[player], plain[t])];
      }
      player := player + 1;
      if player == n {
        player := 0;
        raw := raw + 1;
      }
      t := t + 1;
    }
  }

  /** The running value of party `j` after every plaintext and `t` masks. */
  function MaskedRunning(plain: seq<Scalar>, k: seq<Scalar>, w: seq<Scalar>, add: seq<Scalar>, j: nat, t: nat): int
    requires |k| <= |w| && j < |k|
  {
    AfterPlain(plain, k, w, j, |plain|) - SumTo(t, Row(MaskTable(add, |k|), j))
  }

  /** One more mask changes only the running value of the party that drew it. */
  lemma MaskedRunningStep(plain: seq<Scalar>, k: seq<Scalar>, w: seq<Scalar>, add: seq<Scalar>, t: nat)
    requires |k| <= |w| && |k| > 0 && t < |add|
    ensures forall j :: 0 <= j < |k| ==>
      MaskedRunning(plain, k, w, add, j, t + 1)
        == MaskedRunning(plain, k, w, add, j, t) - (if j == t / |k| && t % |k| != j then add[t] as int else 0)
  {
  }

  /** After `t` masks, share `j` is the masked running value of party `j`. */
  predicate MaskLoopInvariant(plain: seq<Scalar>, k: seq<Scalar>, w: seq<Scalar>, add: seq<Scalar>, sig: seq<Scalar>, t: nat)
    requires |k| <= |w|
  {
    |sig| == |k| && forall j :: 0 <= j < |k| ==> sig[j] == MaskedRunning(plain, k, w, add, j, t) % P
  }

  /** One iteration of the mask loop keeps `MaskLoopInvariant`. */
  lemma MaskLoopStep(plain: seq<Scalar>, k: seq<Scalar>, w: seq<Scalar>, add: seq<Scalar>, sig: seq<Scalar>, t: nat)
    requires |k| <= |w| && |k| > 0 && t < |add| <= |k| * |k|
    requires MaskLoopInvariant(plain, k, w, add, sig, t)
    ensures t / |k| < |k|
    ensures var raw := t / |k|;
      MaskLoopInvariant(plain, k, w, add,
        if t % |k| != raw then sig[raw := Sub(sig[raw], add[t])] else sig, t + 1)
  {
    var raw := t / |k|;
    RowBelow(t, |k|);
    MaskedRunningStep(plain, k, w, add, t);
    if t % |k| != raw {
      SubModLeft(MaskedRunning(plain, k, w, add, raw, t), add[t], P);
    }
  }

  /** The mask loop of `combine` (src/make_signature.rs:154-165): mask `t`
      is taken from party `raw = t / n` unless `player == raw`. */
  method TakeBackMasks(plain: seq<Scalar>, k: seq<Scalar>, w: seq<Scalar>, add: seq<Scalar>, sig0: seq<Scalar>)
    returns (sig: seq<Scalar>)
    requires |k| <= |w| && |sig0| == |k|
    requires |k| == 0 ==> |add| <= 1
    requires |k| > 0 ==> |add| <= |k| * |k|
    requires forall j :: 0 <= j < |k| ==> sig0[j] == AfterPlain(plain, k, w, j, |plain|) % P
    ensures |sig| == |k|
    ensures forall j :: 0 <= j < |k| ==> sig[j] == Accumulated(plain, k, w, add, j) % P
  {
    var n := |k|;
    sig := sig0;
    var player, raw, t := 0, 0, 0;
    while t < |add|
      invariant 0 <= t <= |add|
      invariant n > 0 ==> player == t % n && raw == t / n
      invariant n == 0 ==> player == t && raw == 0
      invariant MaskLoopInvariant(plain, k, w, add, sig, t)
    {
      if n > 0 {
        MaskLoopStep(plain, k, w, add, sig, t);
        CounterStep(t, n);
      }
      if player != raw {
        sig := sig[raw := Sub(sig[raw], add[t])];
      }
      player := player + 1;
      if player == n {
        player := 0;
        raw := raw + 1;
      }
      t := t + 1;
    }
  }

  /** `FourthStep::combine` (src/make_signature.rs:132-177). The party count
      `n` is `|k|`; the vector starts as the `min(|k|, |w|)` products
      `k_i·w_i`, so every party needs its `w_i`. With `n == 0` the `player`
      counter never wraps and a second entry in either vector would index
      past the end; with `n > 0` a mask entry beyond `n·n` has a row `raw`
      past the end. */
  method Combine(plain: seq<Scalar>, k: seq<Scalar>, w: seq<Scalar>, add: seq<Scalar>, message: Scalar, r: Scalar)
    returns (sig: seq<Scalar>)
    requires |k| <= |w|
    requires |k| == 0 ==> |plain| <= 1 && |add| <= 1
    requires |k| > 0 ==> |add| <= |k| * |k|
    ensures sig == CombineSpec(plain, k, w, add, message, r)
  {
    sig := StartProducts(k, w);
    sig := AddPlaintexts(plain, k, w, sig);
    sig := TakeBackMasks(plain, k, w, add, sig);
    sig := FinishShares(plain, k, w, add, message, r, sig);
  }

  /** The initial vector of `combine` (src/make_signature.rs:133-137): the
      products `k_i·w_i`, one per party. */
  method StartProducts(k: seq<Scalar>, w: seq<Scalar>) returns (sig: seq<Scalar>)
    requires |k| <= |w|
    ensures |sig| == |k|
    ensures forall j :: 0 <= j < |k| ==> sig[j] == (k[j] * w[j]) % P
  {
    sig := [];
    var i := 0;
    while i < |k|
      invariant 0 <= i <= |k| && |sig| == i
      invariant forall j :: 0 <= j < i ==> sig[j] == (k[j] * w[j]) % P
    {
      sig := sig + [Mul(k[i], w[i])];
      i := i + 1;
    }
  }

  /** After `player` iterations of the last loop, the first `player` shares
      are final and the rest still hold the accumulated values. */
  predicate FinishLoopInvariant(plain: seq<Scalar>, k: seq<Scalar>, w: seq<Scalar>, add: seq<Scalar>,
                                message: Scalar, r: Scalar, sig: seq<Scalar>, player: nat)
    requires |k| <= |w|
  {
    var spec := CombineSpec(plain, k, w, add, message, r);
    |sig| == |k| && player <= |k| &&
    (forall j :: 0 <= j < player ==> sig[j] == spec[j]) &&
    (forall j :: player <= j < |k| ==> sig[j] == Accumulated(plain, k, w, add, j) % P)
  }

  /** One iteration of the last loop keeps `FinishLoopInvariant`. */
  lemma FinishLoopStep(plain: seq<Scalar>, k: seq<Scalar>, w: seq<Scalar>, add: seq<Scalar>,
                       message: Scalar, r: Scalar, sig: seq<Scalar>, player: nat)
    requires |k| <= |w| && player < |k|
    requires FinishLoopInvariant(plain, k, w, add, message, r, sig, player)
    ensures FinishLoopInvariant(plain, k, w, add, message, r,
      sig[player := Add(Mul(sig[player], r), Mul(k[player], message))], player + 1)
  {
    ShareStep(Accumulated(plain, k, w, add, player), r, k[player] * message);
  }

  /** The last loop of `combine` (src/make_signature.rs:167-175): every
      share becomes `sig_i·r + k_i·message`. */
  method FinishShares(plain: seq<Scalar>, k: seq<Scalar>, w: seq<Scalar>, add: seq<Scalar>,
                      message: Scalar, r: Scalar, sig0: seq<Scalar>)
    returns (sig: seq<Scalar>)
    requires |k| <= |w| && |sig0| == |k|
    requires forall j :: 0 <= j < |k| ==> sig0[j] == Accumulated(plain, k, w, add, j) % P
    ensures sig == CombineSpec(plain, k, w, add, message, r)
  {
    sig := sig0;
    var player := 0;
    while player < |k|
      invariant FinishLoopInvariant(plain, k, w, add, message, r, sig, player)
    {
      FinishLoopStep(plain, k, w, add, message, r, sig, player);
      var scaled := Mul(sig[player], r);
      var mk := Mul(k[player], message);
      sig := sig[player := Add(scaled, mk)];
      player := player + 1;
    }
  }

  // ---------------------------------------------------------------------
  // The sum identity of the combine step
  // ---------------------------------------------------------------------

  /** The off-diagonal entries of an `n·n` vector (0 elsewhere). */
  function OffDiagonal(s: seq<int>, n: nat): nat -> int
    requires n > 0
  {
    (t: nat) => if t < |s| && t % n != t / n then s[t] else 0
  }

  /** `k[t % n] · w[t / n]` for every index of the `n·n` layout. */
  function CrossTerm(k: seq<Scalar>, w: seq<Scalar>): nat -> int
    requires |k| == |w|
  {
    (t: nat) => if |k| > 0 && t / |k| < |k| then (k[t % |k|] as int) * w[t / |k|] else 0
  }

  /** Summed over all parties, the plaintexts received are exactly the
      off-diagonal plaintexts. */
  lemma PlainSharesTotal(plain: seq<Scalar>, n: nat)
    requires n > 0
    ensures var h := PlainTable(plain, n);
      SumTo(n, (i: nat) => SumTo(|plain|, Row(h, i))) == SumTo(|plain|, OffDiagonal(plain, n))
  {
    var h := PlainTable(plain, n);
    SumSwap(n, |plain|, h);
    forall t: nat | t < |plain|
      ensures SumTo(n, Column(h, t)) == OffDiagonal(plain, n)(t)
    {
      SumSingle(n, t % n, OffDiagonal(plain, n)(t), Column(h, t));
    }
    SumEq(|plain|, (t: nat) => SumTo(n, Column(h, t)), OffDiagonal(plain, n));
  }

  /** Summed over all parties, the masks drawn are exactly the off-diagonal
      masks. */
  lemma MaskSharesTotal(add: seq<Scalar>, n: nat)
    requires n > 0 && |add| <= n * n
    ensures var h := MaskTable(add, n);
      SumTo(n, (i: nat) => SumTo(|add|, Row(h, i))) == SumTo(|add|, OffDiagonal(add, n))
  {
    var h := MaskTable(add, n);
    SumSwap(n, |add|, h);
    forall t: nat | t < |add|
      ensures SumTo(n, Column(h, t)) == OffDiagonal(add, n)(t)
    {
      MaskColumn(add, n, t);
    }
    SumEq(|add|, (t: nat) => SumTo(n, Column(h, t)), OffDiagonal(add, n));
  }

  /** Column `t` of the mask table holds the off-diagonal mask `t` in the
      row of the party that drew it. */
  lemma MaskColumn(add: seq<Scalar>, n: nat, t: nat)
    requires n > 0 && t < |add| <= n * n
    ensures SumTo(n, Column(MaskTable(add, n), t)) == OffDiagonal(add, n)(t)
  {
    RowBelow(t, n);
    SumSingle(n, t / n, OffDiagonal(add, n)(t), Column(MaskTable(add, n), t));
  }

  /** The off-diagonal part of `CrossTerm`. */
  function OffCross(k: seq<Scalar>, w: seq<Scalar>): nat -> int
    requires |k| == |w|
  {
    (t: nat) => if |k| > 0 && t % |k| != t / |k| then CrossTerm(k, w)(t) else 0
  }

  /** The products `k_i·w_i` each party starts from. */
  function Products(k: seq<Scalar>, w: seq<Scalar>): nat -> int
    requires |k| <= |w|
  {
    (i: nat) => if i < |k| then (k[i] as int) * w[i] else 0
  }

  /** The diagonal part of `CrossTerm`. */
  function DiagonalTerm(k: seq<Scalar>, w: seq<Scalar>): nat -> int
    requires |k| == |w|
  {
    (t: nat) => if |k| > 0 && t % |k| == t / |k| then CrossTerm(k, w)(t) else 0
  }

  /** Row `r` of the cross terms sums to `w_r · Σ k`. */
  lemma CrossRow(k: seq<Scalar>, w: seq<Scalar>, r: nat)
    requires |k| == |w| && r < |k|
    ensures var g, m := CrossTerm(k, w), |k|;
      SumTo(m, Block(g, r, m)) == SumTo(|k|, Entry(k)) * Entry(w)(r)
  {
    var g, m := CrossTerm(k, w), |k|;
    forall p: nat | p < m
      ensures Block(g, r, m)(p) == w[r] * Entry(k)(p)
    {
      BlockIndex(r, p, m);
    }
    SumScale(m, w[r], Entry(k), Block(g, r, m));
    assert Entry(w)(r) == w[r];
  }

  /** Row `r` of the diagonal terms is the single product `k_r·w_r`. */
  lemma DiagonalRow(k: seq<Scalar>, w: seq<Scalar>, r: nat)
    requires |k| == |w| && r < |k|
    ensures var g, m := DiagonalTerm(k, w), |k|;
      SumTo(m, Block(g, r, m)) == (k[r] as int) * w[r]
  {
    var g, m := DiagonalTerm(k, w), |k|;
    forall p: nat | p < m
      ensures Block(g, r, m)(p) == if p == r then (k[r] as int) * w[r] else 0
    {
      var t := r * m + p;
      BlockIndex(r, p, m);
      assert CrossTerm(k, w)(t) == (k[p] as int) * w[r];
      assert Block(g, r, m)(p) == DiagonalTerm(k, w)(t);
    }
    SumSingle(m, r, (k[r] as int) * w[r], Block(g, r, m));
  }

  /** `Σ_t k[t % n]·w[t / n]` over the `n·n` layout is `(Σ k)·(Σ w)`. */
  lemma CrossTermsTotal(k: seq<Scalar>, w: seq<Scalar>)
    requires |k| == |w|
    ensures SumTo(|k| * |k|, CrossTerm(k, w)) == SumTo(|k|, Entry(k)) * SumTo(|w|, Entry(w))
  {
    var g, m := CrossTerm(k, w), |k|;
    var sk := SumTo(m, Entry(k));
    var scaled := (r: nat) => sk * Entry(w)(r);
    SumBlocks(m, m, g);
    forall r: nat | r < m
      ensures SumTo(m, Block(g, r, m)) == scaled(r)
    {
      CrossRow(k, w, r);
    }
    SumEq(m, (r: nat) => SumTo(m, Block(g, r, m)), scaled);
    SumScale(m, sk, Entry(w), scaled);
  }

  /** The diagonal cross terms are the products `k_i·w_i`. */
  lemma DiagonalTotal(k: seq<Scalar>, w: seq<Scalar>)
    requires |k| == |w|
    ensures SumTo(|k| * |k|, DiagonalTerm(k, w)) == SumTo(|k|, Products(k, w))
  {
    var g, m := DiagonalTerm(k, w), |k|;
    SumBlocks(m, m, g);
    forall r: nat | r < m
      ensures SumTo(m, Block(g, r, m)) == (k[r] as int) * w[r]
    {
      DiagonalRow(k, w, r);
    }
    SumEq(m, (r: nat) => SumTo(m, Block(g, r, m)), Products(k, w));
  }

  /** What each party holds before the final step, as a function of the party. */
  function AccumulatedTerm(plain: seq<Scalar>, k: seq<Scalar>, w: seq<Scalar>, add: seq<Scalar>): nat -> int
    requires |k| <= |w|
  {
    (i: nat) => if i < |k| then Accumulated(plain, k, w, add, i) else 0
  }

  /** The MtA outcome the test relies on: off the diagonal, plaintext `t` is
      `k_player · w_raw` plus the mask of entry `t`, as a field element. */
  predicate MtaConsistent(plain: seq<Scalar>, k: seq<Scalar>, w: seq<Scalar>, add: seq<Scalar>)
    requires |k| == |w| > 0
  {
    forall t: nat :: t < |plain| && t < |add| && t % |k| != t / |k| && t / |k| < |k| ==>
      plain[t] % P == ((k[t % |k|] as int) * w[t / |k|] + add[t]) % P
  }

  /** Pointwise form of `MtaConsistent` on the off-diagonal vectors. */
  lemma OffDiagonalStep(plain: seq<Scalar>, k: seq<Scalar>, w: seq<Scalar>, add: seq<Scalar>, t: nat)
    requires |k| == |w| > 0 && |plain| == |add| == |k| * |k| && t < |k| * |k|
    requires MtaConsistent(plain, k, w, add)
    ensures OffDiagonal(plain, |k|)(t) % P == (OffCross(k, w)(t) + OffDiagonal(add, |k|)(t)) % P
  {
    var n := |k|;
    var player, raw := t % n, t / n;
    RowBelow(t, n);
    if player != raw {
      var x := (k[player] as int) * w[raw];
      assert plain[t] % P == (x + add[t]) % P;
      assert CrossTerm(k, w)(t) == x;
      assert OffCross(k, w)(t) == x;
      assert OffDiagonal(plain, n)(t) == plain[t];
      assert OffDiagonal(add, n)(t) == add[t];
    } else {
      assert OffDiagonal(plain, n)(t) == 0;
      assert OffDiagonal(add, n)(t) == 0;
      assert OffCross(k, w)(t) == 0;
    }
  }

  lemma ShareCongruent(a: int, r: int, b: int, m: int)
    ensures ((a * r + b * m) % P) % P == (r * a + m * b) % P
  {
    ModOfMod(a * r + b * m, P);
    assert a * r + b * m == r * a + m * b;
  }

  lemma MulAssoc(a: int, b: int, c: int)
    ensures a * (b * c) == a * b * c
  {
  }

  lemma CongruentShift(x: int, z: int, c: int)
    requires x % P == z % P
    ensures (x + c) % P == (z + c) % P
  {
    AddModLeft(x, c, P);
    AddModLeft(z, c, P);
  }

  /** Summed over all parties, what the parties hold before the final step
      is the diagonal products plus every off-diagonal plaintext minus every
      off-diagonal mask, and `(Σ k)·(Σ w)` is the diagonal products plus the
      off-diagonal cross terms. */
  lemma AccumulatedParts(plain: seq<Scalar>, k: seq<Scalar>, w: seq<Scalar>, add: seq<Scalar>)
    requires |k| == |w| > 0 && |plain| == |add| == |k| * |k|
    ensures SumTo(|k|, AccumulatedTerm(plain, k, w, add))
      == SumTo(|k|, Products(k, w)) + SumTo(|k| * |k|, OffDiagonal(plain, |k|)) - SumTo(|k| * |k|, OffDiagonal(add, |k|))
    ensures SumTo(|k|, Entry(k)) * SumTo(|w|, Entry(w))
      == SumTo(|k|, Products(k, w)) + SumTo(|k| * |k|, OffCross(k, w))
  {
    var n := |k|;
    var N2 := n * n;
    var hP, hA := PlainTable(plain, n), MaskTable(add, n);
    var ps := (i: nat) => SumTo(|plain|, Row(hP, i));
    var ms := (i: nat) => SumTo(|add|, Row(hA, i));
    var d := SumTo(n, Products(k, w));
    assert SumTo(n, AccumulatedTerm(plain, k, w, add)) == d + SumTo(n, ps) - SumTo(n, ms) by {
      var kwps := (i: nat) => Products(k, w)(i) + ps(i);
      SumAdd(n, Products(k, w), ps, kwps);
      SumSub(n, kwps, ms, AccumulatedTerm(plain, k, w, add));
    }
    assert SumTo(n, ps) == SumTo(N2, OffDiagonal(plain, n)) by {
      PlainSharesTotal(plain, n);
    }
    assert SumTo(n, ms) == SumTo(N2, OffDiagonal(add, n)) by {
      MaskSharesTotal(add, n);
    }
    // diagonal plus off-diagonal cross terms are the product of the sums
    assert SumTo(N2, CrossTerm(k, w)) == d + SumTo(N2, OffCross(k, w)) by {
      SumAdd(N2, DiagonalTerm(k, w), OffCross(k, w), CrossTerm(k, w));
      DiagonalTotal(k, w);
    }
    CrossTermsTotal(k, w);
  }

  /** Summed over all parties, what the parties hold before the final step
      is `(Σ k)·(Σ w)` modulo `P`: every off-diagonal mask is added once by
      the receiver of its plaintext and taken back once by the party that
      drew it. */
  lemma AccumulatedTotal(plain: seq<Scalar>, k: seq<Scalar>, w: seq<Scalar>, add: seq<Scalar>)
    requires |k| == |w| > 0 && |plain| == |add| == |k| * |k|
    requires MtaConsistent(plain, k, w, add)
    ensures SumTo(|k|, AccumulatedTerm(plain, k, w, add)) % P == (SumTo(|k|, Entry(k)) * SumTo(|w|, Entry(w))) % P
  {
    var n := |k|;
    var N2 := n * n;
    AccumulatedParts(plain, k, w, add);
    OffDiagonalCongruent(plain, k, w, add);
    MasksCancel(SumTo(n, AccumulatedTerm(plain, k, w, add)), SumTo(n, Products(k, w)),
      SumTo(N2, OffDiagonal(plain, n)), SumTo(N2, OffDiagonal(add, n)), SumTo(N2, OffCross(k, w)),
      SumTo(|k|, Entry(k)) * SumTo(|w|, Entry(w)));
  }

  /** Off the diagonal, the plaintexts add up to the cross terms plus the
      masks, modulo `P`. */
  lemma OffDiagonalCongruent(plain: seq<Scalar>, k: seq<Scalar>, w: seq<Scalar>, add: seq<Scalar>)
    requires |k| == |w| > 0 && |plain| == |add| == |k| * |k|
    requires MtaConsistent(plain, k, w, add)
    ensures SumTo(|k| * |k|, OffDiagonal(plain, |k|)) % P
      == (SumTo(|k| * |k|, OffCross(k, w)) + SumTo(|k| * |k|, OffDiagonal(add, |k|))) % P
  {
    var n := |k|;
    var N2 := n * n;
    var offPlain, offAdd := OffDiagonal(plain, n), OffDiagonal(add, n);
    var crossAndMask := (t: nat) => OffCross(k, w)(t) + offAdd(t);
    forall t: nat | t < N2
      ensures offPlain(t) % P == crossAndMask(t) % P
    {
      OffDiagonalStep(plain, k, w, add, t);
    }
    SumCongruent(N2, offPlain, crossAndMask, P);
    SumAdd(N2, OffCross(k, w), offAdd, crossAndMask);
  }

  /** The bookkeeping of `AccumulatedTotal` on the sums themselves. */
  lemma MasksCancel(acc: int, d: int, x: int, y: int, o: int, cross: int)
    requires acc == d + x - y && x % P == (o + y) % P && cross == d + o
    ensures acc % P == cross % P
  {
    CongruentShift(x, o + y, d - y);
  }

  /** `e ≡ r·a + m·sk` and `a ≡ sk·sw` give `e ≡ m·sk + r·sk·sw`. */
  lemma ScaledCongruent(e: int, a: int, sk: int, sw: int, r: int, m: int, p: int)
    requires p > 0
    requires e % p == (r * a + m * sk) % p && a % p == (sk * sw) % p
    ensures e % p == (m * sk + r * sk * sw) % p
  {
    MulModRight(r, a, p);
    MulModRight(r, sk * sw, p);
    AddModLeft(r * a, m * sk, p);
    AddModLeft(r * (sk * sw), m * sk, p);
    MulAssoc(r, sk, sw);
  }

  /** Shares of the form `acc_i · r + k_i · message` add up, modulo `P`,
      to `r · Σ acc + message · Σ k`. */
  lemma SharesTotal(sig: seq<Scalar>, acc: nat -> int, k: seq<Scalar>, message: Scalar, r: Scalar)
    requires |sig| == |k|
    requires forall i :: 0 <= i < |k| ==> sig[i] == (acc(i) * r + k[i] * message) % P
    ensures SumTo(|sig|, Entry(sig)) % P == (r * SumTo(|k|, acc) + message * SumTo(|k|, Entry(k))) % P
  {
    var n := |k|;
    var racc := (i: nat) => r * acc(i);
    var mk := (i: nat) => message * Entry(k)(i);
    var lin := (i: nat) => racc(i) + mk(i);
    forall i: nat | i < n
      ensures Entry(sig)(i) % P == lin(i) % P
    {
      var a, b := acc(i), k[i];
      ShareCongruent(a, r, b, message);
      assert Entry(sig)(i) == (a * r + b * message) % P;
      assert Entry(k)(i) == b;
      assert racc(i) == r * a;
      assert mk(i) == message * b;
    }
    SumCongruent(n, Entry(sig), lin, P);
    SumAdd(n, racc, mk, lin);
    SumScale(n, r, acc, racc);
    SumScale(n, message, Entry(k), mk);
  }

  /** Share `i` is `acc_i · r + k_i · message` in the field. */
  predicate SharesOf(sig: seq<Scalar>, acc: nat -> int, k: seq<Scalar>, message: Scalar, r: Scalar)
  {
    |sig| == |k| && forall i :: 0 <= i < |k| ==> sig[i] == (acc(i) * r + k[i] * message) % P
  }

  /** Each share of `CombineSpec` in terms of `AccumulatedTerm`. */
  lemma CombineShares(plain: seq<Scalar>, k: seq<Scalar>, w: seq<Scalar>, add: seq<Scalar>, message: Scalar, r: Scalar)
    requires |k| <= |w|
    ensures SharesOf(CombineSpec(plain, k, w, add, message, r), AccumulatedTerm(plain, k, w, add), k, message, r)
  {
    var sig, acc := CombineSpec(plain, k, w, add, message, r), AccumulatedTerm(plain, k, w, add);
    forall i | 0 <= i < |k|
      ensures sig[i] == (acc(i) * r + k[i] * message) % P
    {
      assert acc(i) == Accumulated(plain, k, w, add, i);
    }
  }

  /** The shares add up to `message·sk + r·sk·sw` in the field. */
  predicate SumsToSignature(sig: seq<Scalar>, message: int, r: int, sk: int, sw: int)
  {
    SumScalars(sig) == (message * sk + r * sk * sw) % P
  }

  /** The identity the signing test asserts: when every off-diagonal
      plaintext is `k_player · w_raw + mask`, the signature shares add up to
      `message · Σk + r · Σk · Σw`. */
  lemma CombineSumIdentity(plain: seq<Scalar>, k: seq<Scalar>, w: seq<Scalar>, add: seq<Scalar>, message: Scalar, r: Scalar)
    requires |k| == |w| && |plain| == |add| == |k| * |k|
    requires |k| > 0 ==> MtaConsistent(plain, k, w, add)
    ensures SumsToSignature(CombineSpec(plain, k, w, add, message, r), message, r, SumTo(|k|, Entry(k)), SumTo(|w|, Entry(w)))
  {
    var n := |k|;
    var sig := CombineSpec(plain, k, w, add, message, r);
    var acc := AccumulatedTerm(plain, k, w, add);
    CombineShares(plain, k, w, add, message, r);
    assert SumTo(n, acc) % P == (SumTo(n, Entry(k)) * SumTo(n, Entry(w))) % P by {
      if n > 0 {
        AccumulatedTotal(plain, k, w, add);
      }
    }
    SharesIdentity(sig, acc, k, w, message, r);
  }

  /** Shares `acc_i · r + k_i · message` whose `acc` sums to `Σk·Σw` modulo
      `P` add up to `message·Σk + r·Σk·Σw`. */
  lemma SharesIdentity(sig: seq<Scalar>, acc: nat -> int, k: seq<Scalar>, w: seq<Scalar>, message: Scalar, r: Scalar)
    requires |k| == |w| && SharesOf(sig, acc, k, message, r)
    requires SumTo(|k|, acc) % P == (SumTo(|k|, Entry(k)) * SumTo(|w|, Entry(w))) % P
    ensures SumsToSignature(sig, message, r, SumTo(|k|, Entry(k)), SumTo(|w|, Entry(w)))
  {
    var n := |k|;
    var sk, sw := SumTo(n, Entry(k)), SumTo(n, Entry(w));
    var e := SumTo(n, Entry(sig));
    assert SumScalars(sig) == e % P by {
      SumScalarsMod(sig);
    }
    assert e % P == (r * SumTo(n, acc) + message * sk) % P by {
      SharesTotal(sig, acc, k, message, r);
    }
    ScaledCongruent(e, SumTo(n, acc), sk, sw, r, message, P);
  }

  // ---------------------------------------------------------------------
  // MakeSignature::make_signature: the four steps in a row
  // ---------------------------------------------------------------------

  /** `pallas::Scalar::from_u128` over a vector (src/make_signature.rs:212-227). */
  method ToScalars(xs: seq<u128>) returns (ys: seq<Scalar>)
    ensures ys == xs
  {
    ys := [];
    var i := 0;
    while i < |xs|
      invariant 0 <= i <= |xs| && ys == xs[..i]
    {
      ys := ys + [FromU128(xs[i])];
      i := i + 1;
    }
  }

  /** Party key material the u128 arithmetic can handle: the public modulus
      and the private primes are nonzero and their squares fit. */
  predicate KeyFits(n: nat, p: nat, q: nat)
  {
    n >= 1 && n * n <= U64 && p >= 1 && q >= 1 && (p * q) * (p * q) <= U64
  }

  /** The inputs of `make_signature` for `|k|` parties: one key share, nonce
      share, modulus, key pair and randomness per party, and the `n·n` mask
      and randomness draws of `cipher_k`, in their ranges. */
  predicate SigningInputs(k: seq<u128>, n: seq<u128>, w: seq<u128>, p: seq<u128>, q: seq<u128>,
                          rand: seq<u128>, add: seq<u128>, rand2: seq<u128>)
  {
    && |k| == |n| == |w| == |p| == |q| == |rand| && |add| == |rand2| == |n| * |n|
    && (forall i :: 0 <= i < |n| ==> KeyFits(n[i], p[i], q[i]) && 1 <= rand[i] <= n[i])
    && (forall t :: 0 <= t < |add| ==>
          1 <= add[t] <= w[Player(t, |n|)] && 1 <= rand2[t] <= n[Player(t, |n|)])
  }

  /** `rand^(n·λ) ≡ 1 (mod n²)`: true of every `rand` coprime to `n` when
      `n` is a product of two distinct primes. */
  predicate UnitRandomness(rand: nat, n: nat, lambda: nat)
  {
    n >= 1 && Pow(rand, n * lambda) % (n * n) == 1
  }

  /** A Paillier key that decrypts: the modulus is `p·q`, `λ` is invertible
      modulo `n`, and the encryption randomness is a unit. */
  predicate KeySound(n: nat, p: nat, q: nat, rand: nat)
  {
    p >= 1 && q >= 1 && n == p * q && n >= 2 && InvModSpec(Paillier.Lambda(p, q) % n, n).Ok?
      && UnitRandomness(rand, n, Paillier.Lambda(p, q))
  }

  /** The conditions under which every MtA plaintext comes back exactly:
      sound keys, unit randomness, and `k_player·w_raw + add[t] < n_player`
      so that decryption modulo `n_player` does not wrap. The diagonal
      entries (`player == raw`) are included: they are decrypted like the
      others, although `combine` skips them. */
  predicate MtaSound(k: seq<u128>, n: seq<u128>, w: seq<u128>, p: seq<u128>, q: seq<u128>,
                     rand: seq<u128>, add: seq<u128>, rand2: seq<u128>)
    requires SigningInputs(k, n, w, p, q, rand, add, rand2)
  {
    && (forall i :: 0 <= i < |n| ==> KeySound(n[i], p[i], q[i], rand[i]))
    && (forall t :: 0 <= t < |add| ==>
          EntrySound(n[Player(t, |n|)], p[Player(t, |n|)], q[Player(t, |n|)],
                     k[Player(t, |n|)], w[Raw(t, |n|)], add[t], rand2[t]))
  }

  /** Entry `t` of the MtA step under modulus `n = p·q`: the masking
      randomness is a unit and `k·w + add` does not wrap modulo `n`. */
  predicate EntrySound(n: nat, p: nat, q: nat, k: nat, w: nat, add: nat, rand: nat)
  {
    p >= 1 && q >= 1 && UnitRandomness(rand, n, Paillier.Lambda(p, q)) && k * w + add < n
  }

  /** The ciphertexts `encrypt_k` produces. */
  predicate EncryptedShares(k: seq<u128>, n: seq<u128>, rand: seq<u128>, c: seq<u128>)
    requires |k| == |n| == |rand| && forall i :: 0 <= i < |n| ==> Paillier.EncryptSafe(n[i], rand[i])
  {
    |c| == |n| && forall i :: 0 <= i < |n| ==> c[i] == Paillier.Encrypt(n[i], rand[i], k[i])
  }

  lemma EncryptionsSafe(k: seq<u128>, n: seq<u128>, w: seq<u128>, p: seq<u128>, q: seq<u128>,
                        rand: seq<u128>, add: seq<u128>, rand2: seq<u128>)
    requires SigningInputs(k, n, w, p, q, rand, add, rand2)
    ensures forall i :: 0 <= i < |n| ==> Paillier.EncryptSafe(n[i], rand[i])
  {
    forall i | 0 <= i < |n|
      ensures Paillier.EncryptSafe(n[i], rand[i])
    {
      ModulusBelow(n[i]);
    }
  }

  /** Every `mut_and_add` of the pipeline is free of overflow. */
  lemma PipelineCipherKSafe(k: seq<u128>, n: seq<u128>, w: seq<u128>, p: seq<u128>, q: seq<u128>,
                            rand: seq<u128>, add: seq<u128>, rand2: seq<u128>, c: seq<u128>)
    requires SigningInputs(k, n, w, p, q, rand, add, rand2)
    requires forall i :: 0 <= i < |n| ==> Paillier.EncryptSafe(n[i], rand[i])
    requires EncryptedShares(k, n, rand, c)
    ensures CipherKSafe(n, c, w, add, rand2)
  {
    forall t | 0 <= t < |add|
      ensures MutAndAddSafe(n[Player(t, |n|)], c[Player(t, |n|)], w[Raw(t, |n|)], rand2[t])
    {
      ModulusBelow(n[Player(t, |n|)]);
    }
  }

  /** Every ciphertext of the pipeline decrypts without overflow. */
  lemma PipelineDecryptionsSafe(k: seq<u128>, n: seq<u128>, w: seq<u128>, p: seq<u128>, q: seq<u128>,
                                rand: seq<u128>, add: seq<u128>, rand2: seq<u128>, c: seq<u128>, out: seq<u128>)
    requires SigningInputs(k, n, w, p, q, rand, add, rand2)
    requires CipherKSafe(n, c, w, add, rand2)
    requires |out| == |add| && forall t :: 0 <= t < |out| ==> out[t] == MaskedEntry(n, c, w, add, rand2, t)
    ensures DecryptionsSafe(p, q, out)
  {
    var N := |n|;
    assert Min(|p|, |q|) == N;
    forall t | 0 <= t < |out|
      ensures Paillier.DecryptSafe(p[t % N], q[t % N], out[t])
    {
      var player := Player(t, N);
      DecryptSafeFrom(n[player], p[player], q[player], out[t]);
    }
  }

  lemma DecryptSafeFrom(n: nat, p: nat, q: nat, c: nat)
    requires KeyFits(n, p, q) && c < n * n
    ensures Paillier.DecryptSafe(p, q, c)
  {
    MulAtLeast(p, q);
    MulAtLeast(p * q, p * q);
  }

  /** The MtA step recovers `k_player·w_raw + add[t]` exactly under the
      soundness conditions (Paillier's homomorphism, `DecryptMutAndAdd`). */
  lemma PipelineDecrypts(k: seq<u128>, n: seq<u128>, w: seq<u128>, p: seq<u128>, q: seq<u128>,
                         rand: seq<u128>, add: seq<u128>, rand2: seq<u128>, c: seq<u128>, out: seq<u128>, t: nat)
    requires SigningInputs(k, n, w, p, q, rand, add, rand2) && MtaSound(k, n, w, p, q, rand, add, rand2)
    requires forall i :: 0 <= i < |n| ==> Paillier.EncryptSafe(n[i], rand[i])
    requires EncryptedShares(k, n, rand, c) && CipherKSafe(n, c, w, add, rand2)
    requires |out| == |add| && forall t :: 0 <= t < |out| ==> out[t] == MaskedEntry(n, c, w, add, rand2, t)
    requires DecryptionsSafe(p, q, out) && t < |out|
    ensures KeyDecrypt(p, q, out, t) == Ok((k[Player(t, |n|)] as int) * w[Raw(t, |n|)] + add[t])
  {
    var N := |n|;
    var player, raw := Player(t, N), Raw(t, N);
    var pp, qq := p[player], q[player];
    assert KeySound(n[player], pp, qq, rand[player]);
    assert Min(|p|, |q|) == N;
    assert MutAndAddSafe(n[player], c[player], w[raw], rand2[t]);
    Paillier.DecryptMutAndAdd(pp, qq, rand[player], k[player], add[t], w[raw], rand2[t]);
    ModSmall((k[player] as int) * w[raw] + add[t], n[player]);
  }

  lemma PipelineAllDecrypt(k: seq<u128>, n: seq<u128>, w: seq<u128>, p: seq<u128>, q: seq<u128>,
                            rand: seq<u128>, add: seq<u128>, rand2: seq<u128>, c: seq<u128>, out: seq<u128>)
    requires SigningInputs(k, n, w, p, q, rand, add, rand2) && MtaSound(k, n, w, p, q, rand, add, rand2)
    requires forall i :: 0 <= i < |n| ==> Paillier.EncryptSafe(n[i], rand[i])
    requires EncryptedShares(k, n, rand, c) && CipherKSafe(n, c, w, add, rand2)
    requires |out| == |add| && forall t :: 0 <= t < |out| ==> out[t] == MaskedEntry(n, c, w, add, rand2, t)
    requires DecryptionsSafe(p, q, out)
    ensures forall t :: 0 <= t < |out| ==> KeyDecrypt(p, q, out, t) == Ok((k[Player(t, |n|)] as int) * w[Raw(t, |n|)] + add[t])
  {
    forall t | 0 <= t < |out|
      ensures KeyDecrypt(p, q, out, t) == Ok((k[Player(t, |n|)] as int) * w[Raw(t, |n|)] + add[t])
    {
      PipelineDecrypts(k, n, w, p, q, rand, add, rand2, c, out, t);
    }
  }

  /** The decrypted MtA plaintexts satisfy `MtaConsistent` as field elements. */
  lemma PipelineConsistent(plain: seq<Scalar>, k: seq<Scalar>, w: seq<Scalar>, add: seq<Scalar>)
    requires |k| == |w| > 0 && |plain| == |add| == |k| * |k|
    requires forall t :: 0 <= t < |plain| ==> plain[t] == (k[Player(t, |k|)] as int) * w[Raw(t, |k|)] + add[t]
    ensures MtaConsistent(plain, k, w, add)
  {
  }

  /** The combine step applied to exact MtA plaintexts sums to the identity,
      stated over the u128 inputs. */
  lemma PipelineTotal(k: seq<u128>, n: seq<u128>, w: seq<u128>, add: seq<u128>, dec: seq<u128>,
                      message: Scalar, r: Scalar)
    requires |k| == |n| == |w| && |add| == |n| * |n|
    requires ExactPlaintexts(k, n, w, add, dec)
    ensures SumsToSignature(CombineSpec(dec, k, w, add, message, r), message, r, SumTo(|k|, Entry(k)), SumTo(|w|, Entry(w)))
  {
    if |k| > 0 {
      PipelineConsistent(dec, k, w, add);
    }
    CombineSumIdentity(dec, k, w, add, message, r);
  }

  /** `MakeSignature::make_signature` (src/make_signature.rs:191-240): the
      four steps, the conversions to field elements, and the combine step.
      A decryption that panics ends the run with its error. Under the
      soundness conditions no decryption fails and the signature shares add
      up to `message·Σk + r·Σk·Σw`, the identity the module's test checks. */
  method MakeSignature(k: seq<u128>, n: seq<u128>, w: seq<u128>, p: seq<u128>, q: seq<u128>,
                       message: u128, r: Scalar, rand: seq<u128>, add: seq<u128>, rand2: seq<u128>)
    returns (res: Result<seq<Scalar>>)
    requires SigningInputs(k, n, w, p, q, rand, add, rand2)
    ensures res.Ok? ==> |res.value| == |k|
    ensures MtaSound(k, n, w, p, q, rand, add, rand2) ==> res.Ok?
    ensures MtaSound(k, n, w, p, q, rand, add, rand2) && res.Ok? ==>
      SumsToSignature(res.value, message, r, SumTo(|k|, Entry(k)), SumTo(|w|, Entry(w)))
  {
    var dec, masks := MtaSteps(k, n, w, p, q, rand, add, rand2);
    if dec.Err? {
      return Err(dec.error);
    }
    var sig := FieldShares(dec.value, k, w, masks, message, r);
    if MtaSound(k, n, w, p, q, rand, add, rand2) {
      PipelineTotal(k, n, w, masks, dec.value, message, r);
    }
    return Ok(sig);
  }

  /** The last part of `make_signature` (src/make_signature.rs:212-238):
      the plaintexts, nonce shares, key shares and masks become field
      elements and go through the combine step. */
  method FieldShares(plain: seq<u128>, k: seq<u128>, w: seq<u128>, add: seq<u128>, message: u128, r: Scalar)
    returns (sig: seq<Scalar>)
    requires |k| == |w| && |plain| == |add| == |k| * |k|
    ensures sig == CombineSpec(plain, k, w, add, message, r)
  {
    var plainS := ToScalars(plain);
    var kS := ToScalars(k);
    var wS := ToScalars(w);
    var addS := ToScalars(add);
    sig := Combine(plainS, kS, wS, addS, FromU128(message), r);
  }

  /** Every MtA plaintext is `k_player·w_raw + add[t]`, with no reduction. */
  predicate ExactPlaintexts(k: seq<u128>, n: seq<u128>, w: seq<u128>, add: seq<u128>, plain: seq<u128>)
    requires |k| == |n| == |w| && |add| == |n| * |n|
  {
    |plain| == |add| &&
    forall t :: 0 <= t < |add| ==> plain[t] == (k[Player(t, |n|)] as int) * w[Raw(t, |n|)] + add[t]
  }

  lemma DecryptedExact(k: seq<u128>, n: seq<u128>, w: seq<u128>, p: seq<u128>, q: seq<u128>,
                        add: seq<u128>, out: seq<u128>, dec: Result<seq<u128>>)
    requires |k| == |n| == |w| && |add| == |n| * |n| && |out| == |add| && DecryptionsSafe(p, q, out)
    requires forall t :: 0 <= t < |out| ==> KeyDecrypt(p, q, out, t) == Ok((k[Player(t, |n|)] as int) * w[Raw(t, |n|)] + add[t])
    requires dec.Ok? <==> forall t :: 0 <= t < |out| ==> KeyDecrypt(p, q, out, t).Ok?
    requires dec.Ok? ==> |dec.value| == |out|
    requires dec.Ok? ==> forall t :: 0 <= t < |out| ==> KeyDecrypt(p, q, out, t).value == dec.value[t]
    ensures dec.Ok? && ExactPlaintexts(k, n, w, add, dec.value)
  {
  }

  /** The first three steps of `make_signature` (src/make_signature.rs:192-210):
      encrypt the nonce shares, run `cipher_k`, decrypt. Under the soundness
      conditions every plaintext is `k_player·w_raw + add[t]` exactly. */
  method MtaSteps(k: seq<u128>, n: seq<u128>, w: seq<u128>, p: seq<u128>, q: seq<u128>,
                  rand: seq<u128>, add: seq<u128>, rand2: seq<u128>)
    returns (dec: Result<seq<u128>>, masks: seq<u128>)
    requires SigningInputs(k, n, w, p, q, rand, add, rand2)
    ensures masks == add
    ensures dec.Ok? ==> |dec.value| == |add|
    ensures MtaSound(k, n, w, p, q, rand, add, rand2) ==> dec.Ok? && ExactPlaintexts(k, n, w, add, dec.value)
  {
    EncryptionsSafe(k, n, w, p, q, rand, add, rand2);
    var c := EncryptK(k, n, rand);
    PipelineCipherKSafe(k, n, w, p, q, rand, add, rand2, c);
    var out;
    out, masks := CipherK(n, c, w, add, rand2);
    PipelineDecryptionsSafe(k, n, w, p, q, rand, add, rand2, c, out);
    var sound := MtaSound(k, n, w, p, q, rand, add, rand2);
    if sound {
      PipelineAllDecrypt(k, n, w, p, q, rand, add, rand2, c, out);
    }
    dec := DecryptCipher(p, q, out);
    if sound {
      DecryptedExact(k, n, w, p, q, add, out, dec);
    }
  }

  // ---------------------------------------------------------------------
  // MakeSignature2::make_signature2: the single-signer reference
  // ---------------------------------------------------------------------

  /** `k·(message + w·r) mod P` with the products reduced as they go. */
  lemma SingleForm(m: int, k: int, w: int, r: int, p: int)
    requires p > 0
    ensures (((m + (w * r) % p) % p) * k) % p == (m * k + r * k * w) % p
  {
    AddModLeft(w * r, m, p);
    MulModLeft(m + w * r, k, p);
    assert (m + w * r) * k == m * k + r * k * w;
  }

  /** `MakeSignature2::make_signature2` (src/make_signature.rs:251-258):
      one signer holding the whole nonce `k` and key `w` signs with
      `k·(message + w·r)`. */
  function MakeSignature2(message: Scalar, k: u128, r: Scalar, w: Scalar): (s: Scalar)
    ensures s == (message * k + r * k * w) % P
  {
    var wr := Mul(w, r);
    var sum := Add(message, wr);
    SignatureForm(message, k, r, w);
    Mul(sum, FromU128(k))
  }

  lemma SignatureForm(message: Scalar, k: u128, r: Scalar, w: Scalar)
    ensures Mul(Add(message, Mul(w, r)), FromU128(k)) == (message * k + r * k * w) % P
  {
    assert Add(message, Mul(w, r)) == (message + (w * r) % P) % P;
    SingleForm(message, k, w, r, P);
  }

  /** The threshold shares add up to the single-signer signature with the
      summed nonce `Σk` and the summed key `Σw` (when `Σk` fits a u128, as
      `from_u128` needs). */
  lemma ThresholdMatchesSingle(plain: seq<Scalar>, k: seq<Scalar>, w: seq<Scalar>, add: seq<Scalar>, message: Scalar, r: Scalar)
    requires |k| == |w| && |plain| == |add| == |k| * |k|
    requires |k| > 0 ==> MtaConsistent(plain, k, w, add)
    requires SumTo(|k|, Entry(k)) < U128
    ensures var sk := SumTo(|k|, Entry(k));
      0 <= sk && SumScalars(CombineSpec(plain, k, w, add, message, r))
        == MakeSignature2(message, sk, r, SumTo(|w|, Entry(w)) % P)
  {
    var sk, sw := SumTo(|k|, Entry(k)), SumTo(|w|, Entry(w));
    SumNonneg(|k|, Entry(k));
    CombineSumIdentity(plain, k, w, add, message, r);
    SingleFromIdentity(CombineSpec(plain, k, w, add, message, r), message, r, sk, sw);
  }

  /** Shares that add up to `message·sk + r·sk·sw` add up to the
      single-signer signature with nonce `sk` and key `sw mod P`. */
  lemma SingleFromIdentity(sig: seq<Scalar>, message: Scalar, r: Scalar, sk: nat, sw: int)
    requires sk < U128 && SumsToSignature(sig, message, r, sk, sw)
    ensures SumScalars(sig) == MakeSignature2(message, sk, r, sw % P)
  {
    ReducedKey(SumScalars(sig), message, sk, r, sw, P);
    var single := MakeSignature2(message, sk, r, sw % P);
    assert single == (message * sk + r * sk * (sw % P)) % P;
  }

  /** Reducing the summed key modulo `P` first does not change the signature. */
  lemma ReducedKey(total: int, m: int, sk: int, r: int, sw: int, p: int)
    requires p > 0 && total == (m * sk + r * sk * sw) % p
    ensures total == (m * sk + r * sk * (sw % p)) % p
  {
    MulModRight(r * sk, sw, p);
    AddMod(m * sk, r * sk * (sw % p), p);
    AddMod(m * sk, r * sk * sw, p);
  }
}
