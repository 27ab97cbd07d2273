/** The u128 twin of the signing combine step (makes.rs:128-182).

    `FourthStep::combine` there follows the same diagonal-skipping
    `player`/`raw` bookkeeping as the field version in
    src/make_signature.rs, but on plain u128 values: `+=`, `-=` and `*=`
    panic on overflow or underflow, so the model states as preconditions
    that every running value stays in range, and proves that the shares are
    then the exact integers `r·accumulated_i + k_i·message`. With exact MtA
    plaintexts they add up to `message·Σk + r·Σk·Σw` with no reduction (the
    check the driver prints with `message = 777` and `r = 333`). */
module MtaU128 {
  import opened Arith
  import opened Sums
  import opened Field
  import opened Signature

  // ---------------------------------------------------------------------
  // Specification
  // ---------------------------------------------------------------------

  /** The shares `accumulated_i · r + k_i · message`, as exact integers. */
  function CombineExact(plain: seq<u128>, k: seq<u128>, w: seq<u128>, add: seq<u128>, message: u128, r: u128): (sig: seq<int>)
    requires |k| <= |w|
    ensures |sig| == |k|
  {
    seq(|k|, (i: nat) requires i < |k| => Accumulated(plain, k, w, add, i) * r + k[i] * message)
  }

  /** What keeps the u128 combine from panicking: every party's running
      value after the plaintexts fits, no party's value goes below zero
      once its masks are taken back, and the final share fits. */
  predicate CombineFits(plain: seq<u128>, k: seq<u128>, w: seq<u128>, add: seq<u128>, message: u128, r: u128)
    requires |k| <= |w|
  {
    forall j :: 0 <= j < |k| ==>
      AfterPlain(plain, k, w, j, |plain|) < U128 &&
      0 <= Accumulated(plain, k, w, add, j) &&
      Accumulated(plain, k, w, add, j) * r + k[j] * message < U128
  }

  // ---------------------------------------------------------------------
  // The running values only grow while plaintexts are added and only
  // shrink while masks are taken back
  // ---------------------------------------------------------------------

  lemma AfterPlainBelow(plain: seq<u128>, k: seq<u128>, w: seq<u128>, j: nat, t: nat)
    requires |k| <= |w| && j < |k| && t <= |plain|
    ensures AfterPlain(plain, k, w, j, t) <= AfterPlain(plain, k, w, j, |plain|)
    ensures (k[j] as int) * w[j] <= AfterPlain(plain, k, w, j, t)
  {
    SumNonneg(t, Row(PlainTable(plain, |k|), j));
    AfterPlainGrows(plain, k, w, j, t);
  }

  lemma {:induction false} AfterPlainGrows(plain: seq<u128>, k: seq<u128>, w: seq<u128>, j: nat, t: nat)
    requires |k| <= |w| && j < |k| && t <= |plain|
    ensures AfterPlain(plain, k, w, j, t) <= AfterPlain(plain, k, w, j, |plain|)
    decreases |plain| - t
  {
    if t < |plain| {
      AfterPlainStep(plain, k, w, t);
      AfterPlainGrows(plain, k, w, j, t + 1);
    }
  }

  lemma {:induction false} MaskedAbove(plain: seq<u128>, k: seq<u128>, w: seq<u128>, add: seq<u128>, j: nat, t: nat)
    requires |k| <= |w| && j < |k| && t <= |add|
    ensures MaskedRunning(plain, k, w, add, j, t) >= Accumulated(plain, k, w, add, j)
    decreases |add| - t
  {
    if t < |add| {
      MaskedRunningStep(plain, k, w, add, t);
      MaskedAbove(plain, k, w, add, j, t + 1);
    }
  }

  // ---------------------------------------------------------------------
  // FourthStep::combine
  // ---------------------------------------------------------------------

  /** The first loop (makes.rs:140-143): `k_i·w_i`, which must fit. */
  method StartProducts(k: seq<u128>, w: seq<u128>) returns (sig: seq<u128>)
    requires |k| <= |w|
    requires forall j :: 0 <= j < |k| ==> (k[j] as int) * w[j] < U128
    ensures |sig| == |k|
    ensures forall j :: 0 <= j < |k| ==> sig[j] == (k[j] as int) * w[j]
  {
    sig := [];
    var i := 0;
    while i < |k|
      invariant 0 <= i <= |k| && |sig| == i
      invariant forall j :: 0 <= j < i ==> sig[j] == (k[j] as int) * w[j]
    {
      sig := sig + [k[i] * w[i]];
      i := i + 1;
    }
  }

  /** After `t` plaintexts, share `j` is the running value of party `j`. */
  predicate PlainLoopExact(plain: seq<u128>, k: seq<u128>, w: seq<u128>, sig: seq<int>, t: nat)
    requires |k| <= |w|
  {
    |sig| == |k| && forall j :: 0 <= j < |k| ==> sig[j] == AfterPlain(plain, k, w, j, t)
  }

  /** One iteration of the plaintext loop stays in range and keeps
      `PlainLoopExact`. */
  lemma PlainExactStep(plain: seq<u128>, k: seq<u128>, w: seq<u128>, sig: seq<int>, t: nat)
    requires |k| <= |w| && |k| > 0 && t < |plain|
    requires forall j :: 0 <= j < |k| ==> AfterPlain(plain, k, w, j, |plain|) < U128
    requires PlainLoopExact(plain, k, w, sig, t)
    ensures var player := t % |k|;
      (player != t / |k| ==> sig[player] + plain[t] < U128) &&
      PlainLoopExact(plain, k, w,
        if player != t / |k| then sig[player := sig[player] + plain[t]] else sig, t + 1)
  {
    var player := t % |k|;
    AfterPlainStep(plain, k, w, t);
    AfterPlainBelow(plain, k, w, player, t + 1);
  }

  /** The plaintext loop (makes.rs:147-158): `plain[t]` is added to party
      `player = t % n` unless `player == raw`. */
  method AddPlaintexts(plain: seq<u128>, k: seq<u128>, w: seq<u128>, sig0: seq<u128>)
    returns (sig: seq<u128>)
    requires |k| <= |w| && |sig0| == |k|
    requires |k| == 0 ==> |plain| <= 1
    requires forall j :: 0 <= j < |k| ==> sig0[j] == (k[j] as int) * w[j]
    requires forall j :: 0 <= j < |k| ==> AfterPlain(plain, k, w, j, |plain|) < U128
    ensures |sig| == |k|
    ensures forall j :: 0 <= j < |k| ==> sig[j] == AfterPlain(plain, k, w, j, |plain|)
  {
    var n := |k|;
    sig := sig0;
    var player, raw, t := 0, 0, 0;
    while t < |plain|
      invariant 0 <= t <= |plain|
      invariant n > 0 ==> player == t % n && raw == t / n
      invariant n == 0 ==> player == t && raw == 0
      invariant PlainLoopExact(plain, k, w, sig, t)
    {
      if n > 0 {
        PlainExactStep(plain, k, w, sig, t);
        CounterStep(t, n);
      }
      if player != raw {
        sig := sig[player := sig[player] + plain[t]];
      }
      player := player + 1;
      if player == n {
        player := 0;
        raw := raw + 1;
      }
      t := t + 1;
    }
  }

  /** After `t` masks, share `j` is the masked running value of party `j`. */
  predicate MaskLoopExact(plain: seq<u128>, k: seq<u128>, w: seq<u128>, add: seq<u128>, sig: seq<int>, t: nat)
    requires |k| <= |w|
  {
    |sig| == |k| && forall j :: 0 <= j < |k| ==> sig[j] == MaskedRunning(plain, k, w, add, j, t)
  }

  /** One iteration of the mask loop stays in range and keeps
      `MaskLoopExact`. */
  lemma MaskExactStep(plain: seq<u128>, k: seq<u128>, w: seq<u128>, add: seq<u128>, sig: seq<int>, t: nat,
                      player: nat, raw: nat)
    requires |k| <= |w| && |k| > 0 && t < |add| <= |k| * |k|
    requires player == t % |k| && raw == t / |k|
    requires forall j :: 0 <= j < |k| ==> 0 <= Accumulated(plain, k, w, add, j)
    requires |sig| == |k| && MaskLoopExact(plain, k, w, add, sig, t)
    ensures raw < |k|
    ensures player != raw ==> 0 <= sig[raw] - add[t]
    ensures MaskLoopExact(plain, k, w, add, if player != raw then sig[raw := sig[raw] - add[t]] else sig, t + 1)
  {
    RowBelow(t, |k|);
    MaskedRunningStep(plain, k, w, add, t);
    MaskedAbove(plain, k, w, add, raw, t + 1);
  }

  /** The mask loop (makes.rs:160-171): `add[t]` is subtracted from party
      `raw = t / n` unless `player == raw`. */
  method TakeBackMasks(plain: seq<u128>, k: seq<u128>, w: seq<u128>, add: seq<u128>, sig0: seq<u128>)
    returns (sig: seq<u128>)
    requires |k| <= |w| && |sig0| == |k|
    requires |k| == 0 ==> |add| <= 1
    requires |k| > 0 ==> |add| <= |k| * |k|
    requires forall j :: 0 <= j < |k| ==> sig0[j] == AfterPlain(plain, k, w, j, |plain|)
    requires forall j :: 0 <= j < |k| ==> 0 <= Accumulated(plain, k, w, add, j)
    ensures |sig| == |k|
    ensures forall j :: 0 <= j < |k| ==> sig[j] == Accumulated(plain, k, w, add, j)
  {
    var n := |k|;
    sig := sig0;
    var player, raw, t := 0, 0, 0;
    while t < |add|
      invariant 0 <= t <= |add|
      invariant n > 0 ==> player == t % n && raw == t / n
      invariant n == 0 ==> player == t && raw == 0
      invariant MaskLoopExact(plain, k, w, add, sig, t)
    {
      if n > 0 {
        MaskExactStep(plain, k, w, add, sig, t, player, raw);
        CounterStep(t, n);
      }
      if player != raw {
        sig := sig[raw := sig[raw] - add[t]];
      }
      player := player + 1;
      if player == n {
        player := 0;
        raw := raw + 1;
      }
      t := t + 1;
    }
  }

  /** After `player` iterations of the last loop, the first `player` shares
      are final and the rest still hold the accumulated values. */
  predicate FinishLoopExact(plain: seq<u128>, k: seq<u128>, w: seq<u128>, add: seq<u128>,
                            message: u128, r: u128, sig: seq<int>, player: nat)
    requires |k| <= |w|
  {
    var spec := CombineExact(plain, k, w, add, message, r);
    |sig| == |k| && player <= |k| &&
    (forall j :: 0 <= j < player ==> sig[j] == spec[j]) &&
    (forall j :: player <= j < |k| ==> sig[j] == Accumulated(plain, k, w, add, j))
  }

  /** One iteration of the last loop stays in range and keeps
      `FinishLoopExact`. */
  lemma FinishExactStep(plain: seq<u128>, k: seq<u128>, w: seq<u128>, add: seq<u128>,
                        message: u128, r: u128, sig: seq<int>, player: nat)
    requires |k| <= |w| && player < |k|
    requires CombineFits(plain, k, w, add, message, r)
    requires FinishLoopExact(plain, k, w, add, message, r, sig, player)
    ensures 0 <= sig[player] * r < U128
    ensures 0 <= (k[player] as int) * message < U128
    ensures sig[player] * r + (k[player] as int) * message < U128
    ensures FinishLoopExact(plain, k, w, add, message, r,
      sig[player := sig[player] * r + (k[player] as int) * message], player + 1)
  {
    var a := Accumulated(plain, k, w, add, player);
    MulLe(0, 0, a, r);
    MulLe(0, 0, k[player], message);
  }

  /** The last loop (makes.rs:173-179): `sig_i *= r; sig_i += k_i·message`. */
  method FinishShares(plain: seq<u128>, k: seq<u128>, w: seq<u128>, add: seq<u128>,
                      message: u128, r: u128, sig0: seq<u128>)
    returns (sig: seq<u128>)
    requires |k| <= |w| && |sig0| == |k|
    requires CombineFits(plain, k, w, add, message, r)
    requires forall j :: 0 <= j < |k| ==> sig0[j] == Accumulated(plain, k, w, add, j)
    ensures sig == CombineExact(plain, k, w, add, message, r)
  {
    sig := sig0;
    var player := 0;
    while player < |k|
      invariant FinishLoopExact(plain, k, w, add, message, r, sig, player)
    {
      FinishExactStep(plain, k, w, add, message, r, sig, player);
      sig := sig[player := sig[player] * r];
      sig := sig[player := sig[player] + k[player] * message];
      player := player + 1;
    }
  }

  /** `FourthStep::combine` (makes.rs:138-181) in u128 arithmetic: when no
      step overflows or underflows, share `i` is exactly
      `accumulated_i · r + k_i · message`. */
  method Combine(plain: seq<u128>, k: seq<u128>, w: seq<u128>, add: seq<u128>, message: u128, r: u128)
    returns (sig: seq<u128>)
    requires |k| <= |w|
    requires |k| == 0 ==> |plain| <= 1 && |add| <= 1
    requires |k| > 0 ==> |add| <= |k| * |k|
    requires CombineFits(plain, k, w, add, message, r)
    ensures sig == CombineExact(plain, k, w, add, message, r)
  {
    forall j | 0 <= j < |k|
      ensures (k[j] as int) * w[j] < U128
    {
      AfterPlainBelow(plain, k, w, j, 0);
    }
    sig := StartProducts(k, w);
    sig := AddPlaintexts(plain, k, w, sig);
    sig := TakeBackMasks(plain, k, w, add, sig);
    sig := FinishShares(plain, k, w, add, message, r, sig);
  }

  /** Reduced modulo `P`, the u128 shares are the field shares of
      src/make_signature.rs. */
  lemma ExactReducesToField(plain: seq<u128>, k: seq<u128>, w: seq<u128>, add: seq<u128>, message: u128, r: u128)
    requires |k| <= |w|
    ensures var exact, field := CombineExact(plain, k, w, add, message, r), CombineSpec(plain, k, w, add, message, r);
      forall i :: 0 <= i < |k| ==> exact[i] % P == field[i]
  {
  }

  // ---------------------------------------------------------------------
  // The sum identity, exactly
  // ---------------------------------------------------------------------

  /** The exact MtA outcome: off the diagonal, plaintext `t` is
      `k_player · w_raw + add[t]` with no reduction. */
  predicate MtaExact(plain: seq<u128>, k: seq<u128>, w: seq<u128>, add: seq<u128>)
    requires |k| == |w| > 0
  {
    forall t: nat :: t < |plain| && t < |add| && t % |k| != t / |k| && t / |k| < |k| ==>
      plain[t] == (k[t % |k|] as int) * w[t / |k|] + add[t]
  }

  /** Pointwise form of `MtaExact` on the off-diagonal vectors. */
  lemma OffDiagonalExactStep(plain: seq<u128>, k: seq<u128>, w: seq<u128>, add: seq<u128>, t: nat)
    requires |k| == |w| > 0 && |plain| == |add| == |k| * |k| && t < |k| * |k|
    requires MtaExact(plain, k, w, add)
    ensures OffDiagonal(plain, |k|)(t) == OffCross(k, w)(t) + OffDiagonal(add, |k|)(t)
  {
    var n := |k|;
    RowBelow(t, n);
    if t % n != t / n {
      assert CrossTerm(k, w)(t) == (k[t % n] as int) * w[t / n];
    }
  }

  /** Off the diagonal, the plaintexts add up to the cross terms plus the
      masks. */
  lemma OffDiagonalExact(plain: seq<u128>, k: seq<u128>, w: seq<u128>, add: seq<u128>)
    requires |k| == |w| > 0 && |plain| == |add| == |k| * |k|
    requires MtaExact(plain, k, w, add)
    ensures SumTo(|k| * |k|, OffDiagonal(plain, |k|))
      == SumTo(|k| * |k|, OffCross(k, w)) + SumTo(|k| * |k|, OffDiagonal(add, |k|))
  {
    var N2 := |k| * |k|;
    forall t: nat | t < N2
      ensures OffDiagonal(plain, |k|)(t) == OffCross(k, w)(t) + OffDiagonal(add, |k|)(t)
    {
      OffDiagonalExactStep(plain, k, w, add, t);
    }
    SumAdd(N2, OffCross(k, w), OffDiagonal(add, |k|), OffDiagonal(plain, |k|));
  }

  /** With exact plaintexts, what the parties hold before the final step
      adds up to `(Σ k)·(Σ w)` exactly. */
  lemma AccumulatedTotalExact(plain: seq<u128>, k: seq<u128>, w: seq<u128>, add: seq<u128>)
    requires |k| == |w| && |plain| == |add| == |k| * |k|
    requires |k| > 0 ==> MtaExact(plain, k, w, add)
    ensures SumTo(|k|, AccumulatedTerm(plain, k, w, add)) == SumTo(|k|, Entry(k)) * SumTo(|w|, Entry(w))
  {
    if |k| > 0 {
      AccumulatedParts(plain, k, w, add);
      OffDiagonalExact(plain, k, w, add);
    }
  }

  /** The identity the makes.rs driver checks: with exact plaintexts the
      u128 shares add up to `message·Σk + r·Σk·Σw`. */
  lemma CombineExactIdentity(plain: seq<u128>, k: seq<u128>, w: seq<u128>, add: seq<u128>, message: u128, r: u128)
    requires |k| == |w| && |plain| == |add| == |k| * |k|
    requires |k| > 0 ==> MtaExact(plain, k, w, add)
    ensures SumTo(|k|, Entry(CombineExact(plain, k, w, add, message, r)))
      == message * SumTo(|k|, Entry(k)) + r * SumTo(|k|, Entry(k)) * SumTo(|w|, Entry(w))
  {
    var n := |k|;
    var sig := CombineExact(plain, k, w, add, message, r);
    var acc := AccumulatedTerm(plain, k, w, add);
    assert forall i :: 0 <= i < n ==> sig[i] == acc(i) * r + k[i] * message by {
      forall i | 0 <= i < n
        ensures sig[i] == acc(i) * r + k[i] * message
      {
        assert acc(i) == Accumulated(plain, k, w, add, i);
      }
    }
    ExactSharesSum(sig, acc, k, message, r);
    AccumulatedTotalExact(plain, k, w, add);
    ExactRegroup(r, message, SumTo(n, acc), SumTo(n, Entry(k)), SumTo(n, Entry(w)));
  }

  /** Shares `acc_i · r + k_i · message` add up to `r·Σacc + message·Σk`. */
  lemma ExactSharesSum(sig: seq<int>, acc: nat -> int, k: seq<u128>, message: int, r: int)
    requires |sig| == |k|
    requires forall i :: 0 <= i < |k| ==> sig[i] == acc(i) * r + k[i] * message
    ensures SumTo(|k|, Entry(sig)) == r * SumTo(|k|, acc) + message * SumTo(|k|, Entry(k))
  {
    var n := |k|;
    var racc := (i: nat) => r * acc(i);
    var mk := (i: nat) => message * Entry(k)(i);
    forall i: nat | i < n
      ensures Entry(sig)(i) == racc(i) + mk(i)
    {
      assert Entry(k)(i) == k[i];
    }
    SumAdd(n, racc, mk, Entry(sig));
    SumScale(n, r, acc, racc);
    SumScale(n, message, Entry(k), mk);
  }

  lemma ExactRegroup(r: int, m: int, a: int, sk: int, sw: int)
    requires a == sk * sw
    ensures r * a + m * sk == m * sk + r * sk * sw
  {
  }
}
