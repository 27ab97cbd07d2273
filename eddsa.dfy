/** Schnorr-style ("EdDSA") signature shares over pallas, `pre_compute` in
    src/group_eddsa.rs, and the equations that the `Eddsa` and `MyCircuit`
    circuits constrain.

    A player holding a private key share `pri` picks a nonce `input_r` and
    answers the challenge `h = H(message)` with the commitment `r = input_r·G`
    and the response `s = input_r + pri·h`. One share is accepted when
    `s·G == r + h·(pri·G)`; three shares are accepted together when
    `(s1+s2+s3)·G == (r1+r2+r3) + h·(pub1+pub2+pub3)`.

    The message hash is Rust's `DefaultHasher`, which is foreign code: it is a
    parameter `hash` of type `u128 -> u64`, fixed for the whole session. */
module Eddsa {
  import opened Arith
  import opened Field

  /** What `pre_compute` returns: the commitment point `r` and the response `s`. */
  datatype Share = Share(r: Point, s: Scalar)

  /** `hasher.write_u128(message); hasher.finish() as u128`, lifted with
      `from_u128`. The challenge depends on the message alone, so every
      player signing the same message answers the same challenge. */
  function Challenge(hash: u128 -> u64, message: u128): (h: Scalar)
    ensures h < U64
  {
    FromU128(hash(message))
  }

  /** `pre_compute(pri, input_r, message)`. */
  function PreCompute(hash: u128 -> u64, pri: Scalar, inputR: Scalar, message: u128): (sh: Share)
    ensures sh.r == inputR
    ensures Verifies(sh, PointMul(Generator, pri), Challenge(hash, message))
  {
    var h := Challenge(hash, message);
    var r := PointMul(Generator, inputR);
    var temp := Mul(pri, h);
    var s := Add(inputR, temp);
    GeneratorMul(inputR);
    GeneratorMul(pri);
    GeneratorMul(s);
    Share(r, s)
  }

  /** The constraint of the `Eddsa` circuit for one share with public key
      `pub` and challenge `e`: `s·G == r + e·pub`. */
  predicate Verifies(sh: Share, pub: Point, e: Scalar)
  {
    PointMul(Generator, sh.s) == PointAdd(sh.r, PointMul(pub, e))
  }

  /** For a given commitment, public key and challenge exactly one response is
      accepted, namely `r + e·pub`; so a player who does not know the
      discrete log of `pub` cannot produce a share for a fresh challenge other
      than by guessing that scalar. */
  lemma VerifiesMeaning(sh: Share, pub: Point, e: Scalar)
    ensures Verifies(sh, pub, e) <==> sh.s == Add(sh.r, Mul(pub, e))
  {
    GeneratorMul(sh.s);
  }

  /** The response of an honest share recovers the nonce: `s - pri·h == input_r`.
      So the same nonce must never be reused with two challenges, since the two
      responses then reveal `pri·(h1 - h2)`. */
  lemma NonceRecovered(hash: u128 -> u64, pri: Scalar, inputR: Scalar, message: u128)
    ensures Sub(PreCompute(hash, pri, inputR, message).s, Mul(pri, Challenge(hash, message))) == inputR
  {
    var t := Mul(pri, Challenge(hash, message));
    SubModLeft(inputR + t, t, P);
    ModSmall(inputR, P);
  }

  // ---------------------------------------------------------------------
  // Aggregation of several shares (`MyCircuit`).

  /** `s1 + s2 + ...`, folded from the left as `input_s_sum` is. */
  function SumResponses(shares: seq<Share>): Scalar
  {
    if |shares| == 0 then 0 else Add(SumResponses(shares[..|shares| - 1]), shares[|shares| - 1].s)
  }

  /** `r1 + r2 + ...`, the aggregated commitment. */
  function SumCommitments(shares: seq<Share>): Point
  {
    if |shares| == 0 then Identity else PointAdd(SumCommitments(shares[..|shares| - 1]), shares[|shares| - 1].r)
  }

  /** `pub1 + pub2 + ...`, the aggregated public key. */
  function SumPoints(pts: seq<Point>): Point
  {
    if |pts| == 0 then Identity else PointAdd(SumPoints(pts[..|pts| - 1]), pts[|pts| - 1])
  }

  /** The constraint of `MyCircuit`:
      `(Σ s_i)·G == Σ r_i + e·(Σ pub_i)`. */
  predicate AggregateVerifies(shares: seq<Share>, pubs: seq<Point>, e: Scalar)
  {
    PointMul(Generator, SumResponses(shares)) == PointAdd(SumCommitments(shares), PointMul(SumPoints(pubs), e))
  }

  /** `(a + b·e) + (c + d·e) == (a + c) + (b + d)·e` in the field. */
  lemma Regroup(a: Scalar, b: Scalar, c: Scalar, d: Scalar, e: Scalar)
    ensures Add(Add(a, Mul(b, e)), Add(c, Mul(d, e))) == Add(Add(a, c), Mul(Add(b, d), e))
  {
    AddSwap(a, Mul(b, e), c, Mul(d, e));
    MulDistributes(b, d, e);
  }

  /** `(a + x) + (c + y) == (a + c) + (x + y)` in the field. */
  lemma AddSwap(a: Scalar, x: Scalar, c: Scalar, y: Scalar)
    ensures Add(Add(a, x), Add(c, y)) == Add(Add(a, c), Add(x, y))
  {
    var t := a + x + c + y;
    SumOfSums(a + x, c + y, t);
    SumOfSums(a + c, x + y, t);
  }

  lemma SumOfSums(u: nat, v: nat, t: int)
    requires u + v == t
    ensures ((u % P) + (v % P)) % P == t % P
  {
    AddMod(u, v, P);
  }

  /** `(b + d)·e == b·e + d·e` in the field. */
  lemma MulDistributes(b: Scalar, d: Scalar, e: Scalar)
    ensures Mul(Add(b, d), e) == Add(Mul(b, e), Mul(d, e))
  {
    DistributesMod(b, d, e, P);
  }

  lemma DistributesMod(b: int, d: int, e: int, m: int)
    requires m > 0
    ensures (((b + d) % m) * e) % m == ((b * e) % m + (d * e) % m) % m
  {
    var be, de := b * e, d * e;
    var t := (b + d) * e;
    assert (((b + d) % m) * e) % m == t % m by { MulModLeft(b + d, e, m); }
    assert t == be + de;
    assert (be + de) % m == (be % m + de % m) % m by { AddMod(be, de, m); }
  }

  /** If every share verifies against its own public key with the common
      challenge, the aggregate verifies against the sum of the public keys. */
  lemma {:induction false} AggregateOfValidShares(shares: seq<Share>, pubs: seq<Point>, e: Scalar)
    requires |shares| == |pubs|
    requires forall i :: 0 <= i < |shares| ==> Verifies(shares[i], pubs[i], e)
    ensures AggregateVerifies(shares, pubs, e)
  {
    var n := |shares|;
    GeneratorMul(SumResponses(shares));
    if n == 0 {
      assert PointAdd(Identity, PointMul(Identity, e)) == 0;
    } else {
      var init, last := shares[..n - 1], shares[n - 1];
      var pinit, plast := pubs[..n - 1], pubs[n - 1];
      AggregateOfValidShares(init, pinit, e);
      GeneratorMul(SumResponses(init));
      VerifiesMeaning(last, plast, e);
      Regroup(SumCommitments(init), SumPoints(pinit), last.r, plast, e);
    }
  }

  /** Conversely, once the aggregate and all shares but the last verify, the
      last share verifies as well: the aggregate equation pins down the one
      remaining response. */
  lemma LastShareDetermined(shares: seq<Share>, pubs: seq<Point>, e: Scalar)
    requires |shares| == |pubs| >= 1
    requires forall i :: 0 <= i < |shares| - 1 ==> Verifies(shares[i], pubs[i], e)
    requires AggregateVerifies(shares, pubs, e)
    ensures Verifies(shares[|shares| - 1], pubs[|pubs| - 1], e)
  {
    var n := |shares|;
    var init, last := shares[..n - 1], shares[n - 1];
    var pinit, plast := pubs[..n - 1], pubs[n - 1];
    AggregateOfValidShares(init, pinit, e);
    GeneratorMul(SumResponses(init));
    GeneratorMul(SumResponses(shares));
    var S, R, K := SumResponses(init), SumCommitments(init), SumPoints(pinit);
    var w := Add(last.r, Mul(plast, e));
    Regroup(R, K, last.r, plast, e);
    // both `last.s` and `w` complete `S` to the same aggregate response
    assert Add(S, last.s) == Add(S, w);
    AddCancel(S, last.s, w);
    VerifiesMeaning(last, plast, e);
  }

  lemma AddCancel(a: Scalar, b: Scalar, c: Scalar)
    requires Add(a, b) == Add(a, c)
    ensures b == c
  {
    SubModLeft(a + b, a, P);
    SubModLeft(a + c, a, P);
    ModSmall(b, P);
    ModSmall(c, P);
  }

  // ---------------------------------------------------------------------
  // A signing session.

  /** The public key shares `pri_i·G` the players publish. */
  function PublicShares(pri: seq<Scalar>): (pubs: seq<Point>)
    ensures |pubs| == |pri|
    ensures forall i :: 0 <= i < |pri| ==> pubs[i] == pri[i]
  {
    if |pri| == 0 then []
    else
      GeneratorMul(pri[|pri| - 1]);
      PublicShares(pri[..|pri| - 1]) + [PointMul(Generator, pri[|pri| - 1])]
  }

  /** Every player runs `pre_compute` with its own key share and nonce on
      the common message. */
  function SignAll(hash: u128 -> u64, pri: seq<Scalar>, nonces: seq<Scalar>, message: u128): (shares: seq<Share>)
    requires |pri| == |nonces|
    ensures |shares| == |pri|
    ensures forall i :: 0 <= i < |pri| ==> shares[i].r == nonces[i]
    ensures forall i :: 0 <= i < |pri| ==> Verifies(shares[i], PublicShares(pri)[i], Challenge(hash, message))
  {
    if |pri| == 0 then []
    else
      var n := |pri| - 1;
      SignAll(hash, pri[..n], nonces[..n], message) + [PreCompute(hash, pri[n], nonces[n], message)]
  }

  /** The sum of the public key shares is the public key of the sum of the
      private key shares. */
  lemma {:induction false} PublicSharesSum(pri: seq<Scalar>)
    ensures SumPoints(PublicShares(pri)) == PointMul(Generator, SumScalars(pri))
  {
    GeneratorMul(SumScalars(pri));
    if |pri| > 0 {
      var n := |pri| - 1;
      PublicSharesSum(pri[..n]);
      GeneratorMul(SumScalars(pri[..n]));
      assert PublicShares(pri)[..n] == PublicShares(pri[..n]);
    }
  }

  /** A session of any number of players: the aggregate passes `MyCircuit`
      against their public key shares, and it is an ordinary single
      signature, commitment `Σ r_i` and response `Σ s_i`, under the public key
      of the summed private key shares. */
  lemma Session(hash: u128 -> u64, pri: seq<Scalar>, nonces: seq<Scalar>, message: u128)
    requires |pri| == |nonces|
    ensures AggregateVerifies(SignAll(hash, pri, nonces, message), PublicShares(pri), Challenge(hash, message))
    ensures var shares := SignAll(hash, pri, nonces, message);
            Verifies(Share(SumCommitments(shares), SumResponses(shares)), PointMul(Generator, SumScalars(pri)), Challenge(hash, message))
  {
    AggregateOfValidShares(SignAll(hash, pri, nonces, message), PublicShares(pri), Challenge(hash, message));
    PublicSharesSum(pri);
  }

  /** `VerifyKey` for three players: the published group key equals
      `pub1 + pub2 + pub3`, which is `SumPoints` of the three shares. */
  lemma ThreeKeys(pubs: seq<Point>)
    requires |pubs| == 3
    ensures SumPoints(pubs) == PointAdd(PointAdd(pubs[0], pubs[1]), pubs[2])
  {
    var two := pubs[..2];
    var one := two[..1];
    assert one == [pubs[0]] && two[1] == pubs[1];
    assert SumPoints(one) == pubs[0] by {
      assert one[..0] == [];
      ModSmall(pubs[0], P);
    }
    assert SumPoints(two) == PointAdd(pubs[0], pubs[1]);
  }
}
