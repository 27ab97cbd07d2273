/** Dealer-less key generation of key_generate.rs.

    Every party deals sub-shares of its own secret `u` from the polynomial
    `p(y) = u + (y·rand) + (y·rand)^2 + … + (y·rand)^(min − 1)` evaluated at
    `y = 1, …, max` (`output_key_share`). All sub-share lists are laid end to
    end, and party `self_num` collects every entry whose 1-based position is
    congruent to `self_num` modulo the number of members (`collect`), which
    is the sum of the dealers' polynomials at `y = self_num`. The public key
    is then interpolated at zero from the parties' public points
    (`calculate`), with each difference of coefficients shifted by 1000 and
    back. */
module KeyGeneration {
  import opened Arith
  import opened Outcome
  import opened Field
  import opened Sums

  // ---------------------------------------------------------------------
  // Input::output_key_share
  // ---------------------------------------------------------------------

  /** `x + x^2 + … + x^d`. */
  function PowerSum(x: int, d: nat): int
  {
    if d == 0 then 0 else PowerSum(x, d - 1) + Pow(x, d)
  }

  /** The sub-share a dealer with secret `keyShare` hands out at position
      `i` (0-based): its polynomial at `y = i + 1`. */
  function SubShare(keyShare: nat, rand: nat, outputMin: nat, i: nat): int
    requires outputMin >= 1
  {
    keyShare + PowerSum((i + 1) * rand, outputMin - 1)
  }

  /** For `x ≥ 0` the power sums grow with the degree and each power is
      at most the sum it ends. */
  lemma {:induction false} PowerSumGrows(x: int, a: nat, b: nat)
    requires x >= 0 && 1 <= a <= b
    ensures 0 <= Pow(x, a) <= PowerSum(x, a) <= PowerSum(x, b)
    decreases b
  {
    PowNonneg(x, b);
    if a < b {
      PowerSumGrows(x, a, b - 1);
    } else {
      PowerSumNonneg(x, a - 1);
    }
  }

  lemma {:induction false} PowerSumNonneg(x: int, d: nat)
    requires x >= 0
    ensures PowerSum(x, d) >= 0
  {
    if d > 0 {
      PowerSumNonneg(x, d - 1);
      PowNonneg(x, d);
    }
  }

  /** The running entries of `output_key_share` after `i` rows: finished
      rows hold their sub-share, the others still the secret. */
  predicate DealtRows(shares: seq<u128>, keyShare: u128, rand: u128, outputMin: nat, i: nat)
    requires outputMin >= 1
  {
    (forall t :: 0 <= t < i && t < |shares| ==> shares[t] == SubShare(keyShare, rand, outputMin, t)) &&
    (forall t :: i < t < |shares| ==> shares[t] == keyShare)
  }

  /** Updating the current row keeps the others as they were. */
  lemma DealtRowsUpdate(shares: seq<u128>, keyShare: u128, rand: u128, outputMin: nat, i: nat, v: u128)
    requires outputMin >= 1 && i < |shares| && DealtRows(shares, keyShare, rand, outputMin, i)
    ensures DealtRows(shares[i := v], keyShare, rand, outputMin, i)
  {
  }

  /** A finished row moves the boundary on by one. */
  lemma DealtRowsNext(shares: seq<u128>, keyShare: u128, rand: u128, outputMin: nat, i: nat)
    requires outputMin >= 1 && i < |shares| && DealtRows(shares, keyShare, rand, outputMin, i)
    requires shares[i] == SubShare(keyShare, rand, outputMin, i)
    ensures DealtRows(shares, keyShare, rand, outputMin, i + 1)
    ensures i + 1 < |shares| ==> shares[i + 1] == keyShare
  {
  }

  /** `Input::output_key_share` (key_generate.rs:21-30): `output_max` copies
      of the secret, entry `i` then increased by `((i+1)·rand)^(j+1)` for
      every `j < output_min − 1`. The entries are the dealer's polynomial at
      `1, …, output_max`; with `output_min == 1` they all equal the secret.
      `output_min − 1` underflows for `output_min == 0` once a row is dealt
      (with `output_max == 0` nothing is computed), the u32 exponent
      `(j as u32) + 1` overflows at `j == 2^32 − 1`, which is reached once
      `output_min > 2^32`, and the u128 sums and powers must not overflow,
      which they do not exactly when the final entries fit (every term is
      non-negative). */
  method OutputKeyShare(keyShare: u128, rand: u128, outputMax: nat, outputMin: nat) returns (shares: seq<u128>)
    requires outputMax > 0 ==> 1 <= outputMin <= U32
    requires forall i :: 0 <= i < outputMax ==> SubShare(keyShare, rand, outputMin, i) < U128
    ensures |shares| == outputMax
    ensures forall i :: 0 <= i < outputMax ==> shares[i] == SubShare(keyShare, rand, outputMin, i)
  {
    shares := seq(outputMax, _ => keyShare);
    var i := 0;
    while i < outputMax
      invariant 0 <= i <= outputMax && |shares| == outputMax
      invariant i < outputMax ==> shares[i] == keyShare
      invariant outputMax > 0 ==> DealtRows(shares, keyShare, rand, outputMin, i)
    {
      var x := (i + 1) * rand;
      MulLe(0, 0, i + 1, rand);
      var full := SubShare(keyShare, rand, outputMin, i);
      assert full == keyShare + PowerSum(x, outputMin - 1) && full < U128;
      var j := 0;
      while j < outputMin - 1
        invariant 0 <= j <= outputMin - 1 && |shares| == outputMax
        invariant shares[i] == keyShare + PowerSum(x, j)
        invariant DealtRows(shares, keyShare, rand, outputMin, i)
      {
        var exponent: u32 := j + 1;
        PowerSumGrows(x, exponent, outputMin - 1);
        var v: u128 := shares[i] + Pow(x, exponent);
        DealtRowsUpdate(shares, keyShare, rand, outputMin, i, v);
        shares := shares[i := v];
        j := j + 1;
      }
      DealtRowsNext(shares, keyShare, rand, outputMin, i);
      i := i + 1;
    }
  }

  // ---------------------------------------------------------------------
  // CollectOutputKeyShare::collect
  // ---------------------------------------------------------------------

  /** The test `collect` applies at 1-based position `count`. The
      subtraction needs `count + member ≥ self_num` and the remainder a
      positive `member`, unless the first disjunct already holds. */
  predicate Picks(count: nat, member: nat, selfNum: nat)
    requires count == selfNum || (member > 0 && count + member >= selfNum)
  {
    count == selfNum || (count + member - selfNum) % member == 0
  }

  /** The test picks exactly the positions congruent to `self_num` modulo
      `member`; its `count == self_num` disjunct is redundant. */
  lemma PicksResidue(count: nat, member: nat, selfNum: nat)
    requires member > 0 && count + member >= selfNum
    ensures Picks(count, member, selfNum) <==> count % member == selfNum % member
    ensures (count + member - selfNum) % member == 0 <==> count % member == selfNum % member
  {
    var d: int := count - selfNum;
    ModMultiple(1, d, member);
    SubMod(count, selfNum, member);
    ResidueDifference(count % member, selfNum % member, member);
  }

  /** Two residues differ by a multiple of `m` only when they are equal. */
  lemma ResidueDifference(x: int, y: int, m: int)
    requires 0 <= x < m && 0 <= y < m
    ensures (x - y) % m == 0 <==> x == y
  {
    if x > y {
      ModSmall(x - y, m);
    } else if x < y {
      ModMultiple(1, x - y, m);
      ModSmall(m + (x - y), m);
    }
  }

  /** The entries of `s` whose 1-based position, counted from `start + 1`,
      is congruent to `self_num` modulo `member`, summed. */
  function StrideSum(s: seq<u128>, start: nat, member: nat, selfNum: nat): int
    requires member > 0
  {
    if |s| == 0 then 0
    else
      var picked := if (start + |s|) % member == selfNum % member then s[|s| - 1] else 0;
      StrideSum(s[..|s| - 1], start, member, selfNum) + picked
  }

  /** A stride sum over a prefix is at most the whole one. */
  lemma {:induction false} StridePrefixBelow(s: seq<u128>, start: nat, member: nat, selfNum: nat, t: nat)
    requires member > 0 && t <= |s|
    ensures 0 <= StrideSum(s[..t], start, member, selfNum) <= StrideSum(s, start, member, selfNum)
  {
    if t < |s| {
      var init := s[..|s| - 1];
      assert init[..t] == s[..t];
      StridePrefixBelow(init, start, member, selfNum, t);
    } else {
      assert s[..t] == s;
      StrideNonneg(s, start, member, selfNum);
    }
  }

  lemma {:induction false} StrideNonneg(s: seq<u128>, start: nat, member: nat, selfNum: nat)
    requires member > 0
    ensures StrideSum(s, start, member, selfNum) >= 0
  {
    if |s| > 0 {
      StrideNonneg(s[..|s| - 1], start, member, selfNum);
    }
  }

  /** `count + member` fits in a u128 at every 1-based position
      `count ≤ len` where `collect` forms it: everywhere but at `self_num`,
      where the `||` stops early. The largest such position is `len`, or
      `len − 1` when `len` is `self_num`. */
  predicate CountSumFits(len: nat, member: nat, selfNum: nat)
  {
    && (len != selfNum ==> len + member < U128)
    && (len == selfNum && len >= 2 ==> len - 1 + member < U128)
  }

  /** What `collect` returns: the collected share and its point `share·G`. */
  datatype KeyShare = KeyShare(share: u128, point: Point)

  /** `CollectOutputKeyShare::collect` (key_generate.rs:41-57): sums the
      entries at the positions congruent to `self_num` modulo `member`.
      `member` must be positive, `count + member − self_num` must neither
      overflow nor underflow, and the sum must fit in a u128. */
  method Collect(keyShare: seq<u128>, member: u128, selfNum: u128) returns (r: KeyShare)
    requires member > 0
    requires |keyShare| == 0 || selfNum <= member + 1
    requires CountSumFits(|keyShare|, member, selfNum)
    requires StrideSum(keyShare, 0, member, selfNum) < U128
    ensures r.share == StrideSum(keyShare, 0, member, selfNum)
    ensures r.point == r.share
  {
    var sum: u128 := 0;
    var count := 0;
    while count < |keyShare|
      invariant 0 <= count <= |keyShare|
      invariant sum == StrideSum(keyShare[..count], 0, member, selfNum)
    {
      var entry := keyShare[count];
      assert keyShare[..count + 1][..count] == keyShare[..count];
      StridePrefixBelow(keyShare, 0, member, selfNum, count + 1);
      count := count + 1;
      PicksResidue(count, member, selfNum);
      var picked := count == selfNum;
      if !picked {
        var reach: u128 := count + member;
        picked := (reach - selfNum) % member == 0;
      }
      if picked {
        sum := sum + entry;
      }
    }
    assert keyShare[..count] == keyShare;
    GeneratorMul(FromU128(sum));
    r := KeyShare(sum, PointMul(Generator, FromU128(sum)));
  }

  // ---------------------------------------------------------------------
  // Collecting from dealt blocks
  // ---------------------------------------------------------------------

  /** The dealers' sub-share lists laid end to end. */
  function Flatten(dealers: seq<seq<u128>>): seq<u128>
  {
    if |dealers| == 0 then [] else Flatten(dealers[..|dealers| - 1]) + dealers[|dealers| - 1]
  }

  /** Every dealer's list has `member` entries. */
  predicate Blocks(dealers: seq<seq<u128>>, member: nat)
  {
    forall d :: 0 <= d < |dealers| ==> |dealers[d]| == member
  }

  /** `Σ_d dealers[d][i]`. */
  function ColumnSum(dealers: seq<seq<u128>>, i: nat): int
    requires forall d :: 0 <= d < |dealers| ==> i < |dealers[d]|
  {
    if |dealers| == 0 then 0 else ColumnSum(dealers[..|dealers| - 1], i) + dealers[|dealers| - 1][i]
  }

  lemma {:induction false} FlattenLength(dealers: seq<seq<u128>>, member: nat)
    requires Blocks(dealers, member)
    ensures |Flatten(dealers)| == |dealers| * member
  {
    if |dealers| > 0 {
      FlattenLength(dealers[..|dealers| - 1], member);
      assert (|dealers| - 1) * member + member == |dealers| * member;
    }
  }

  /** Stride sums split at a concatenation. */
  lemma {:induction false} StrideConcat(a: seq<u128>, b: seq<u128>, start: nat, member: nat, selfNum: nat)
    requires member > 0
    ensures StrideSum(a + b, start, member, selfNum)
      == StrideSum(a, start, member, selfNum) + StrideSum(b, start + |a|, member, selfNum)
    decreases |b|
  {
    if |b| == 0 {
      assert a + b == a;
    } else {
      var b' := b[..|b| - 1];
      assert (a + b)[..|a + b| - 1] == a + b';
      StrideConcat(a, b', start, member, selfNum);
    }
  }

  /** Inside a block starting on a multiple of `m`, the 1-based offset `t`
      is congruent to `self_num` only at `t == self_num`. */
  lemma BlockPosition(start: nat, t: nat, m: nat, selfNum: nat)
    requires m > 0 && start % m == 0 && 1 <= t <= m && 1 <= selfNum <= m
    ensures (start + t) % m == selfNum % m <==> t == selfNum
  {
    AddMod(start, t, m);
    ModOfMod(t, m);
    ModMultiple(1, 0, m);
    if t < m {
      ModSmall(t, m);
    }
    if selfNum < m {
      ModSmall(selfNum, m);
    }
  }

  /** Within one block that starts on a multiple of `member`, the stride
      picks exactly entry `self_num − 1`. */
  lemma {:induction false} StrideBlockPrefix(b: seq<u128>, start: nat, member: nat, selfNum: nat, t: nat)
    requires |b| == member > 0 && start % member == 0 && 1 <= selfNum <= member && t <= member
    ensures StrideSum(b[..t], start, member, selfNum) == if selfNum <= t then b[selfNum - 1] else 0
  {
    if t > 0 {
      assert b[..t][..t - 1] == b[..t - 1];
      StrideBlockPrefix(b, start, member, selfNum, t - 1);
      BlockPosition(start, t, member, selfNum);
    }
  }

  /** Collecting from `member`-long dealer blocks gives each dealer's
      sub-share at position `self_num − 1`, summed over the dealers
      (key_generate.rs:147-173). */
  lemma {:induction false} CollectFromDealers(dealers: seq<seq<u128>>, member: nat, selfNum: nat)
    requires member > 0 && Blocks(dealers, member) && 1 <= selfNum <= member
    ensures StrideSum(Flatten(dealers), 0, member, selfNum) == ColumnSum(dealers, selfNum - 1)
  {
    if |dealers| > 0 {
      var init := dealers[..|dealers| - 1];
      var last := dealers[|dealers| - 1];
      CollectFromDealers(init, member, selfNum);
      FlattenLength(init, member);
      StrideConcat(Flatten(init), last, 0, member, selfNum);
      ModMultiple(|init|, 0, member);
      assert last[..member] == last;
      StrideBlockPrefix(last, |init| * member, member, selfNum, member);
    }
  }

  // ---------------------------------------------------------------------
  // CalculatePubKey::calculate
  // ---------------------------------------------------------------------

  /** The offset `calculate` shifts each difference of coefficients by. */
  const Offset: nat := 1000

  /** Party `num`'s Lagrange weight at zero applied to `ans` over the first
      `t` coefficients: every other coefficient `c` multiplies in
      `c · (c − c_num)⁻¹`, and a difference without inverse is an error. */
  function LagrangeFactor(coef: seq<u128>, num: nat, t: nat, ans: Scalar): Result<Scalar>
    requires t <= |coef| && (t == 0 || num < |coef|)
  {
    if t == 0 then Ok(ans)
    else
      var prev := LagrangeFactor(coef, num, t - 1, ans);
      if prev.Err? || t - 1 == num then prev
      else
        var c := FromU128(coef[t - 1]);
        match Invert(Sub(c, FromU128(coef[num])))
        case None => Err(NotInvertible)
        case Some(inv) => Ok(Mul(Mul(prev.value, c), inv))
  }

  /** The interpolation at zero over the first `d` parties:
      `Σ_{num<d} pub_key[num] · Π_{iter≠num} c_iter·(c_iter − c_num)⁻¹`. */
  function LagrangeSum(coef: seq<u128>, pubKey: seq<Point>, d: nat): Result<Point>
    requires d <= |pubKey| && (|coef| == 0 || d <= |coef|)
  {
    if d == 0 then Ok(Identity)
    else
      var prev := LagrangeSum(coef, pubKey, d - 1);
      if prev.Err? then prev
      else
        var term := LagrangeFactor(coef, d - 1, |coef|, pubKey[d - 1]);
        if term.Err? then Err(term.error) else Ok(PointAdd(prev.value, term.value))
  }

  /** The u128 arithmetic `1000 + c_iter − c_num` of `calculate` neither
      overflows nor underflows. */
  predicate OffsetSafe(coef: seq<u128>, degree: nat)
  {
    forall num, iter :: 0 <= num < degree && num < |coef| && 0 <= iter < |coef| && iter != num ==>
      coef[iter] + Offset < U128 && coef[num] <= Offset + coef[iter]
  }

  /** The offset cancels: `from(1000 + a − b) − from(1000)` is `a − b` in
      the field. */
  lemma OffsetCancels(a: u128, b: u128)
    requires a + Offset < U128 && b <= Offset + a
    ensures Sub(FromU128(Offset + a - b), FromU128(Offset)) == Sub(FromU128(a), FromU128(b))
  {
    assert (Offset + a - b) - Offset == a - b;
  }

  lemma {:induction false} FactorErrSticks(coef: seq<u128>, num: nat, t: nat, t': nat, ans: Scalar)
    requires t <= t' <= |coef| && num < |coef|
    requires LagrangeFactor(coef, num, t, ans).Err?
    ensures LagrangeFactor(coef, num, t', ans) == LagrangeFactor(coef, num, t, ans)
    decreases t'
  {
    if t < t' {
      FactorErrSticks(coef, num, t, t' - 1, ans);
    }
  }

  lemma {:induction false} SumErrSticks(coef: seq<u128>, pubKey: seq<Point>, d: nat, d': nat)
    requires d <= d' <= |pubKey| && (|coef| == 0 || d' <= |coef|)
    requires LagrangeSum(coef, pubKey, d).Err?
    ensures LagrangeSum(coef, pubKey, d') == LagrangeSum(coef, pubKey, d)
    decreases d'
  {
    if d < d' {
      SumErrSticks(coef, pubKey, d, d' - 1);
    }
  }

  /** `calculate` skips the party's own coefficient. */
  lemma FactorSkipSelf(coef: seq<u128>, num: nat, start: Scalar, ans: Scalar)
    requires num < |coef|
    requires LagrangeFactor(coef, num, num, start) == Ok(ans)
    ensures LagrangeFactor(coef, num, num + 1, start) == Ok(ans)
  {
  }

  /** The offset arithmetic is in range for the pair `(num, iter)`. */
  lemma OffsetAt(coef: seq<u128>, degree: nat, num: nat, iter: nat)
    requires OffsetSafe(coef, degree)
    requires num < degree && num < |coef| && iter < |coef| && iter != num
    ensures coef[iter] + Offset < U128 && coef[num] <= Offset + coef[iter]
  {
  }

  /** One coefficient of the inner loop, with the offset as the source
      computes it. */
  lemma FactorStep(coef: seq<u128>, num: nat, iter: nat, start: Scalar, ans: Scalar)
    requires num < |coef| && iter < |coef| && iter != num
    requires coef[iter] + Offset < U128 && coef[num] <= Offset + coef[iter]
    requires LagrangeFactor(coef, num, iter, start) == Ok(ans)
    ensures var dev3 := Sub(FromU128(Offset + coef[iter] - coef[num]), FromU128(Offset));
      var next := LagrangeFactor(coef, num, iter + 1, start);
      (Invert(dev3).None? ==> next == Err(NotInvertible)) &&
      (Invert(dev3).Some? ==> next == Ok(PointMul(PointMul(ans, FromU128(coef[iter])), Invert(dev3).value)))
  {
    OffsetCancels(coef[iter], coef[num]);
  }

  /** A failed inverse for party `num` fails the whole sum. */
  lemma FactorFailure(coef: seq<u128>, pubKey: seq<Point>, num: nat, degree: nat, result: Point)
    requires degree <= |pubKey| && (|coef| == 0 || degree <= |coef|)
    requires num < degree
    requires LagrangeSum(coef, pubKey, num) == Ok(result)
    requires LagrangeFactor(coef, num, |coef|, pubKey[num]).Err?
    ensures LagrangeSum(coef, pubKey, degree) == Err(NotInvertible)
  {
    SumFailStep(coef, pubKey, num, result);
    SumErrSticks(coef, pubKey, num + 1, degree);
  }

  lemma SumFailStep(coef: seq<u128>, pubKey: seq<Point>, num: nat, result: Point)
    requires num < |pubKey| && (|coef| == 0 || num < |coef|)
    requires LagrangeSum(coef, pubKey, num) == Ok(result)
    requires LagrangeFactor(coef, num, |coef|, pubKey[num]).Err?
    ensures LagrangeSum(coef, pubKey, num + 1) == Err(NotInvertible)
  {
    FactorErrors(coef, num, |coef|, pubKey[num]);
  }

  /** Party `num`'s completed term is added to the sum. */
  lemma SumStep(coef: seq<u128>, pubKey: seq<Point>, num: nat, result: Point, ans: Scalar)
    requires num < |pubKey| && (|coef| == 0 || num < |coef|)
    requires LagrangeSum(coef, pubKey, num) == Ok(result)
    requires LagrangeFactor(coef, num, |coef|, pubKey[num]) == Ok(ans)
    ensures LagrangeSum(coef, pubKey, num + 1) == Ok(PointAdd(result, ans))
  {
  }

  /** `CalculatePubKey::calculate` (key_generate.rs:67-93): for each of the
      first `degree` parties, its public point times every other
      coefficient `c` and the inverse of `(1000 + c − c_num) − 1000`, all
      added up. A missing inverse (`invert().unwrap()`) is an error; the
      public points must be there, and so must the coefficients unless
      there are none; the u128 offset arithmetic must stay in range. */
  method Calculate(degree: u128, coef: seq<u128>, pubKey: seq<Point>) returns (res: Result<Point>)
    requires degree <= |pubKey| && (|coef| == 0 || degree <= |coef|)
    requires OffsetSafe(coef, degree)
    ensures res == LagrangeSum(coef, pubKey, degree)
  {
    var num: nat := 0;
    var result := Identity;
    while num < degree
      invariant num <= degree
      invariant LagrangeSum(coef, pubKey, num) == Ok(result)
    {
      var term := PartyTerm(degree, coef, num, pubKey[num]);
      if term.Err? {
        FactorFailure(coef, pubKey, num, degree, result);
        return Err(NotInvertible);
      }
      SumStep(coef, pubKey, num, result, term.value);
      result := PointAdd(result, term.value);
      num := num + 1;
    }
    res := Ok(result);
  }

  /** The inner loop of `calculate` for party `num`: `ans` starts at the
      party's public point and is multiplied by every other coefficient and
      the inverse of the offset difference. */
  method PartyTerm(degree: u128, coef: seq<u128>, num: nat, start: Point) returns (res: Result<Scalar>)
    requires num < degree && (|coef| == 0 || degree <= |coef|)
    requires OffsetSafe(coef, degree)
    ensures res == LagrangeFactor(coef, num, |coef|, start)
  {
    var thousand := FromU128(Offset);
    var ans := start;
    var iter := 0;
    while iter < |coef|
      invariant iter <= |coef|
      invariant LagrangeFactor(coef, num, iter, start) == Ok(ans)
    {
      if iter == num {
        FactorSkipSelf(coef, num, start, ans);
      } else {
        OffsetAt(coef, degree, num, iter);
        var before := ans;
        var selfCoefficient := coef[num];
        var mutn := FromU128(coef[iter]);
        ans := PointMul(ans, mutn);
        var dev: u128 := Offset + coef[iter] - selfCoefficient;
        var dev3 := Sub(FromU128(dev), thousand);
        FactorStep(coef, num, iter, start, before);
        var dev4 := Invert(dev3);
        if dev4.None? {
          FactorErrSticks(coef, num, iter + 1, |coef|, start);
          return Err(NotInvertible);
        }
        ans := PointMul(ans, dev4.value);
      }
      iter := iter + 1;
    }
    res := Ok(ans);
  }

  /** Two equal coefficients make `invert().unwrap()` panic: their
      difference is zero (key_generate.rs:78-84). */
  lemma EqualCoefficientsFail(coef: seq<u128>, pubKey: seq<Point>, degree: nat, num: nat, iter: nat)
    requires degree <= |pubKey| && degree <= |coef|
    requires num < degree && iter < |coef| && iter != num && coef[iter] == coef[num]
    ensures LagrangeSum(coef, pubKey, degree) == Err(NotInvertible)
  {
    InvertZero();
    var f := LagrangeFactor(coef, num, iter + 1, pubKey[num]);
    assert f.Err? && f.error == NotInvertible by {
      if LagrangeFactor(coef, num, iter, pubKey[num]).Err? {
        FactorErrors(coef, num, iter, pubKey[num]);
      }
    }
    FactorErrSticks(coef, num, iter + 1, |coef|, pubKey[num]);
    PrefixErrors(coef, pubKey, num);
    if LagrangeSum(coef, pubKey, num).Err? {
      SumErrSticks(coef, pubKey, num, degree);
    } else {
      SumErrSticks(coef, pubKey, num + 1, degree);
    }
  }

  /** The only error is `NotInvertible`. */
  lemma {:induction false} FactorErrors(coef: seq<u128>, num: nat, t: nat, ans: Scalar)
    requires t <= |coef| && (t == 0 || num < |coef|)
    ensures LagrangeFactor(coef, num, t, ans).Err? ==> LagrangeFactor(coef, num, t, ans).error == NotInvertible
  {
    if t > 0 {
      FactorErrors(coef, num, t - 1, ans);
    }
  }

  lemma {:induction false} PrefixErrors(coef: seq<u128>, pubKey: seq<Point>, d: nat)
    requires d <= |pubKey| && (|coef| == 0 || d <= |coef|)
    ensures LagrangeSum(coef, pubKey, d).Err? ==> LagrangeSum(coef, pubKey, d).error == NotInvertible
  {
    if d > 0 {
      PrefixErrors(coef, pubKey, d - 1);
      FactorErrors(coef, d - 1, |coef|, pubKey[d - 1]);
    }
  }

  // ---------------------------------------------------------------------
  // Interpolation at zero from the points 1, 2, 3
  // ---------------------------------------------------------------------

  /** `(P + 1) / 2`, the inverse of 2. */
  const Half: nat := 0x2000000000000000000000000000000011234c7e04ca546ec623759080000001

  lemma HalfDoubled()
    ensures 2 * Half == P + 1
  {
  }

  // Ring identities behind the inverses and weights, stated for any `p`
  // so that the solver does not multiply out the 255-bit constants.

  lemma MinusOneSquared(p: int)
    ensures (p - 1) * (p - 1) == (p - 2) * p + 1
  {
  }

  lemma MinusTwoInverse(p: int, h: int)
    requires 2 * h == p + 1
    ensures (p - 2) * (p - h) == (p - h - 1) * p + 1
  {
  }

  lemma WeightOneIdentity(p: int, h: int, a: int, x: int)
    requires p > 0 && 2 * h == p + 1 && x == (a * 2 * 1 * 3) % p
    ensures (x * h) % p == (3 * a) % p
  {
    MulModLeft(a * 6, h, p);
    assert a * 6 * h == 3 * a * (2 * h);
    assert a * 6 * h == (3 * a) * p + 3 * a;
    ModMultiple(3 * a, 3 * a, p);
  }

  lemma WeightTwoIdentity(p: int, a: int, x: int)
    requires p > 0 && x == (a * 1 * (p - 1) * 3) % p
    ensures (x * 1) % p == ((p - 3) * a) % p
  {
    ModOfMod(a * (p - 1) * 3, p);
    assert a * 1 * (p - 1) * 3 == (2 * a) * p + (p - 3) * a;
    ModMultiple(2 * a, (p - 3) * a, p);
  }

  lemma WeightThreeIdentity(p: int, h: int, a: int, x: int)
    requires p > 0 && 2 * h == p + 1 && 0 <= a < p && x == (a * 1 * (p - h) * 2) % p
    ensures (x * (p - 1)) % p == a
  {
    MulModLeft(a * 1 * (p - h) * 2, p - 1, p);
    assert (p - h) * 2 == p - 1;
    assert a * 1 * (p - h) * 2 * (p - 1) == a * ((p - 1) * (p - 1));
    MinusOneSquared(p);
    assert a * ((p - 1) * (p - 1)) == (a * (p - 2)) * p + a;
    ModMultiple(a * (p - 2), a, p);
    ModSmall(a, p);
  }

  /** The inverses the coefficients `[1, 2, 3]` call for: of 1, of 2, of
      `−1` and of `−2`. */
  lemma SmallInverses()
    ensures Invert(1) == Some(1)
    ensures Invert(2) == Some(Half)
    ensures Invert(P - 1) == Some(P - 1)
    ensures Invert(P - 2) == Some(P - Half)
  {
    HalfDoubled();
    InvertUnique(1, 1);
    ModMultiple(1, 1, P);
    InvertUnique(2, Half);
    MinusOneSquared(P);
    ModMultiple(P - 2, 1, P);
    InvertUnique(P - 1, P - 1);
    MinusTwoInverse(P, Half);
    ModMultiple(P - Half - 1, 1, P);
    InvertUnique(P - 2, P - Half);
  }

  /** Reducing as you go: `((a·b mod P)·c mod P)·d mod P` is `a·b·c·d mod P`. */
  lemma MulChain(a: int, b: int, c: int, d: int, p: int)
    requires p > 0
    ensures (((((a * b) % p) * c) % p) * d) % p == (a * b * c * d) % p
  {
    MulModLeft(a * b, c, p);
    MulModLeft((a * b) * c, d, p);
    MulModLeft(((a * b) % p) * c, d, p);
  }

  /** Differences of small coefficients in the field. */
  lemma SmallDifferences()
    ensures Sub(2, 1) == 1 && Sub(3, 1) == 2 && Sub(3, 2) == 1
    ensures Sub(1, 2) == P - 1 && Sub(1, 3) == P - 2 && Sub(2, 3) == P - 1
  {
    ModSmall(1, P);
    ModSmall(2, P);
    ModMultiple(-1, P - 1, P);
    ModSmall(P - 1, P);
    ModMultiple(-1, P - 2, P);
    ModSmall(P - 2, P);
  }

  /** One step of `LagrangeFactor` past another party's coefficient. */
  lemma FactorNext(coef: seq<u128>, num: nat, t: nat, ans: Scalar, v: Scalar, inv: Scalar)
    requires num < |coef| && t < |coef| && t != num
    requires LagrangeFactor(coef, num, t, ans) == Ok(v)
    requires Invert(Sub(FromU128(coef[t]), FromU128(coef[num]))) == Some(inv)
    ensures LagrangeFactor(coef, num, t + 1, ans) == Ok(Mul(Mul(v, coef[t]), inv))
  {
  }

  /** `LagrangeFactor` skips the party's own coefficient. */
  lemma FactorSkip(coef: seq<u128>, num: nat, ans: Scalar, v: Scalar)
    requires num < |coef| && LagrangeFactor(coef, num, num, ans) == Ok(v)
    ensures LagrangeFactor(coef, num, num + 1, ans) == Ok(v)
  {
  }

  /** The weight of the party at 1 is `2·3 / ((2 − 1)·(3 − 1)) = 3`. */
  lemma WeightAtOne(a: Scalar)
    ensures LagrangeFactor([1, 2, 3], 0, 3, a) == Ok(Mul(3, a))
  {
    var coef: seq<u128> := [1, 2, 3];
    var y := Mul(Mul(a, 2), 1);
    var x := Mul(y, 3);
    assert LagrangeFactor(coef, 0, 2, a) == Ok(y) by {
      SmallInverses();
      SmallDifferences();
      assert LagrangeFactor(coef, 0, 0, a) == Ok(a);
      FactorSkip(coef, 0, a, a);
      FactorNext(coef, 0, 1, a, a, 1);
    }
    assert LagrangeFactor(coef, 0, 3, a) == Ok(Mul(x, Half)) by {
      SmallInverses();
      SmallDifferences();
      FactorNext(coef, 0, 2, a, y, Half);
    }
    assert Mul(x, Half) == Mul(3, a) by {
      MulChain(a, 2, 1, 3, P);
      HalfDoubled();
      WeightOneIdentity(P, Half, a, x);
    }
  }

  /** The weight of the party at 2 is `1·3 / ((1 − 2)·(3 − 2)) = −3`. */
  lemma WeightAtTwo(a: Scalar)
    ensures LagrangeFactor([1, 2, 3], 1, 3, a) == Ok(Mul(P - 3, a))
  {
    var coef: seq<u128> := [1, 2, 3];
    var y := Mul(Mul(a, 1), P - 1);
    var x := Mul(y, 3);
    assert LagrangeFactor(coef, 1, 2, a) == Ok(y) by {
      SmallInverses();
      SmallDifferences();
      assert LagrangeFactor(coef, 1, 0, a) == Ok(a);
      FactorNext(coef, 1, 0, a, a, P - 1);
      FactorSkip(coef, 1, a, y);
    }
    assert LagrangeFactor(coef, 1, 3, a) == Ok(Mul(x, 1)) by {
      SmallInverses();
      SmallDifferences();
      FactorNext(coef, 1, 2, a, y, 1);
    }
    assert Mul(x, 1) == Mul(P - 3, a) by {
      MulChain(a, 1, P - 1, 3, P);
      WeightTwoIdentity(P, a, x);
    }
  }

  /** The weight of the party at 3 is `1·2 / ((1 − 3)·(2 − 3)) = 1`. */
  lemma WeightAtThree(a: Scalar)
    ensures LagrangeFactor([1, 2, 3], 2, 3, a) == Ok(a)
  {
    var y := Mul(Mul(a, 1), P - Half);
    var x := Mul(y, 2);
    WeightAtThreeFirst(a, y);
    WeightAtThreeRest(a, y, Mul(x, P - 1));
    WeightThreeValue(a, x);
  }

  lemma WeightAtThreeFirst(a: Scalar, y: Scalar)
    requires y == Mul(Mul(a, 1), P - Half)
    ensures LagrangeFactor([1, 2, 3], 2, 1, a) == Ok(y)
  {
    var coef: seq<u128> := [1, 2, 3];
    SmallInverses();
    SmallDifferences();
    assert LagrangeFactor(coef, 2, 0, a) == Ok(a);
    FactorNext(coef, 2, 0, a, a, P - Half);
  }

  lemma WeightAtThreeRest(a: Scalar, y: Scalar, v: Scalar)
    requires LagrangeFactor([1, 2, 3], 2, 1, a) == Ok(y)
    requires v == Mul(Mul(y, 2), P - 1)
    ensures LagrangeFactor([1, 2, 3], 2, 3, a) == Ok(v)
  {
    var coef: seq<u128> := [1, 2, 3];
    SmallInverses();
    SmallDifferences();
    FactorNext(coef, 2, 1, a, y, P - 1);
    FactorSkip(coef, 2, a, v);
  }

  lemma WeightThreeValue(a: Scalar, x: Scalar)
    requires x == Mul(Mul(Mul(a, 1), P - Half), 2)
    ensures Mul(x, P - 1) == a
  {
    MulChain(a, 1, P - Half, 2, P);
    HalfDoubled();
    WeightThreeIdentity(P, Half, a, x);
  }

  /** With coefficients `[1, 2, 3]`, `calculate` returns
      `3·pk_1 − 3·pk_2 + pk_3`, the value at zero of the quadratic through
      the three points. */
  lemma InterpolateOneTwoThree(pubKey: seq<Point>)
    requires |pubKey| == 3
    ensures LagrangeSum([1, 2, 3], pubKey, 3) == Ok(Add(Add(Mul(3, pubKey[0]), Mul(P - 3, pubKey[1])), pubKey[2]))
  {
    var w0, w1, w2 := Mul(3, pubKey[0]), Mul(P - 3, pubKey[1]), pubKey[2];
    WeightAtOne(pubKey[0]);
    WeightAtTwo(pubKey[1]);
    WeightAtThree(pubKey[2]);
    SumOfWeights(pubKey, w0, w1, w2);
    assert Add(Identity, w0) == w0 by {
      ModSmall(w0, P);
    }
  }

  /** `calculate` over three parties adds the three weighted keys. */
  lemma SumOfWeights(pubKey: seq<Point>, w0: Scalar, w1: Scalar, w2: Scalar)
    requires |pubKey| == 3
    requires LagrangeFactor([1, 2, 3], 0, 3, pubKey[0]) == Ok(w0)
    requires LagrangeFactor([1, 2, 3], 1, 3, pubKey[1]) == Ok(w1)
    requires LagrangeFactor([1, 2, 3], 2, 3, pubKey[2]) == Ok(w2)
    ensures LagrangeSum([1, 2, 3], pubKey, 3) == Ok(Add(Add(Add(Identity, w0), w1), w2))
  {
    var coef: seq<u128> := [1, 2, 3];
    assert LagrangeSum(coef, pubKey, 0) == Ok(Identity);
    assert LagrangeSum(coef, pubKey, 1) == Ok(Add(Identity, w0));
    assert LagrangeSum(coef, pubKey, 2) == Ok(Add(Add(Identity, w0), w1));
  }

  // ---------------------------------------------------------------------
  // The key-generation round trip: dealing, collecting and interpolating
  // ---------------------------------------------------------------------

  /** The sum of the dealers' secrets, the private key the protocol shares. */
  function KeyTotal(keyShares: seq<u128>): int
  {
    if |keyShares| == 0 then 0 else KeyTotal(keyShares[..|keyShares| - 1]) + keyShares[|keyShares| - 1]
  }

  /** Dealer `d` handed out the `member` sub-shares of a degree-2 polynomial
      with constant term `keyShares[d]` and coefficient `rands[d]`, as
      `output_key_share` does with `output_min = 3`. */
  predicate Dealt(dealers: seq<seq<u128>>, keyShares: seq<u128>, rands: seq<u128>, member: nat)
  {
    |dealers| == |keyShares| == |rands| && member >= 3 && Blocks(dealers, member) &&
    forall d, i :: 0 <= d < |dealers| && 0 <= i < member ==>
      dealers[d][i] == SubShare(keyShares[d], rands[d], 3, i)
  }

  /** The weights `3, −3, 1` cancel the random part of one dealer's
      polynomial `u + x + x²` at `x = r, 2r, 3r`. */
  lemma DealerCancels(u: nat, r: nat)
    ensures 3 * SubShare(u, r, 3, 0) - 3 * SubShare(u, r, 3, 1) + SubShare(u, r, 3, 2) == u
  {
    forall x: int ensures PowerSum(x, 2) == x + x * x {
      assert Pow(x, 1) == x;
      assert PowerSum(x, 1) == x;
      assert Pow(x, 2) == x * x;
    }
    assert SubShare(u, r, 3, 0) == u + r + r * r;
    assert SubShare(u, r, 3, 1) == u + 2 * r + (2 * r) * (2 * r);
    assert SubShare(u, r, 3, 2) == u + 3 * r + (3 * r) * (3 * r);
  }

  /** Summed over the dealers, the same weights recover the private key. */
  lemma {:induction false} ColumnsCancel(dealers: seq<seq<u128>>, keyShares: seq<u128>, rands: seq<u128>, member: nat)
    requires Dealt(dealers, keyShares, rands, member)
    ensures 3 * ColumnSum(dealers, 0) - 3 * ColumnSum(dealers, 1) + ColumnSum(dealers, 2) == KeyTotal(keyShares)
  {
    var n := |dealers|;
    if n > 0 {
      var init, initKeys, initRands := dealers[..n - 1], keyShares[..n - 1], rands[..n - 1];
      assert Dealt(init, initKeys, initRands, member) by {
        forall d, i | 0 <= d < |init| && 0 <= i < member
          ensures init[d][i] == SubShare(initKeys[d], initRands[d], 3, i)
        {
          assert init[d] == dealers[d];
        }
      }
      ColumnsCancel(init, initKeys, initRands, member);
      DealerCancels(keyShares[n - 1], rands[n - 1]);
      assert dealers[n - 1][0] == SubShare(keyShares[n - 1], rands[n - 1], 3, 0);
      assert dealers[n - 1][1] == SubShare(keyShares[n - 1], rands[n - 1], 3, 1);
      assert dealers[n - 1][2] == SubShare(keyShares[n - 1], rands[n - 1], 3, 2);
    }
  }

  /** Reducing `3·c0 + (p − 3)·c1 + c2` modulo `p` gives `3·c0 − 3·c1 + c2`
      modulo `p`. */
  lemma CombineColumns(p: int, c0: int, c1: int, c2: int, m0: int, m1: int, t: int)
    requires p > 0 && 0 <= c2 < p
    requires m0 == (3 * c0) % p && m1 == ((p - 3) * c1) % p
    requires t == 3 * c0 - 3 * c1 + c2
    ensures ((m0 + m1) % p + c2) % p == t % p
  {
    var a, b := 3 * c0, (p - 3) * c1;
    AddMod(a, b, p);
    AddModLeft(a + b, c2, p);
    NegativeMultiple(p, c1, a + c2, t);
  }

  /** Adding `(p − 3)·c` is subtracting `3·c` modulo `p`. */
  lemma NegativeMultiple(p: int, c: int, x: int, t: int)
    requires p > 0 && t == x - 3 * c
    ensures ((p - 3) * c + x) % p == t % p
  {
    assert (p - 3) * c + x == c * p + t;
    ModMultiple(c, t, p);
  }

  /** Five-party key generation end to end (key_generate.rs:131-187): every
      dealer deals a degree-2 polynomial, parties 1, 2 and 3 collect their
      column, and `calculate` over coefficients `[1, 2, 3]` yields the
      public key of the summed secrets. */
  lemma ReconstructPublicKey(dealers: seq<seq<u128>>, keyShares: seq<u128>, rands: seq<u128>, member: nat, pubKey: seq<Point>)
    requires Dealt(dealers, keyShares, rands, member)
    requires |pubKey| == 3
    requires forall j :: 0 <= j < 3 ==> pubKey[j] == StrideSum(Flatten(dealers), 0, member, j + 1)
    ensures LagrangeSum([1, 2, 3], pubKey, 3) == Ok(PointMul(Generator, KeyTotal(keyShares) % P))
  {
    var c0: int, c1: int, c2: int := pubKey[0], pubKey[1], pubKey[2];
    assert 3 * c0 - 3 * c1 + c2 == KeyTotal(keyShares) by {
      CollectFromDealers(dealers, member, 1);
      CollectFromDealers(dealers, member, 2);
      CollectFromDealers(dealers, member, 3);
      ColumnsCancel(dealers, keyShares, rands, member);
    }
    var key: Scalar := KeyTotal(keyShares) % P;
    assert Add(Add(Mul(3, pubKey[0]), Mul(P - 3, pubKey[1])), pubKey[2]) == key by {
      CombineColumns(P, c0, c1, c2, Mul(3, pubKey[0]), Mul(P - 3, pubKey[1]), KeyTotal(keyShares));
    }
    InterpolateOneTwoThree(pubKey);
    GeneratorMul(key);
  }
}
