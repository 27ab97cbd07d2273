/** Integer helpers shared by the whole model: the fixed-width bounds of the
    Rust integer types, integer powers, and the facts about `%` that the
    proofs of the cryptographic code rely on. */
module Arith {

  /** 2^32: the first value that does not fit in a u32. */
  const U32: nat := 0x1_0000_0000
  /** 2^64: the first value that does not fit in a u64. */
  const U64: nat := 0x1_0000_0000_0000_0000
  /** 2^128: the first value that does not fit in a u128. */
  const U128: nat := 0x1_0000_0000_0000_0000_0000_0000_0000_0000

  /** Rust's `u128`. */
  type u128 = x: nat | x < U128

  /** Rust's `u32`. */
  type u32 = x: nat | x < U32

  /** Rust's `u64`. */
  type u64 = x: nat | x < U64

  /** Mathematical power `b^e`. */
  function Pow(b: int, e: nat): int
    decreases e
  {
    if e == 0 then 1 else b * Pow(b, e - 1)
  }

  lemma MulAtLeast(x: int, m: int)
    requires x >= 1 && m > 0
    ensures x * m >= m
  {
    assert x * m == m + (x - 1) * m;
  }

  lemma MulStrict(a: int, b: int, c: int, d: int)
    requires 0 <= a < c && 0 <= b < d
    ensures a * b < c * d
  {
    assert a * b <= a * d;
    assert a * d < c * d;
  }

  lemma MulLe(a: int, b: int, c: int, d: int)
    requires 0 <= a <= c && 0 <= b <= d
    ensures a * b <= c * d
  {
    assert a * b <= a * d;
    assert a * d <= c * d;
  }

  /** The product of two u64 values fits in a u128. */
  lemma ProductFits(a: int, b: int)
    requires 0 <= a < U64 && 0 <= b < U64
    ensures 0 <= a * b < U128
  {
    MulStrict(a, b, U64, U64);
    assert U64 * U64 == U128;
  }

  /** Euclidean division is unique. */
  lemma ModUnique(y: int, q: int, r: int, m: int)
    requires m > 0 && 0 <= r < m && y == q * m + r
    ensures y % m == r && y / m == q
  {
    var q0, r0 := y / m, y % m;
    assert q0 * m + r0 == y;
    assert (q - q0) * m == r0 - r;
    if q > q0 {
      MulAtLeast(q - q0, m);
    } else if q < q0 {
      MulAtLeast(q0 - q, m);
    }
  }

  lemma ModMultiple(k: int, y: int, m: int)
    requires m > 0
    ensures (k * m + y) % m == y % m
  {
    var q, r := y / m, y % m;
    assert y == q * m + r;
    assert k * m + y == (k + q) * m + r;
    ModUnique(k * m + y, k + q, r, m);
  }

  lemma ModSmall(y: int, m: int)
    requires 0 <= y < m
    ensures y % m == y
  {
    ModUnique(y, 0, y, m);
  }

  lemma ModOfMod(a: int, m: int)
    requires m > 0
    ensures (a % m) % m == a % m
  {
    ModSmall(a % m, m);
  }

  lemma AddMod(a: int, b: int, m: int)
    requires m > 0
    ensures (a + b) % m == ((a % m) + (b % m)) % m
  {
    var qa, qb := a / m, b / m;
    assert a + b == (qa + qb) * m + ((a % m) + (b % m));
    ModMultiple(qa + qb, (a % m) + (b % m), m);
  }

  lemma SubMod(a: int, b: int, m: int)
    requires m > 0
    ensures (a - b) % m == ((a % m) - (b % m)) % m
  {
    var qa, qb := a / m, b / m;
    assert a - b == (qa - qb) * m + ((a % m) - (b % m));
    ModMultiple(qa - qb, (a % m) - (b % m), m);
  }

  lemma MulMod(a: int, b: int, m: int)
    requires m > 0
    ensures (a * b) % m == ((a % m) * (b % m)) % m
  {
    var qa, ra, qb, rb := a / m, a % m, b / m, b % m;
    assert a == qa * m + ra;
    assert b == qb * m + rb;
    assert a * b == (qa * qb * m + qa * rb + ra * qb) * m + ra * rb;
    ModMultiple(qa * qb * m + qa * rb + ra * qb, ra * rb, m);
  }

  /** Reducing one factor first does not change the residue of a product. */
  lemma MulModLeft(a: int, b: int, m: int)
    requires m > 0
    ensures ((a % m) * b) % m == (a * b) % m
  {
    MulMod(a, b, m);
    MulMod(a % m, b, m);
    ModOfMod(a, m);
  }

  lemma MulModRight(a: int, b: int, m: int)
    requires m > 0
    ensures (a * (b % m)) % m == (a * b) % m
  {
    MulModLeft(b, a, m);
  }

  lemma AddModLeft(a: int, b: int, m: int)
    requires m > 0
    ensures ((a % m) + b) % m == (a + b) % m
  {
    AddMod(a, b, m);
    AddMod(a % m, b, m);
    ModOfMod(a, m);
  }

  lemma SubModLeft(a: int, b: int, m: int)
    requires m > 0
    ensures ((a % m) - b) % m == (a - b) % m
  {
    SubMod(a, b, m);
    SubMod(a % m, b, m);
    ModOfMod(a, m);
  }

  lemma SubModRight(a: int, b: int, m: int)
    requires m > 0
    ensures (a - (b % m)) % m == (a - b) % m
  {
    SubMod(a, b, m);
    SubMod(a, b % m, m);
    ModOfMod(b, m);
  }

  lemma {:induction false} PowNonneg(b: int, e: nat)
    requires b >= 0
    ensures Pow(b, e) >= 0
    ensures b > 0 ==> Pow(b, e) > 0
  {
    if e > 0 {
      PowNonneg(b, e - 1);
    }
  }

  lemma {:induction false} PowOfOne(e: nat)
    ensures Pow(1, e) == 1
  {
    if e > 0 {
      PowOfOne(e - 1);
    }
  }

  lemma {:induction false} PowAdd(b: int, e1: nat, e2: nat)
    ensures Pow(b, e1 + e2) == Pow(b, e1) * Pow(b, e2)
    decreases e1
  {
    if e1 > 0 {
      PowAdd(b, e1 - 1, e2);
    }
  }

  lemma {:induction false} PowMulBase(a: int, b: int, e: nat)
    ensures Pow(a * b, e) == Pow(a, e) * Pow(b, e)
  {
    if e > 0 {
      PowMulBase(a, b, e - 1);
    }
  }

  lemma {:induction false} PowPow(b: int, e1: nat, e2: nat)
    ensures Pow(Pow(b, e1), e2) == Pow(b, e1 * e2)
    decreases e2
  {
    if e2 > 0 {
      PowPow(b, e1, e2 - 1);
      assert e1 * e2 == e1 * (e2 - 1) + e1;
      PowAdd(b, e1 * (e2 - 1), e1);
    }
  }

  /** Reducing the base does not change the residue of a power. */
  lemma {:induction false} PowMod(b: int, e: nat, m: int)
    requires m > 0
    ensures Pow(b % m, e) % m == Pow(b, e) % m
  {
    if e > 0 {
      PowMod(b, e - 1, m);
      calc {
        Pow(b % m, e) % m;
        ((b % m) * Pow(b % m, e - 1)) % m;
        { MulModRight(b % m, Pow(b % m, e - 1), m); }
        ((b % m) * (Pow(b % m, e - 1) % m)) % m;
        ((b % m) * (Pow(b, e - 1) % m)) % m;
        { MulModRight(b % m, Pow(b, e - 1), m); }
        ((b % m) * Pow(b, e - 1)) % m;
        { MulModLeft(b, Pow(b, e - 1), m); }
        Pow(b, e) % m;
      }
    }
  }

  /** A power of a value that is 1 modulo m is 1 modulo m. */
  lemma PowOfUnit(b: int, e: nat, m: int)
    requires m > 1 && b % m == 1
    ensures Pow(b, e) % m == 1
  {
    PowMod(b, e, m);
    PowOfOne(e);
    ModSmall(1, m);
  }

  lemma PowZeroBase(e: nat)
    requires e >= 1
    ensures Pow(0, e) == 0
  {
  }
}
