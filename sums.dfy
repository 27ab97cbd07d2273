/** Finite sums `Σ_{t < T} g(t)` and the rearrangements the signature-share
    identities need: pointwise rewriting, linearity, congruence modulo `m`,
    exchanging a double sum, a sum with a single nonzero term, and cutting a
    range of `n·m` indices into `n` blocks of `m`. */
module Sums {
  import opened Arith

  /** `g(0) + g(1) + ... + g(T - 1)`. */
  function SumTo(T: nat, g: nat -> int): int
  {
    if T == 0 then 0 else SumTo(T - 1, g) + g(T - 1)
  }

  /** The entries of a sequence as a function of the index (0 past the end). */
  function Entry(s: seq<int>): nat -> int
  {
    (t: nat) => if t < |s| then s[t] else 0
  }

  lemma {:induction false} SumEq(T: nat, f: nat -> int, g: nat -> int)
    requires forall t: nat :: t < T ==> f(t) == g(t)
    ensures SumTo(T, f) == SumTo(T, g)
  {
    if T > 0 {
      SumEq(T - 1, f, g);
    }
  }

  lemma {:induction false} SumAdd(T: nat, f: nat -> int, g: nat -> int, h: nat -> int)
    requires forall t: nat :: t < T ==> h(t) == f(t) + g(t)
    ensures SumTo(T, h) == SumTo(T, f) + SumTo(T, g)
  {
    if T > 0 {
      SumAdd(T - 1, f, g, h);
    }
  }

  lemma {:induction false} SumSub(T: nat, f: nat -> int, g: nat -> int, h: nat -> int)
    requires forall t: nat :: t < T ==> h(t) == f(t) - g(t)
    ensures SumTo(T, h) == SumTo(T, f) - SumTo(T, g)
  {
    if T > 0 {
      SumSub(T - 1, f, g, h);
    }
  }

  lemma {:induction false} SumScale(T: nat, c: int, f: nat -> int, h: nat -> int)
    requires forall t: nat :: t < T ==> h(t) == c * f(t)
    ensures SumTo(T, h) == c * SumTo(T, f)
  {
    if T > 0 {
      SumScale(T - 1, c, f, h);
      assert c * SumTo(T, f) == c * SumTo(T - 1, f) + c * f(T - 1);
    }
  }

  /** Terms congruent modulo `m` give sums congruent modulo `m`. */
  lemma {:induction false} SumCongruent(T: nat, f: nat -> int, g: nat -> int, m: int)
    requires m > 0
    requires forall t: nat :: t < T ==> f(t) % m == g(t) % m
    ensures SumTo(T, f) % m == SumTo(T, g) % m
  {
    if T > 0 {
      SumCongruent(T - 1, f, g, m);
      AddMod(SumTo(T - 1, f), f(T - 1), m);
      AddMod(SumTo(T - 1, g), g(T - 1), m);
    }
  }

  /** A sum over `t < T` of terms that vanish except at `t == c`. */
  lemma {:induction false} SumSingle(T: nat, c: nat, x: int, g: nat -> int)
    requires c < T
    requires forall t: nat :: t < T ==> g(t) == (if t == c then x else 0)
    ensures SumTo(T, g) == x
  {
    if T - 1 == c {
      SumZero(T - 1, g);
    } else {
      SumSingle(T - 1, c, x, g);
    }
  }

  lemma {:induction false} SumZero(T: nat, g: nat -> int)
    requires forall t: nat :: t < T ==> g(t) == 0
    ensures SumTo(T, g) == 0
  {
    if T > 0 {
      SumZero(T - 1, g);
    }
  }

  lemma {:induction false} SumNonneg(T: nat, g: nat -> int)
    requires forall t: nat :: t < T ==> g(t) >= 0
    ensures SumTo(T, g) >= 0
  {
    if T > 0 {
      SumNonneg(T - 1, g);
    }
  }

  /** Row `i` of a table `h`: `t ↦ h(i, t)`. */
  function Row(h: (nat, nat) -> int, i: nat): nat -> int
  {
    (t: nat) => h(i, t)
  }

  /** Column `t` of a table `h`: `i ↦ h(i, t)`. */
  function Column(h: (nat, nat) -> int, t: nat): nat -> int
  {
    (i: nat) => h(i, t)
  }

  /** Exchanging the two sums of `Σ_{i<n} Σ_{t<T} h(i, t)`. */
  lemma {:induction false} SumSwap(n: nat, T: nat, h: (nat, nat) -> int)
    ensures SumTo(n, (i: nat) => SumTo(T, Row(h, i))) == SumTo(T, (t: nat) => SumTo(n, Column(h, t)))
  {
    if T > 0 {
      var T' := T - 1;
      SumSwap(n, T', h);
      forall i: nat | i < n
        ensures SumTo(T, Row(h, i)) == SumTo(T', Row(h, i)) + Column(h, T')(i)
      {
      }
      SumAdd(n, (i: nat) => SumTo(T', Row(h, i)), Column(h, T'), (i: nat) => SumTo(T, Row(h, i)));
    } else {
      SumZero(n, (i: nat) => SumTo(T, Row(h, i)));
    }
  }

  /** `Σ_{t < a+b} g(t) == Σ_{t<a} g(t) + Σ_{t<b} g(a + t)`. */
  lemma {:induction false} SumShift(a: nat, b: nat, g: nat -> int)
    ensures SumTo(a + b, g) == SumTo(a, g) + SumTo(b, (t: nat) => g(a + t))
  {
    if b > 0 {
      SumShift(a, b - 1, g);
    }
  }

  /** Block `r` of length `m`: `p ↦ g(r·m + p)`. */
  function Block(g: nat -> int, r: nat, m: nat): nat -> int
  {
    (p: nat) => g(r * m + p)
  }

  /** A range of `n·m` indices is `n` consecutive blocks of `m`. */
  lemma {:induction false} SumBlocks(n: nat, m: nat, g: nat -> int)
    ensures SumTo(n * m, g) == SumTo(n, (r: nat) => SumTo(m, Block(g, r, m)))
  {
    if n > 0 {
      SumBlocks(n - 1, m, g);
      assert n * m == (n - 1) * m + m;
      SumShift((n - 1) * m, m, g);
      SumEq(m, (t: nat) => g((n - 1) * m + t), Block(g, n - 1, m));
    }
  }
}
