/**
 The state of the PCG32 generator: a linear congruential generator modulo 2^64 whose multiplier is
 1 modulo 4 and whose increment is odd. From any state it reaches every state.
 */
module PcgGenerator {
  const MULTIPLIER: int := 6364136223846793005
  const INCREMENT: int := 0xda3e_39cb_94b9_5bdb
  const STATES: int := 0x1_0000_0000_0000_0000

  type State = x: int | 0 <= x < STATES

  /** The assignment to rng->state: 64-bit arithmetic that wraps around. */
  function NextState(state: State): State {
    (state * MULTIPLIER + INCREMENT) % STATES
  }

  function StateAfter(state: State, n: nat): State {
    if n == 0 then state else NextState(StateAfter(state, n - 1))
  }

  // ----- the same without wrapping around -----

  function Iterated(x: int, n: nat): int {
    if n == 0 then x else Iterated(x, n - 1) * MULTIPLIER + INCREMENT
  }

  lemma {:induction false} StateAfterIsIterated(state: State, n: nat)
    ensures StateAfter(state, n) == Iterated(state, n) % STATES
  {
    if n > 0 {
      StateAfterIsIterated(state, n - 1);
      WrapLater(Iterated(state, n - 1), MULTIPLIER, INCREMENT, STATES);
    }
  }

  lemma WrapLater(x: int, a: int, c: int, m: nat)
    requires m > 0
    ensures ((x % m) * a + c) % m == (x * a + c) % m
  {
    var q := x / m;
    assert x == q * m + x % m;
    assert x * a + c == (x % m) * a + c + (q * a) * m by {
      assert x * a == (q * m + x % m) * a == (q * m) * a + (x % m) * a;
      assert (q * m) * a == (q * a) * m;
    }
    AddMultiple((x % m) * a + c, q * a, m);
  }

  lemma AddMultiple(x: int, k: int, m: nat)
    requires m > 0
    ensures (x + k * m) % m == x % m
  {
    var q, r := x / m, x % m;
    assert x + k * m == (q + k) * m + r;
    RemainderIsUnique((q + k) * m + r, q + k, r, m);
  }

  lemma RemainderIsUnique(x: int, q: int, r: int, m: nat)
    requires m > 0 && x == q * m + r && 0 <= r < m
    ensures x % m == r && x / m == q
  {
    var d := x / m - q;
    assert x == (x / m) * m + x % m;
    assert d * m == (x / m) * m - q * m == r - x % m;
    MultipleBelow(d, m);
  }

  lemma MultipleBelow(d: int, m: nat)
    ensures d >= 1 ==> d * m >= m
    ensures d <= -1 ==> d * m <= -(m as int)
  {
    if d >= 1 {
      assert d * m == (d - 1) * m + m;
    } else if d <= -1 {
      assert d * m == (d + 1) * m - m;
    }
  }

  // ----- n steps at once -----

  /** n steps take x to Factor(n) * x + Offset(n) * INCREMENT. */
  function Factor(n: nat): int {
    if n == 0 then 1 else Factor(n - 1) * MULTIPLIER
  }

  function Offset(n: nat): int {
    if n == 0 then 0 else Offset(n - 1) * MULTIPLIER + 1
  }

  lemma {:induction false} StepsAtOnce(x: int, n: nat)
    ensures Iterated(x, n) == Factor(n) * x + Offset(n) * INCREMENT
  {
    if n > 0 {
      StepsAtOnce(x, n - 1);
      OneMore(Factor(n - 1), Offset(n - 1), x, MULTIPLIER, INCREMENT);
    }
  }

  lemma OneMore(f: int, o: int, x: int, a: int, c: int)
    ensures (f * x + o * c) * a + c == (f * a) * x + (o * a + 1) * c
  {
    assert (f * x + o * c) * a == (f * x) * a + (o * c) * a;
    assert (f * x) * a == (f * a) * x && (o * c) * a == (o * a) * c;
    assert (o * a + 1) * c == (o * a) * c + c;
  }

  lemma {:induction false} IteratedSum(x: int, m: nat, n: nat)
    ensures Iterated(x, m + n) == Iterated(Iterated(x, m), n)
  {
    if n > 0 {
      IteratedSum(x, m, n - 1);
      assert m + n - 1 == m + (n - 1);
    }
  }

  lemma {:induction false} FactorSum(m: nat, n: nat)
    ensures Factor(m + n) == Factor(m) * Factor(n)
  {
    if n > 0 {
      FactorSum(m, n - 1);
      assert (m + n) - 1 == m + (n - 1);
      assert (Factor(m) * Factor(n - 1)) * MULTIPLIER == Factor(m) * (Factor(n - 1) * MULTIPLIER);
    }
  }

  lemma {:induction false} OffsetSum(m: nat, n: nat)
    ensures Offset(m + n) == Offset(m) * Factor(n) + Offset(n)
  {
    if n > 0 {
      OffsetSum(m, n - 1);
      assert (m + n) - 1 == m + (n - 1);
      OffsetStep(Offset(m), Factor(n - 1), Offset(n - 1), MULTIPLIER);
    }
  }

  lemma OffsetStep(o: int, f: int, p: int, a: int)
    ensures (o * f + p) * a + 1 == o * (f * a) + (p * a + 1)
  {
    assert (o * f + p) * a == (o * f) * a + p * a;
    assert (o * f) * a == o * (f * a);
  }

  // ----- a power of two of steps -----

  function Pow2(k: nat): nat {
    if k == 0 then 1 else 2 * Pow2(k - 1)
  }

  lemma {:induction false} Pow2Positive(k: nat)
    ensures Pow2(k) > 0
  {
    if k > 0 { Pow2Positive(k - 1); }
  }

  lemma {:induction false} Pow2Sum(m: nat, n: nat)
    ensures Pow2(m + n) == Pow2(m) * Pow2(n)
  {
    if n > 0 {
      Pow2Sum(m, n - 1);
      var p, q := Pow2(m), Pow2(n - 1);
      assert Pow2(m + n) == 2 * Pow2(m + (n - 1));
      assert Pow2(n) == 2 * q;
      hide Pow2;
      TwiceAProduct(p, q);
    }
  }

  lemma TwiceAProduct(p: int, q: int)
    ensures 2 * (p * q) == p * (2 * q)
  {
  }

  lemma StatesIsPow2()
    ensures Pow2(64) == STATES
  {
    assert Pow2(8) == 0x100 by {
      assert Pow2(2) == 4 && Pow2(4) == 16 && Pow2(6) == 64;
    }
    Pow2Sum(8, 8);
    Pow2Sum(16, 16);
    Pow2Sum(32, 32);
  }

  /** 2^k steps multiply by 1 modulo 4 * 2^k, and add an odd multiple of 2^k. */
  lemma {:induction false} PowerOfSteps(k: nat) returns (u: int, v: int)
    ensures Factor(Pow2(k)) == 1 + 4 * (Pow2(k) * u)
    ensures Offset(Pow2(k)) == Pow2(k) * (2 * v + 1)
  {
    if k == 0 {
      u, v := (MULTIPLIER - 1) / 4, 0;
      assert Factor(1) == Factor(0) * MULTIPLIER && Offset(1) == Offset(0) * MULTIPLIER + 1;
    } else {
      hide Factor, Offset;
      var p := Pow2(k - 1);
      assert Pow2(k) == p + p == 2 * p;
      var u0, v0 := PowerOfSteps(k - 1);
      hide Pow2;
      FactorSum(p, p);
      OffsetSum(p, p);
      u := u0 + 2 * (p * (u0 * u0));
      v := v0 + (2 * v0 + 1) * (p * u0);
      FactorSquare(p, u0);
      OffsetDouble(p, u0, v0);
    }
  }

  lemma FactorSquare(p: int, u: int)
    ensures (1 + 4 * (p * u)) * (1 + 4 * (p * u)) == 1 + 4 * ((2 * p) * (u + 2 * (p * (u * u))))
  {
    var w := p * u;
    assert (1 + 4 * w) * (1 + 4 * w) == 1 + 8 * w + 16 * (w * w);
    assert w * w == p * (p * (u * u)) by {
      assert (p * u) * (p * u) == p * (u * (p * u)) == p * (p * (u * u));
    }
    assert (2 * p) * (u + 2 * (p * (u * u))) == 2 * w + 4 * (p * (p * (u * u)));
  }

  lemma OffsetDouble(p: int, u: int, v: int)
    ensures (p * (2 * v + 1)) * (1 + 4 * (p * u)) + p * (2 * v + 1)
         == (2 * p) * (2 * (v + (2 * v + 1) * (p * u)) + 1)
  {
    var o, w := 2 * v + 1, p * u;
    assert (p * o) * (1 + 4 * w) == p * o + 4 * ((p * o) * w);
    assert (p * o) * w == p * (o * w);
    assert 2 * (v + o * w) + 1 == o + 2 * (o * w);
    assert (2 * p) * (o + 2 * (o * w)) == 2 * (p * o) + 4 * (p * (o * w));
  }

  // ----- every residue, and so every state, is reached -----

  lemma {:induction false} ReachesResidue(x: int, r: int, k: nat) returns (n: nat, q: int)
    ensures Iterated(x, n) - r == q * Pow2(k)
  {
    if k == 0 {
      n, q := 0, x - r;
    } else {
      var p := Pow2(k - 1);
      n, q := ReachesResidue(x, r, k - 1);
      if q % 2 == 0 {
        HalfTwice(q, p);
        q := q / 2;
      } else {
        var y := Iterated(x, n);
        var u, v := PowerOfSteps(k - 1);
        IteratedSum(x, n, p);
        StepsAtOnce(y, p);
        var s := q + 4 * (u * y) + (2 * v + 1) * INCREMENT;
        JumpByOdd(p, u, v, y, r, q, INCREMENT);
        OddSum(q, u * y, v, INCREMENT);
        HalfTwice(s, p);
        n, q := n + p, s / 2;
      }
    }
  }

  lemma HalfTwice(q: int, p: int)
    requires q % 2 == 0
    ensures q * p == (q / 2) * (2 * p)
  {
    assert q == 2 * (q / 2);
    assert (2 * (q / 2)) * p == (q / 2) * (2 * p);
  }

  lemma JumpByOdd(p: int, u: int, v: int, y: int, r: int, q: int, c: int)
    requires y - r == q * p
    ensures (1 + 4 * (p * u)) * y + (p * (2 * v + 1)) * c - r == (q + 4 * (u * y) + (2 * v + 1) * c) * p
  {
    var o := 2 * v + 1;
    assert (1 + 4 * (p * u)) * y == y + 4 * ((p * u) * y);
    assert (p * u) * y == (u * y) * p && (p * o) * c == (o * c) * p;
    assert (q + 4 * (u * y) + o * c) * p == q * p + 4 * ((u * y) * p) + (o * c) * p;
  }

  lemma OddSum(q: int, w: int, v: int, c: int)
    requires q % 2 == 1 && c % 2 == 1
    ensures (q + 4 * w + (2 * v + 1) * c) % 2 == 0
  {
    var a, b := q / 2, c / 2;
    assert q == 2 * a + 1 && c == 2 * b + 1;
    var d := v * c;
    assert (2 * v + 1) * c == 2 * d + c;
    EvenSum(a, w, d, b);
  }

  lemma EvenSum(a: int, w: int, d: int, b: int)
    ensures (2 * a + 1 + 4 * w + (2 * d + (2 * b + 1))) % 2 == 0
  {
  }

  /** Full period: from any state, some number of steps leads to any other. */
  lemma EveryStateIsReached(from: State, to: State) returns (n: nat)
    ensures StateAfter(from, n) == to
  {
    var q;
    n, q := ReachesResidue(from, to, 64);
    StatesIsPow2();
    StateAfterIsIterated(from, n);
    RemainderIsUnique(Iterated(from, n), q, to, STATES);
  }
}
