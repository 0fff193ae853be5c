/**
 The word that pcg32_random_r takes from a state: shifts, an exclusive or and a rotation of unsigned
 integers, and which bit of the state every bit of the word comes from.
 */
module PcgOutput {
  import opened PcgGenerator

  const RANGE32: int := 0x1_0000_0000

  // ----- the operators of C on unsigned integers -----

  function Xor(a: nat, b: nat): nat
    decreases a + b
  {
    if a == 0 && b == 0 then 0 else (a + b) % 2 + 2 * Xor(a / 2, b / 2)
  }

  function Or(a: nat, b: nat): nat
    decreases a + b
  {
    if a == 0 && b == 0 then 0 else (if a % 2 + b % 2 > 0 then 1 else 0) + 2 * Or(a / 2, b / 2)
  }

  function Quotient(a: nat, m: nat): nat
    requires m > 0
  {
    a / m
  }

  function ShiftRight(a: nat, n: nat): nat {
    Pow2Positive(n);
    Quotient(a, Pow2(n))
  }

  /** What shifting to the right loses. */
  function ShiftedOut(a: nat, n: nat): nat {
    Pow2Positive(n);
    Remainder(a, Pow2(n))
  }

  function Remainder(a: nat, m: nat): nat
    requires m > 0
  {
    a % m
  }

  /** On 32 bits: what is shifted out is lost. */
  function ShiftLeft32(a: nat, n: nat): nat {
    (a * Pow2(n)) % RANGE32
  }

  /** (uint32_t)(((oldstate >> 18u) ^ oldstate) >> 27u) */
  function XorShifted(oldstate: State): (x: nat)
    ensures x < RANGE32
  {
    ShiftRight(Xor(ShiftRight(oldstate, 18), oldstate), 27) % RANGE32
  }

  /** pcg32_random_r: the word is rotated by the top five bits of the state. */
  function Draw(oldstate: State): nat {
    var xorshifted, rot := XorShifted(oldstate), ShiftRight(oldstate, 59);
    Or(ShiftRight(xorshifted, rot), ShiftLeft32(xorshifted, (32 - rot) % 32))
  }

  // ----- bits -----

  function Bit(a: nat, i: nat): (b: nat)
    ensures b < 2
  {
    ShiftRight(a, i) % 2
  }

  lemma DivideTwice(a: nat, m: nat, n: nat)
    requires m > 0 && n > 0
    ensures m * n > 0 && (a / m) / n == a / (m * n)
  {
    var q, r := a / m, a % m;
    var q', r' := q / n, q % n;
    Distribute(q' * n, r', m);
    Regroup(q', n, m);
    assert a == q' * (n * m) + (r' * m + r);
    Ordered(r' + 1, n, m);
    Distribute(r', 1, m);
    RemainderIsUnique(a, q', r' * m + r, m * n);
  }

  lemma Distribute(a: int, b: int, c: int)
    ensures (a + b) * c == a * c + b * c
  {
  }

  lemma Regroup(a: int, b: int, c: int)
    ensures (a * b) * c == a * (b * c)
  {
  }

  lemma Ordered(a: int, b: int, c: nat)
    requires a <= b
    ensures a * c <= b * c
  {
  }

  lemma DivideMultiple(a: nat, m: nat, r: nat)
    requires r < m
    ensures (a * m + r) / m == a
  {
    RemainderIsUnique(a * m + r, a, r, m);
  }

  lemma RightTwice(a: nat, m: nat, n: nat)
    ensures ShiftRight(ShiftRight(a, m), n) == ShiftRight(a, m + n)
  {
    Pow2Positive(m);
    Pow2Positive(n);
    Pow2Sum(m, n);
    DivideTwice(a, Pow2(m), Pow2(n));
  }

  lemma BitLater(a: nat, i: nat)
    requires i > 0
    ensures Bit(a, i) == Bit(a / 2, i - 1)
  {
    RightTwice(a, 1, i - 1);
    assert Pow2(1) == 2;
  }

  /** From 2^i on a number below 2^i has no bits. */
  lemma NoBit(a: nat, i: nat)
    requires a < Pow2(i)
    ensures Bit(a, i) == 0
  {
    DivideMultiple(0, Pow2(i), a);
  }

  lemma {:induction false} Pow2Grows(m: nat, n: nat)
    requires m <= n
    ensures Pow2(m) <= Pow2(n)
  {
    if m < n {
      Pow2Grows(m, n - 1);
      Pow2Positive(n - 1);
    }
  }

  lemma XorUnfolds(a: nat, b: nat)
    ensures Xor(a, b) == (a + b) % 2 + 2 * Xor(a / 2, b / 2)
  {
    if a == 0 && b == 0 { assert Xor(0, 0) == 0; }
  }

  lemma OrUnfolds(a: nat, b: nat)
    ensures Or(a, b) == (if a % 2 + b % 2 > 0 then 1 else 0) + 2 * Or(a / 2, b / 2)
  {
    if a == 0 && b == 0 { assert Or(0, 0) == 0; }
  }

  lemma {:induction false} XorBit(a: nat, b: nat, i: nat)
    ensures Bit(Xor(a, b), i) == (Bit(a, i) + Bit(b, i)) % 2
    decreases i
  {
    hide Xor;
    var x := Xor(a, b);
    XorUnfolds(a, b);
    assert x % 2 == (a + b) % 2 && x / 2 == Xor(a / 2, b / 2);
    if i == 0 {
      LowestBits(a, b, x);
    } else {
      hide Bit;
      BitLater(x, i);
      BitLater(a, i);
      BitLater(b, i);
      XorBit(a / 2, b / 2, i - 1);
    }
  }

  lemma LowestBits(a: nat, b: nat, x: nat)
    ensures Bit(a, 0) == a % 2 && Bit(b, 0) == b % 2 && Bit(x, 0) == x % 2
  {
    assert Pow2(0) == 1;
  }

  lemma {:induction false} OrBit(a: nat, b: nat, i: nat)
    ensures Bit(Or(a, b), i) == if Bit(a, i) + Bit(b, i) > 0 then 1 else 0
    decreases i
  {
    hide Or;
    var x := Or(a, b);
    OrUnfolds(a, b);
    assert x % 2 == (if a % 2 + b % 2 > 0 then 1 else 0) && x / 2 == Or(a / 2, b / 2);
    if i == 0 {
      LowestBits(a, b, x);
    } else {
      hide Bit;
      BitLater(x, i);
      BitLater(a, i);
      BitLater(b, i);
      OrBit(a / 2, b / 2, i - 1);
    }
  }

  lemma RightBit(a: nat, n: nat, i: nat)
    ensures Bit(ShiftRight(a, n), i) == Bit(a, n + i)
  {
    RightTwice(a, n, i);
  }

  /** Multiples of 2^n have no bits below n, and those of the factor from there on. */
  lemma MultipleBit(a: nat, n: nat, i: nat)
    ensures Bit(a * Pow2(n), i) == if i < n then 0 else Bit(a, i - n)
  {
    if i < n {
      MultipleHasNone(a, n, i);
    } else {
      MultipleFrom(a, n, i);
    }
  }

  lemma MultipleFrom(a: nat, n: nat, i: nat)
    requires n <= i
    ensures ShiftRight(a * Pow2(n), i) == ShiftRight(a, i - n)
  {
    hide Pow2;
    Pow2Positive(n);
    RightTwice(a * Pow2(n), n, i - n);
    DivideMultiple(a, Pow2(n), 0);
  }

  lemma HalfOfPow2(a: nat, n: nat, i: nat)
    requires i < n
    ensures a * Pow2(n) == (2 * (a * Pow2(n - i - 1))) * Pow2(i)
  {
    var p, q := Pow2(n - i - 1), Pow2(i);
    Pow2Sum(n - i - 1, i + 1);
    assert Pow2(i + 1) == 2 * q;
    hide Pow2;
    Regroup(a, p, 2 * q);
    Regroup(a * p, 2, q);
  }

  lemma MultipleHasNone(a: nat, n: nat, i: nat)
    requires i < n
    ensures Bit(a * Pow2(n), i) == 0
  {
    HalfOfPow2(a, n, i);
    Pow2Positive(i);
    DivideMultiple(2 * (a * Pow2(n - i - 1)), Pow2(i), 0);
  }

  lemma Range32IsPow2()
    ensures Pow2(32) == RANGE32
  {
    assert Pow2(8) == 0x100 by {
      assert Pow2(2) == 4 && Pow2(4) == 16 && Pow2(6) == 64;
    }
    Pow2Sum(8, 8);
    Pow2Sum(16, 16);
  }

  lemma LowBit(a: nat, i: nat)
    requires i < 32
    ensures Bit(a % RANGE32, i) == Bit(a, i)
  {
    hide Pow2, Bit;
    var q, r := a / RANGE32, a % RANGE32;
    Range32IsPow2();
    assert a == q * Pow2(32) + r;
    HalfOfPow2(q, 32, i);
    BitIsRemainder(a, i);
    BitIsRemainder(r, i);
    EvenQuotient(a, q * Pow2(32 - i - 1), r, Pow2(i));
  }

  lemma EvenQuotient(a: nat, half: nat, r: nat, p: nat)
    requires p > 0 && a == (2 * half) * p + r
    ensures (a / p) % 2 == (r / p) % 2
  {
    QuotientOfSum(a, 2 * half, r, p);
    ParityOfSum(2 * half, r / p);
  }

  lemma QuotientOfSum(a: nat, q: nat, r: nat, p: nat)
    requires p > 0 && a == q * p + r
    ensures a / p == q + r / p
  {
    var x, y := r / p, r % p;
    assert r == x * p + y;
    Distribute(q, x, p);
    assert a == (q + x) * p + y;
    DivideMultiple(q + x, p, y);
  }

  lemma LowBits(a: nat, i: nat)
    ensures Bit(a % RANGE32, i) == if i < 32 then Bit(a, i) else 0
  {
    if i < 32 {
      LowBit(a, i);
    } else {
      Range32IsPow2();
      Pow2Grows(32, i);
      NoBit(a % RANGE32, i);
    }
  }

  lemma {:induction false} BitsDecide(a: nat, b: nat, n: nat)
    requires a < Pow2(n) && b < Pow2(n)
    requires forall i: nat :: i < n ==> Bit(a, i) == Bit(b, i)
    ensures a == b
    decreases n
  {
    if n > 0 {
      forall i: nat | i < n - 1 ensures Bit(a / 2, i) == Bit(b / 2, i) {
        BitLater(a, i + 1);
        BitLater(b, i + 1);
      }
      BitsDecide(a / 2, b / 2, n - 1);
      LowestBits(a, b, 0);
      assert Bit(a, 0) == Bit(b, 0);
    }
  }

  // ----- what a draw is -----

  lemma XorShiftedBit(state: State, j: nat)
    ensures Bit(XorShifted(state), j) == if j < 32 then (Bit(state, j + 27) + Bit(state, j + 45)) % 2 else 0
  {
    hide Bit, Xor, ShiftRight;
    LowBits(ShiftRight(Xor(ShiftRight(state, 18), state), 27), j);
    RightBit(Xor(ShiftRight(state, 18), state), 27, j);
    XorBit(ShiftRight(state, 18), state, 27 + j);
    RightBit(state, 18, 27 + j);
  }

  lemma DrawBit(state: State, i: nat)
    requires i < 32
    ensures Bit(Draw(state), i) == Bit(XorShifted(state), (i + ShiftRight(state, 59)) % 32)
  {
    hide Bit, Or, XorShifted, ShiftRight, Pow2;
    var x, rot := XorShifted(state), ShiftRight(state, 59);
    RotationIsSmall(state);
    var left := (32 - rot) % 32;
    OrBit(ShiftRight(x, rot), ShiftLeft32(x, left), i);
    RightBit(x, rot, i);
    LowBits(x * Pow2(left), i);
    MultipleBit(x, left, i);
    XorShiftedBit(state, rot + i);
    DrawParts(state);
    hide Draw, ShiftLeft32;
    if rot > 0 {
      assert left == 32 - rot;
      assert i >= left ==> (i + rot) % 32 == i - left;
    }
  }

  lemma RotationIsSmall(state: State)
    ensures ShiftRight(state, 59) < 32
  {
    StatesIsPow2();
    Pow2Sum(59, 5);
    assert Pow2(5) == 32;
  }

  /**
   Bit i of the word drawn from a state is the exclusive or of two bits of the state, 18 apart, that are found by
   counting on from bit i, cyclically on 32 bits, by the number that the five highest bits of the state give.
   */
  lemma DrawnBits(state: State, i: nat)
    requires i < 32
    ensures var j := (i + state / 0x800_0000_0000_0000) % 32;
            && Pow2(i) > 0 && Pow2(j + 27) > 0 && Pow2(j + 45) > 0
            && (Draw(state) / Pow2(i)) % 2 == (state / Pow2(j + 27) + state / Pow2(j + 45)) % 2
  {
    var j := (i + ShiftRight(state, 59)) % 32;
    Pow2Of59();
    DrawBit(state, i);
    XorShiftedBit(state, j);
    BitIsRemainder(Draw(state), i);
    BitIsRemainder(state, j + 27);
    BitIsRemainder(state, j + 45);
    RightIsQuotient(state, 59);
    hide Draw, XorShifted, Pow2, Bit, ShiftRight;
    ParityOfSum(state / Pow2(j + 27), state / Pow2(j + 45));
  }

  lemma BitIsRemainder(a: nat, i: nat)
    ensures Pow2(i) > 0 && Bit(a, i) == (a / Pow2(i)) % 2
  {
    Pow2Positive(i);
  }

  lemma RightIsQuotient(a: nat, n: nat)
    ensures Pow2(n) > 0 && ShiftRight(a, n) == a / Pow2(n)
  {
    Pow2Positive(n);
  }

  lemma ParityOfSum(a: nat, b: nat)
    ensures (a + b) % 2 == (a % 2 + b % 2) % 2
  {
  }

  lemma Pow2Of59()
    ensures Pow2(59) == 0x800_0000_0000_0000
  {
    StatesIsPow2();
    Pow2Sum(59, 5);
    assert Pow2(5) == 32;
  }

  // ----- a draw is a rotation -----

  /** Numbers below 2^n and multiples of 2^n have no bit in common. */
  lemma {:induction false} OrOfParts(x: nat, y: nat, n: nat)
    requires x < Pow2(n)
    ensures Or(x, y * Pow2(n)) == x + y * Pow2(n)
    decreases n
  {
    if n == 0 {
      OrZero(y);
    } else {
      var p := Pow2(n - 1);
      assert Pow2(n) == 2 * p;
      OrOfParts(x / 2, y, n - 1);
      hide Pow2, Or;
      TwiceAProduct(y, p);
      OrUnfolds(x, 2 * (y * p));
    }
  }

  lemma {:induction false} OrZero(b: nat)
    ensures Or(0, b) == b
  {
    if b > 0 { OrZero(b / 2); }
  }

  lemma {:induction false} OrSame(a: nat)
    ensures Or(a, a) == a
  {
    if a > 0 { OrSame(a / 2); }
  }

  /** What is shifted out to the right, and what is left after shifting out to the left. */
  lemma HighAndLow(x: nat, rot: nat)
    requires x < RANGE32 && 0 < rot < 32
    ensures ShiftRight(x, rot) < Pow2(32 - rot)
    ensures ShiftLeft32(x, 32 - rot) == ShiftedOut(x, rot) * Pow2(32 - rot)
  {
    Pow2Positive(rot);
    Pow2Positive(32 - rot);
    Range32IsPow2();
    Pow2Sum(rot, 32 - rot);
    hide Pow2;
    SplitShift(x, Pow2(rot), Pow2(32 - rot));
  }

  lemma SplitShift(x: nat, p: nat, m: nat)
    requires p > 0 && m > 0 && x < p * m
    ensures x / p < m && p * m > 0 && (x * m) % (p * m) == (x % p) * m
  {
    var high, low := x / p, x % p;
    assert x == high * p + low;
    assert m * p == p * m;
    if high >= m { Ordered(m, high, p); }
    Distribute(high * p, low, m);
    Regroup(high, p, m);
    assert x * m == high * (p * m) + low * m;
    Ordered(low + 1, p, m);
    Distribute(low, 1, m);
    RemainderIsUnique(x * m, high, low * m, p * m);
  }

  lemma PartsJoined(x: nat, rot: nat)
    requires x < RANGE32 && 0 < rot < 32
    ensures Or(ShiftRight(x, rot), ShiftLeft32(x, 32 - rot))
         == ShiftRight(x, rot) + ShiftedOut(x, rot) * Pow2(32 - rot)
  {
    HighAndLow(x, rot);
    hide Or, ShiftRight, ShiftLeft32, Pow2, ShiftedOut, RANGE32;
    OrOfParts(ShiftRight(x, rot), ShiftedOut(x, rot), 32 - rot);
  }

  lemma NotRotated(x: nat)
    requires x < RANGE32
    ensures Or(ShiftRight(x, 0), ShiftLeft32(x, 0)) == x == ShiftRight(x, 0) + ShiftedOut(x, 0) * Pow2(32)
  {
    OrSame(x);
    assert Pow2(0) == 1;
    assert x * 1 == x;
    assert 0 * Pow2(32) == 0;
  }

  lemma Rotated(x: nat, rot: nat)
    requires x < RANGE32 && rot < 32
    ensures Or(ShiftRight(x, rot), ShiftLeft32(x, (32 - rot) % 32))
         == ShiftRight(x, rot) + ShiftedOut(x, rot) * Pow2(32 - rot)
  {
    hide Or, ShiftRight, ShiftLeft32, ShiftedOut, Pow2;
    if rot == 0 {
      NotRotated(x);
    } else {
      assert (32 - rot) % 32 == 32 - rot;
      PartsJoined(x, rot);
    }
  }

  lemma DrawParts(state: State)
    ensures var x, rot := XorShifted(state), ShiftRight(state, 59);
            rot < 32 && Draw(state) == Or(ShiftRight(x, rot), ShiftLeft32(x, (32 - rot) % 32))
  {
    RotationIsSmall(state);
    hide Or, XorShifted, ShiftRight, ShiftLeft32;
  }

  /** The xorshifted word is rotated to the right by the number that the five highest bits of the state give. */
  lemma DrawRotates(state: State)
    ensures var x, rot := XorShifted(state), ShiftRight(state, 59);
            rot < 32 && Draw(state) == ShiftRight(x, rot) + ShiftedOut(x, rot) * Pow2(32 - rot)
  {
    hide Draw, Or, XorShifted, ShiftRight, ShiftLeft32, ShiftedOut, Pow2;
    DrawParts(state);
    Rotated(XorShifted(state), ShiftRight(state, 59));
  }

  lemma DrawIsWord(state: State)
    ensures Draw(state) < RANGE32
  {
    DrawRotates(state);
    PartsBelow(XorShifted(state), ShiftRight(state, 59));
    hide Draw, XorShifted, ShiftRight, ShiftedOut, Pow2;
  }

  lemma PartsBelow(x: nat, rot: nat)
    requires x < RANGE32 && rot < 32
    ensures ShiftRight(x, rot) + ShiftedOut(x, rot) * Pow2(32 - rot) < RANGE32
  {
    Pow2Positive(rot);
    Pow2Positive(32 - rot);
    Range32IsPow2();
    Pow2Sum(rot, 32 - rot);
    hide Pow2;
    var p, m := Pow2(rot), Pow2(32 - rot);
    SplitShift(x, p, m);
    Ordered(x % p + 1, p, m);
    Distribute(x % p, 1, m);
  }
}
