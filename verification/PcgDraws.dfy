/** Two words that the generator draws: the first one after the program has started, and the one that is 1. */
module PcgDraws {
  import opened PcgGenerator
  import opened PcgOutput

  // ----- two draws -----

  lemma {:induction false} XorZero(b: nat)
    ensures Xor(0, b) == b
  {
    if b > 0 { XorZero(b / 2); }
  }

  lemma XorTwice(a: nat, b: nat, x: nat, y: nat)
    requires x < 2 && y < 2
    ensures Xor(2 * a + x, 2 * b + y) == 2 * Xor(a, b) + (x + y) % 2
  {
    hide Xor;
    XorUnfolds(2 * a + x, 2 * b + y);
    assert (2 * a + x) / 2 == a && (2 * b + y) / 2 == b;
    assert (2 * a + x + (2 * b + y)) % 2 == (x + y) % 2;
  }

  /** Two bits more. */
  lemma XorPair(a: nat, b: nat, c: nat, x: nat, y: nat)
    requires Xor(a, b) == c && x < 4 && y < 4
    ensures Xor(4 * a + x, 4 * b + y)
         == 4 * c + (if x == y then 0 else if x == 0 then y else if y == 0 then x else 6 - x - y)
  {
    hide Xor;
    var x', y' := if x < 2 then 0 else 1, if y < 2 then 0 else 1;
    XorTwice(a, b, x', y');
    XorTwice(2 * a + x', 2 * b + y', x - 2 * x', y - 2 * y');
  }

  lemma SmallPowers()
    ensures Pow2(0) == 1 && Pow2(16) == 0x1_0000 && Pow2(18) == 0x4_0000 && Pow2(27) == 0x800_0000
  {
    assert Pow2(8) == 0x100 by {
      assert Pow2(2) == 4 && Pow2(4) == 16 && Pow2(6) == 64;
    }
    Pow2Sum(8, 8);
    Pow2Sum(16, 2);
    Pow2Sum(18, 8);
    assert Pow2(27) == 2 * Pow2(26);
  }

  /** The shifts of a draw, each one as a division. */
  lemma DrawOf(state: State, a: nat, b: nat, rot: nat, p: nat, m: nat)
    requires a == state / 0x4_0000 && Xor(a, state) == b
    requires rot == state / 0x800_0000_0000_0000
    requires rot < 32 && p == Pow2(rot) > 0 && m == Pow2(32 - rot)
    ensures var x := b / 0x800_0000 % RANGE32;
            Draw(state) == x / p + (x % p) * m
  {
    var x := b / 0x800_0000 % RANGE32;
    SmallPowers();
    Pow2Of59();
    RightIsQuotient(state, 18);
    RightIsQuotient(state, 59);
    RightIsQuotient(b, 27);
    assert XorShifted(state) == x by { hide Xor, ShiftRight; }
    RightIsQuotient(x, rot);
    assert ShiftedOut(x, rot) == x % p;
    hide Draw, XorShifted, ShiftRight, ShiftedOut, Pow2;
    DrawRotates(state);
  }

  lemma XorOfInitial()
    ensures Xor(0x214f_1279_9d23, 0x853c_49e6_748f_ea9b) == 0x853c_68a9_66f6_77b8
  {
    hide Xor;
    XorZero(0x214f1);
    XorPair(0x0, 0x214f1, 0x214f1, 2, 0);
    XorPair(0x2, 0x853c4, 0x853c6, 0, 2);
    XorPair(0x8, 0x214f12, 0x214f1a, 1, 1);
    XorPair(0x21, 0x853c49, 0x853c68, 1, 3);
    XorPair(0x85, 0x214f127, 0x214f1a2, 0, 2);
    XorPair(0x214, 0x853c49e, 0x853c68a, 3, 1);
    XorPair(0x853, 0x214f1279, 0x214f1a2a, 3, 2);
    XorPair(0x214f, 0x853c49e6, 0x853c68a9, 0, 1);
    XorPair(0x853c, 0x214f12799, 0x214f1a2a5, 1, 3);
    XorPair(0x214f1, 0x853c49e67, 0x853c68a96, 0, 1);
    XorPair(0x853c4, 0x214f12799d, 0x214f1a2a59, 2, 0);
    XorPair(0x214f12, 0x853c49e674, 0x853c68a966, 1, 2);
    XorPair(0x853c49, 0x214f12799d2, 0x214f1a2a59b, 3, 0);
    XorPair(0x214f127, 0x853c49e6748, 0x853c68a966f, 2, 3);
    XorPair(0x853c49e, 0x214f12799d23, 0x214f1a2a59bd, 1, 3);
    XorPair(0x214f1279, 0x853c49e6748f, 0x853c68a966f6, 2, 3);
    XorPair(0x853c49e6, 0x214f12799d23f, 0x214f1a2a59bd9, 1, 2);
    XorPair(0x214f12799, 0x853c49e6748fe, 0x853c68a966f67, 3, 2);
    XorPair(0x853c49e67, 0x214f12799d23fa, 0x214f1a2a59bd9d, 1, 2);
    XorPair(0x214f12799d, 0x853c49e6748fea, 0x853c68a966f677, 0, 2);
    XorPair(0x853c49e674, 0x214f12799d23faa, 0x214f1a2a59bd9de, 2, 1);
    XorPair(0x214f12799d2, 0x853c49e6748fea9, 0x853c68a966f677b, 0, 2);
    XorPair(0x853c49e6748, 0x214f12799d23faa6, 0x214f1a2a59bd9dee, 3, 3);
  }

  /** The first word from the state that the generator starts with, and the state that follows. */
  lemma FirstDraw()
    ensures Draw(0x853c_49e6_748f_ea9b) == 0x152c_a78d
    ensures NextState(0x853c_49e6_748f_ea9b) == 0xc830_15ca_079f_7e1a
  {
    hide Xor, Draw, Pow2;
    SmallPowers();
    XorOfInitial();
    DrawOf(0x853c_49e6_748f_ea9b, 0x214f_1279_9d23, 0x853c_68a9_66f6_77b8, 16, 0x1_0000, 0x1_0000);
  }

  const STATE_OF_ONE: State := 0x800_0000

  lemma OneIsDrawn()
    ensures Draw(STATE_OF_ONE) == 1
  {
    hide Xor, Draw, Pow2;
    SmallPowers();
    XorOfOne();
    DrawOf(STATE_OF_ONE, 0x200, 0x800_0200, 0, 1, Pow2(32));
  }

  lemma XorOfOne()
    ensures Xor(0x200, 0x800_0000) == 0x800_0200
  {
    hide Xor;
    XorZero(0x20000);
    XorPair(0x0, 0x20000, 0x20000, 2, 0);
    XorPair(0x2, 0x80000, 0x80002, 0, 0);
    XorPair(0x8, 0x200000, 0x200008, 0, 0);
    XorPair(0x20, 0x800000, 0x800020, 0, 0);
    XorPair(0x80, 0x2000000, 0x2000080, 0, 0);
  }
}
