/** pcg32_random_bounded_divisionless: a bounded number from 32-bit draws, mostly without a division. */
module BoundedRandom {
  import opened PcgDraws
  import opened PcgGenerator
  import opened PcgOutput

  // ----- which draws are accepted, and for what -----

  /** 2^32 mod range, which the code computes as -range % range on 32 bits. */
  function Threshold(range: nat): nat
    requires 0 < range < RANGE32
  {
    (RANGE32 - range) % range
  }

  function Leftover(draw: nat, range: nat): nat {
    (draw * range) % RANGE32
  }

  function Outcome(draw: nat, range: nat): nat {
    (draw * range) / RANGE32
  }

  predicate Accepted(draw: nat, range: nat)
    requires 0 < range < RANGE32
  {
    Leftover(draw, range) >= Threshold(range)
  }

  lemma ThresholdIsRemainder(range: nat)
    requires 0 < range < RANGE32
    ensures Threshold(range) == RANGE32 % range < range
    ensures RANGE32 == (RANGE32 / range) * range + Threshold(range)
  {
    SubtractOnce(RANGE32, range);
  }

  lemma SubtractOnce(n: nat, d: nat)
    requires 0 < d <= n
    ensures (n - d) % d == n % d
  {
    var q, r := n / d, n % d;
    assert n - d == (q - 1) * d + r;
    RemainderIsUnique(n - d, q - 1, r, d);
  }

  /** The least x with x * range >= a. */
  function Ceil(a: nat, range: nat): nat
    requires range > 0
  {
    (a + range - 1) / range
  }

  lemma AtLeastCeil(x: nat, a: nat, range: nat)
    requires range > 0
    ensures x * range >= a <==> x >= Ceil(a, range)
  {
    var c, r := (a + range - 1) / range, (a + range - 1) % range;
    assert a + range - 1 == c * range + r;
    if x >= c {
      assert x * range >= c * range;
    } else {
      assert x + 1 <= c;
      assert (x + 1) * range <= c * range;
      assert (x + 1) * range == x * range + range;
    }
  }

  lemma CeilShifts(a: nat, q: nat, range: nat)
    requires range > 0
    ensures Ceil(a + q * range, range) == Ceil(a, range) + q
  {
    var c, r := (a + range - 1) / range, (a + range - 1) % range;
    assert a + q * range + range - 1 == (c + q) * range + r;
    RemainderIsUnique(a + q * range + range - 1, c + q, r, range);
  }

  /** The first draw that gives an outcome and is accepted. */
  function First(outcome: nat, range: nat): nat
    requires 0 < range < RANGE32
  {
    Ceil(outcome * RANGE32 + Threshold(range), range)
  }

  /** Draws that are accepted for an outcome form an interval whose length does not depend on it. */
  lemma AcceptedDrawsAreInterval(draw: nat, outcome: nat, range: nat)
    requires 0 < range < RANGE32
    ensures Accepted(draw, range) && Outcome(draw, range) == outcome
       <==> First(outcome, range) <= draw < First(outcome, range) + RANGE32 / range
  {
    var t, q, m := Threshold(range), RANGE32 / range, draw * range;
    ThresholdIsRemainder(range);
    var a := outcome * RANGE32 + t;
    AtLeastCeil(draw, a, range);
    AtLeastCeil(draw, a + q * range, range);
    CeilShifts(a, q, range);
    assert a + q * range == (outcome + 1) * RANGE32;
    InBand(m, outcome, t);
  }

  /** A product has this high half and a low half of at least t exactly if it lies in this band. */
  lemma InBand(m: nat, high: nat, t: nat)
    ensures m % RANGE32 >= t && m / RANGE32 == high <==> high * RANGE32 + t <= m < (high + 1) * RANGE32
  {
  }

  lemma IntervalIsBelow(outcome: nat, range: nat)
    requires outcome < range < RANGE32
    ensures First(outcome, range) + RANGE32 / range <= RANGE32
  {
    var t, q := Threshold(range), RANGE32 / range;
    ThresholdIsRemainder(range);
    var a := outcome * RANGE32 + t;
    CeilShifts(a, q, range);
    assert a + q * range == (outcome + 1) * RANGE32;
    assert (outcome + 1) * RANGE32 <= range * RANGE32;
    AtLeastCeil(RANGE32, (outcome + 1) * RANGE32, range);
  }

  ghost function Draws(outcome: nat, range: nat): set<nat>
    requires 0 < range < RANGE32
  {
    set x: nat | x < RANGE32 && Accepted(x, range) && Outcome(x, range) == outcome
  }

  lemma {:induction false} IntervalSize(lo: nat, n: nat, s: set<nat>)
    requires forall x: nat :: x in s <==> lo <= x < lo + n
    ensures |s| == n
    decreases n
  {
    if n == 0 {
      assert s == {};
    } else {
      IntervalSize(lo, n - 1, s - {lo + n - 1});
    }
  }

  /** Uniformity: of the 2^32 draws exactly floor(2^32 / range) are accepted for each outcome below range. */
  lemma EachOutcomeEquallyOften(outcome: nat, range: nat)
    requires outcome < range < RANGE32
    ensures |Draws(outcome, range)| == RANGE32 / range
  {
    IntervalIsBelow(outcome, range);
    forall x: nat
      ensures x in Draws(outcome, range) <==> First(outcome, range) <= x < First(outcome, range) + RANGE32 / range
    {
      AcceptedDrawsAreInterval(x, outcome, range);
    }
    IntervalSize(First(outcome, range), RANGE32 / range, Draws(outcome, range));
  }

  lemma OutcomeIsBelow(draw: nat, range: nat)
    requires draw < RANGE32
    ensures range > 0 ==> Outcome(draw, range) < range
    ensures range == 0 ==> Outcome(draw, range) == 0
  {
    if range > 0 {
      assert draw * range < RANGE32 * range;
    }
  }

  // ----- the generator -----

  /** The n-th draw from a state, counted from 0. */
  function DrawAt(state: State, n: nat): (r: nat)
    ensures r < RANGE32
  {
    DrawIsWord(StateAfter(state, n));
    Draw(StateAfter(state, n))
  }

  lemma OneIsAccepted(range: nat)
    requires 0 < range < RANGE32
    ensures Accepted(1, range)
  {
    ThresholdIsRemainder(range);
  }

  /** From every state some draw is accepted, whatever the range. */
  lemma SomeDrawIsAccepted(state: State, range: nat) returns (n: nat)
    requires 0 < range < RANGE32
    ensures Accepted(DrawAt(state, n), range)
  {
    n := EveryStateIsReached(state, STATE_OF_ONE);
    OneIsDrawn();
    OneIsAccepted(range);
  }

  class Pcg32 {
    var state: State

    constructor (state: State)
      ensures this.state == state
    {
      this.state := state;
    }

    /** pcg32_random. */
    method Random() returns (r: nat)
      modifies this`state
      ensures state == NextState(old(state)) && r == Draw(old(state)) < RANGE32
    {
      hide NextState, Draw;
      var oldstate := state;
      state := NextState(oldstate);
      r := Draw(oldstate);
      DrawIsWord(oldstate);
    }

    /** The two halves of the 64-bit product. */
    static method Multiply(draw: nat, range: nat) returns (leftover: nat, outcome: nat)
      ensures leftover == Leftover(draw, range) && outcome == Outcome(draw, range)
    {
      var multiresult := draw * range;
      leftover, outcome := multiresult % RANGE32, multiresult / RANGE32;
    }

    /**
     From every state: the first accepted draw decides, and there is one, so the loop ends. For a
     range of 0 nothing is looked at and the result is 0.
     */
    method RandomBounded(range: nat) returns (r: nat, ghost k: nat)
      requires range < RANGE32
      modifies this`state
      ensures range == 0 ==> r == 0 && k == 0
      ensures range > 0 ==> r < range
      ensures range > 0 ==>
                && Accepted(DrawAt(old(state), k), range)
                && forall j :: 0 <= j < k ==> !Accepted(DrawAt(old(state), j), range)
      ensures r == Outcome(DrawAt(old(state), k), range)
      ensures state == StateAfter(old(state), k + 1)
    {
      hide NextState, Draw, Outcome, Leftover, Threshold;
      k := 0;
      ghost var state0 := state;
      assert StateAfter(state0, 0) == state0;
      var random32bit := Random();
      var leftover;
      leftover, r := Multiply(random32bit, range);
      if leftover < range {
        var threshold := Threshold(range);
        ghost var n := SomeDrawIsAccepted(state0, range);
        while leftover < threshold
          invariant state == StateAfter(state0, k + 1) && random32bit == DrawAt(state0, k)
          invariant leftover == Leftover(random32bit, range) && r == Outcome(random32bit, range)
          invariant k <= n && forall j :: 0 <= j < k ==> !Accepted(DrawAt(state0, j), range)
          decreases n - k
        {
          k := k + 1;
          random32bit := Random();
          leftover, r := Multiply(random32bit, range);
        }
      } else if range > 0 {
        ThresholdIsRemainder(range);
      }
      OutcomeIsBelow(random32bit, range);
    }
  }
}
