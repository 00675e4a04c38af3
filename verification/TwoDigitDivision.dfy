/** Dividing two digits by two digits (D2DIVREM, DDIV2): trial quotients that may overshoot. */
module TwoDigitDivision {
  import opened Digits
  import opened Words

  const QUOT_LIM: int := 0x7FFF_FFFF_FFFF_FFFF

  /** The trial quotient, from the leading digits alone. */
  function Trial(a1: int, b1: int): (q: int)
    requires 1 <= b1 <= a1 < B
  {
    if b1 == 1 && a1 > 1 then a1 / 2
    else if a1 > QUOT_LIM && b1 < a1 then a1 / (b1 + 1)
    else a1 / b1
  }

  /** Rounding the divisor's leading digit up never overshoots. */
  lemma NoOvershoot(a1: int, a0: int, b1: int, b0: int, q: int, d: int)
    requires 0 <= a0 < B && 0 <= b0 < B && 1 <= q && 1 <= b1 < d && q * d <= a1 < B
    ensures q < B && 0 < q * (b1 * B + b0) <= a1 * B + a0
  {
    var b := b1 * B + b0;
    MulMonotone(b, d * B, q);
    MulMonotone(1, q, b);
    MulMonotone(1, d, q);
    assert q * (d * B) == (q * d) * B;
  }

  /** Keeping it may overshoot, but by less than half of a. */
  lemma BoundedOvershoot(a1: int, a0: int, b1: int, b0: int, q: int)
    requires 0 <= a0 < B && 0 <= b0 < B && 1 <= q && 2 <= b1 && q * b1 <= a1 <= QUOT_LIM
    ensures q < B && 0 < q * (b1 * B + b0) < BB && q * (b1 * B + b0) < 2 * (a1 * B + a0)
  {
    var b := b1 * B + b0;
    MulMonotone(b, b1 * B + B, q);
    MulMonotone(1, q, b);
    MulMonotone(2, b1, q);
    assert q * (b1 * B + B) == (q * b1) * B + q * B;
  }

  /** The trial product never needs a third digit, and the distance to zero always shrinks. */
  lemma TrialBounds(a: int, b: int)
    requires B <= b <= a < BB
    ensures 1 <= b / B <= a / B < B
    ensures var q := Trial(a / B, b / B); 1 <= q < B && 0 < q * b < BB && q * b < 2 * a
  {
    var a1, a0, b1, b0 := a / B, a % B, b / B, b % B;
    assert a == a1 * B + a0 && b == b1 * B + b0;
    TrialBoundsDigits(a1, a0, b1, b0);
  }

  lemma TrialBoundsDigits(a1: int, a0: int, b1: int, b0: int)
    requires 1 <= b1 <= a1 < B && 0 <= a0 < B && 0 <= b0 < B && b1 * B + b0 <= a1 * B + a0
    ensures var q, b := Trial(a1, b1), b1 * B + b0; 1 <= q < B && 0 < q * b < BB && q * b < 2 * (a1 * B + a0)
  {
    if a1 == b1 {
      SelfQuotient(a1);
      assert Trial(a1, b1) == 1;
    } else if b1 == 1 {
      RoundedUp(a1, a0, b1, b0, 2);
    } else if a1 > QUOT_LIM {
      RoundedUp(a1, a0, b1, b0, b1 + 1);
    } else {
      RoundedDown(a1, a0, b1, b0);
    }
  }

  lemma RoundedUp(a1: int, a0: int, b1: int, b0: int, d: int)
    requires 1 <= b1 < d <= a1 < B && 0 <= a0 < B && 0 <= b0 < B
    ensures var q := a1 / d; 1 <= q < B && 0 < q * (b1 * B + b0) <= a1 * B + a0 < BB
  {
    DivFact(a1, d);
    AtLeastOne(a1, d);
    NoOvershoot(a1, a0, b1, b0, a1 / d, d);
  }

  lemma RoundedDown(a1: int, a0: int, b1: int, b0: int)
    requires 2 <= b1 <= a1 <= QUOT_LIM && 0 <= a0 < B && 0 <= b0 < B
    ensures var q, b := a1 / b1, b1 * B + b0; 1 <= q < B && 0 < q * b < BB && q * b < 2 * (a1 * B + a0)
  {
    DivFact(a1, b1);
    AtLeastOne(a1, b1);
    BoundedOvershoot(a1, a0, b1, b0, a1 / b1);
  }

  lemma SelfQuotient(x: int)
    requires x >= 1
    ensures x / x == 1
  {
    DivFact(x, x);
    AtLeastOne(x, x);
    var k := x / x;
    if k >= 2 { MulMonotone(2, k, x); }
  }

  lemma AtLeastOne(x: int, d: int)
    requires 1 <= d <= x
    ensures x / d >= 1
  {
    DivFact(x, d);
    if x / d <= 0 { MulMonotone(x / d, 0, d); }
  }

  /** A run of the loop on numbers: quotient so far, whether the rest counts negatively, and the rest. */
  datatype Run = Run(q: int, neg: bool, a: int)

  /** One pass of the loop of D2DIVREM. */
  ghost function Next(s: Run, b: int): (t: Run)
    requires B <= b <= s.a < BB
    ensures 0 <= t.a < s.a
  {
    TrialBounds(s.a, b);
    var q1 := Trial(s.a / B, b / B);
    var q := if s.neg then s.q - q1 else s.q + q1;
    if q1 * b > s.a then Run(q, !s.neg, q1 * b - s.a) else Run(q, s.neg, s.a - q1 * b)
  }

  ghost function Loop(s: Run, b: int): Run
    requires B <= b < BB && 0 <= s.a < BB
    decreases s.a
  {
    if s.a < b then s else Loop(Next(s, b), b)
  }

  /** The number a state stands for. */
  ghost function Meaning(s: Run, b: int): int {
    if s.neg then s.q * b - s.a else s.q * b + s.a
  }

  lemma NextKeepsMeaning(s: Run, b: int)
    requires B <= b <= s.a < BB
    ensures Meaning(Next(s, b), b) == Meaning(s, b)
  {
    var q1 := Trial(s.a / B, b / B);
    assert (s.q - q1) * b == s.q * b - q1 * b;
    assert (s.q + q1) * b == s.q * b + q1 * b;
  }

  lemma {:induction false} LoopKeepsMeaning(s: Run, b: int)
    requires B <= b < BB && 0 <= s.a < BB
    ensures Meaning(Loop(s, b), b) == Meaning(s, b)
    ensures 0 <= Loop(s, b).a < b
    decreases s.a
  {
    if s.a >= b {
      NextKeepsMeaning(s, b);
      LoopKeepsMeaning(Next(s, b), b);
    }
  }

  /** What D2DIVREM delivers: on the negative side one divisor is added back. */
  ghost function Outcome(a: int, b: int): (r: (int, int))
    requires B <= b < BB && 0 <= a < BB
  {
    var s := Loop(Run(0, false, a), b);
    if s.neg then (s.q - 1, b - s.a) else (s.q, s.a)
  }

  /** Quotient and remainder fit together; the remainder reaches the divisor only in an exact division. */
  lemma OutcomeIsDivision(a: int, b: int)
    requires B <= b < BB && 0 <= a < BB
    ensures var (q, r) := Outcome(a, b);
            a == q * b + r && 0 <= r <= b && 0 <= q < B && (r == b ==> a == (q + 1) * b)
    ensures a > b ==> Outcome(a, b).0 >= 1
  {
    hide Loop, Outcome;
    LoopOfShort(a, b);
    OutcomeMeaning(a, b);
    QuotientRange(a, b, Outcome(a, b).0, Outcome(a, b).1);
  }

  /** Away from the multiples of the divisor the result is the exact quotient and remainder. */
  lemma ExactUnlessMultiple(a: int, b: int)
    requires B <= b < BB && 0 <= a < BB && a % b != 0
    ensures Outcome(a, b) == (a / b, a % b)
  {
    hide Outcome;
    OutcomeIsDivision(a, b);
    var (q, r) := Outcome(a, b);
    MultipleHasNoRemainder(q + 1, b);
    RemainderIsMod(a, q, b, r);
  }

  /** The result is off exactly when the loop ends on the negative side of a multiple of the divisor. */
  lemma ExactUnlessNegative(a: int, b: int)
    requires B <= b < BB && 0 <= a < BB
    ensures Outcome(a, b) == (a / b, a % b) <==> !(a % b == 0 && Loop(Run(0, false, a), b).neg)
  {
    hide Loop, Outcome;
    OutcomeIs(a, b);
    if a % b != 0 {
      ExactUnlessMultiple(a, b);
    } else {
      LoopKeepsMeaning(Run(0, false, a), b);
      var s := Loop(Run(0, false, a), b);
      if !s.neg {
        RemainderIsMod(a, s.q, b, s.a);
      }
    }
  }

  lemma MultipleHasNoRemainder(k: int, b: int)
    requires b >= 1
    ensures (k * b) % b == 0
  {
    RemainderIsMod(k * b, k, b, 0);
  }

  lemma LoopOfShort(a: int, b: int)
    requires B <= b < BB && 0 <= a < BB
    ensures a < b ==> Outcome(a, b).0 == 0
  {
  }

  lemma OutcomeMeaning(a: int, b: int)
    requires B <= b < BB && 0 <= a < BB
    ensures a == Outcome(a, b).0 * b + Outcome(a, b).1 && 0 <= Outcome(a, b).1 <= b
  {
    hide Loop;
    LoopKeepsMeaning(Run(0, false, a), b);
    var s := Loop(Run(0, false, a), b);
    assert (s.q - 1) * b == s.q * b - b;
  }

  lemma QuotientRange(a: int, b: int, q: int, r: int)
    requires B <= b && 0 <= a < BB && a == q * b + r && 0 <= r <= b && (a < b ==> q == 0)
    ensures 0 <= q < B && (a > b ==> q >= 1)
    ensures r == b ==> a == (q + 1) * b
  {
    if q < 0 {
      MulMonotone(q, -1, b);
    } else if q >= B {
      MulMonotone(B, q, b);
    }
  }

  /** An exact division that ends on the negative side: three times the divisor gives quotient two. */
  lemma ExactDivisionCanLoseOne()
    ensures var b := 2 * B + (B - 1);
            3 * b == 8 * B + (B - 3) && Outcome(3 * b, b) == (2, b)
  {
    var b := 2 * B + (B - 1);
    var s0 := Run(0, false, 3 * b);
    assert Trial(8, 2) == 4 && (3 * b) / B == 8 && b / B == 2;
    assert Next(s0, b) == Run(4, true, b);
    assert Trial(2, 2) == 1;
    assert Next(Run(4, true, b), b) == Run(3, true, 0);
    assert Loop(Run(3, true, 0), b) == Run(3, true, 0);
    assert Loop(Run(4, true, b), b) == Run(3, true, 0);
    assert Loop(s0, b) == Run(3, true, 0);
  }

  /** Two-digit product d times (b1, b0), when it fits two digits. */
  method MulTwo(d: Digit, b1: Digit, b0: Digit) returns (t1: Digit, t0: Digit)
    requires d * (b1 * B + b0) < BB
    ensures t1 * B + t0 == d * (b1 * B + b0)
  {
    var t2;
    t2, t0 := DMulC(d, b0, 0);
    t2, t1 := DMulC(d, b1, t2);
    assert d * (b1 * B + b0) == (d * b1) * B + d * b0;
    assert t2 == 0;
  }

  /** Two-digit difference of D2SUB, for a not below b. */
  function SubTwo(a1: Digit, a0: Digit, b1: Digit, b0: Digit): (r: (Digit, Digit))
    requires a1 * B + a0 >= b1 * B + b0
    ensures r.0 * B + r.1 == (a1 * B + a0) - (b1 * B + b0)
  {
    var (c0, k) := DSub(a0, b0);
    var (c1, k') := DSubB(a1, b1, k);
    assert k' == 0;
    (c1, c0)
  }

  predicate Greater(a1: Digit, a0: Digit, b1: Digit, b0: Digit) {
    a1 > b1 || (a1 == b1 && a0 > b0)
  }

  lemma WrapOfWrapped(x: int, k: int)
    ensures Wrap(Wrap(x) + k) == Wrap(x + k)
  {
    var w := x / B;
    assert x == B * w + Wrap(x);
  }

  lemma WrapOfDigit(x: int)
    requires 0 <= x < B
    ensures Wrap(x) == x
  {
  }

  /** One pass of the loop in machine words. */
  method StepTwo(q: Digit, neg: bool, a1: Digit, a0: Digit, b1: Digit, b0: Digit, ghost s: Run)
    returns (q': Digit, neg': bool, r1: Digit, r0: Digit)
    requires 1 <= b1 && b1 * B + b0 <= a1 * B + a0
    requires s.a == a1 * B + a0 && s.neg == neg && q == Wrap(s.q)
    ensures var t := Next(s, b1 * B + b0); t.a == r1 * B + r0 && t.neg == neg' && q' == Wrap(t.q)
  {
    hide Wrap, Trial;
    TrialBounds(s.a, b1 * B + b0);
    assert s.a / B == a1 && (b1 * B + b0) / B == b1;
    var q1: Digit := Trial(a1, b1);
    var t1, t0 := MulTwo(q1, b1, b0);
    ghost var k: int := q1;
    WrapOfWrapped(s.q, -k);
    WrapOfWrapped(s.q, k);
    q' := if neg then Wrap(q - q1) else Wrap(q + q1);
    if Greater(t1, t0, a1, a0) {
      var (d1, d0) := SubTwo(t1, t0, a1, a0);
      return q', !neg, d1, d0;
    }
    var (d1, d0) := SubTwo(a1, a0, t1, t0);
    return q', neg, d1, d0;
  }

  lemma LoopStep(s: Run, b: int)
    requires B <= b < BB && 0 <= s.a < BB
    ensures Loop(s, b) == if s.a < b then s else Loop(Next(s, b), b)
  {
  }

  lemma OutcomeIs(a: int, b: int)
    requires B <= b < BB && 0 <= a < BB
    ensures var s := Loop(Run(0, false, a), b); Outcome(a, b) == if s.neg then (s.q - 1, b - s.a) else (s.q, s.a)
  {
  }

  /** D2DIVREM in machine words computes the run on numbers. */
  method D2DivRem(a1: Digit, a0: Digit, b1: Digit, b0: Digit) returns (q: Digit, r1: Digit, r0: Digit)
    requires b1 >= 1
    ensures (q, r1 * B + r0) == Outcome(a1 * B + a0, b1 * B + b0)
  {
    hide Next, Wrap, Loop, Outcome;
    ghost var b := b1 * B + b0;
    WrapOfDigit(0);
    ghost var s0 := Run(0, false, a1 * B + a0);
    ghost var s := s0;
    q, r1, r0 := 0, a1, a0;
    var neg := false;
    while !Greater(b1, b0, r1, r0)
      invariant s.a == r1 * B + r0 && s.neg == neg && q == Wrap(s.q)
      invariant Loop(s, b) == Loop(s0, b)
      decreases s.a
    {
      LoopStep(s, b);
      q, neg, r1, r0 := StepTwo(q, neg, r1, r0, b1, b0, s);
      s := Next(s, b);
    }
    LoopStep(s, b);
    OutcomeIs(a1 * B + a0, b);
    OutcomeIsDivision(a1 * B + a0, b);
    WrapOfDigit(Outcome(a1 * B + a0, b).0);
    if neg {
      WrapOfWrapped(s.q, -1);
      q := Wrap(q - 1);
      var (d1, d0) := SubTwo(b1, b0, r1, r0);
      r1, r0 := d1, d0;
    }
  }
}
