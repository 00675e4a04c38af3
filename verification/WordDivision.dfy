/** Dividing a two-digit number by one digit with half-digit products only (D2PF, DDIVREM, DREM). */
module WordDivision {
  import opened Digits
  import opened Bits
  import opened Words

  /** One binary step of D2PF: shift by k bits when the top k bits are clear. */
  method NormalizeStep(ghost b: Digit, x: Digit, s: nat, k: nat, limit: Digit) returns (y: Digit, t: nat)
    requires x == b * Pow2(s)
    requires limit + 1 <= x * Pow2(k) && (limit + 1) * Pow2(k) == B
    ensures y == b * Pow2(t) && y > limit && s <= t <= s + k
  {
    hide Pow2;
    if x <= limit {
      NormalizeFits(x, limit, Pow2(k));
      ShiftOnce(b, x, s, k);
      y, t := Wrap(x * Pow2(k)), s + k;
    } else {
      y, t := x, s;
    }
  }

  lemma NormalizeFits(x: int, limit: int, p: int)
    requires 0 <= x <= limit && p >= 1 && (limit + 1) * p == B
    ensures 0 <= x * p < B && Wrap(x * p) == x * p
  {
    MulMonotone(x + 1, limit + 1, p);
    assert (x + 1) * p == x * p + p;
    MulSign(x, p);
  }

  lemma ShiftOnce(b: int, x: int, s: nat, k: nat)
    requires x == b * Pow2(s)
    ensures x * Pow2(k) == b * Pow2(s + k)
  {
    Pow2Add(s, k);
    MulAssoc(b, Pow2(s), Pow2(k));
  }

  lemma SmallPowers()
    ensures Pow2(0) == 1 && Pow2(1) == 2 && Pow2(2) == 4 && Pow2(4) == 16 && Pow2(8) == 256
    ensures Pow2(16) == 65536 && Pow2(32) == H
  {
    WordSizes();
    Pow2Add(1, 1);
    Pow2Add(2, 2);
    Pow2Add(4, 4);
    Pow2Add(8, 8);
  }

  /** D2PF: the number of leading zero bits of b. */
  method CountLeadingZeros(b: Digit) returns (s: nat)
    requires b != 0
    ensures s < 64 && B <= 2 * (b * Pow2(s)) < 2 * B
  {
    SmallPowers();
    var x: Digit;
    x, s := NormalizeStep(b, b, 0, 32, 0x0000_0000_FFFF_FFFF);
    x, s := NormalizeStep(b, x, s, 16, 0x0000_FFFF_FFFF_FFFF);
    x, s := NormalizeStep(b, x, s, 8, 0x00FF_FFFF_FFFF_FFFF);
    x, s := NormalizeStep(b, x, s, 4, 0x0FFF_FFFF_FFFF_FFFF);
    x, s := NormalizeStep(b, x, s, 2, 0x3FFF_FFFF_FFFF_FFFF);
    x, s := NormalizeStep(b, x, s, 1, 0x7FFF_FFFF_FFFF_FFFF);
  }

  /** q is not below the true quotient of u*H + w by v1*H + v0, and rh is what u leaves over q*v1. */
  ghost predicate Estimate(u: int, w: int, v1: int, v0: int, q: int, rh: int) {
    q * v1 + rh == u && u * H + w < (q + 1) * (v1 * H + v0)
  }

  /** The estimate from the leading half digit is never too small, and at most two too large. */
  method FirstEstimate(u: Digit, ghost w: int, v1: int, ghost v0: int) returns (q: Digit, rh: Digit)
    requires H <= 2 * v1 < 2 * H && 0 <= v0 < H && u < v1 * H + v0 && 0 <= w < H
    ensures q <= H + 1 && rh < v1 && Estimate(u, w, v1, v0, q, rh)
  {
    DivFact(u, v1);
    q := u / v1;
    rh := Wrap(u - Wrap(q * v1));
    SplitProduct(q + 1, v1, v0);
    assert (q + 1) * v1 == q * v1 + v1;
    MulSign(q + 1, v0);
    if q >= H + 2 {
      MulMonotone(H + 2, q, v1);
      assert false;
    }
  }

  lemma MulSign(a: int, b: int)
    requires a >= 0 && b >= 0
    ensures a * b >= 0
  {
  }

  lemma SplitProduct(q: int, v1: int, v0: int)
    ensures q * (v1 * H + v0) == (q * v1) * H + q * v0
  {
  }

  /** The remainder test of the loop is the exact comparison with q times the divisor. */
  lemma ExactTest(u: int, w: int, v1: int, v0: int, q: int, rh: int)
    requires Estimate(u, w, v1, v0, q, rh) && 0 <= q <= H + 1 && 0 <= v0 < H
    ensures u * H + w - q * (v1 * H + v0) == rh * H + w - q * v0
    ensures 0 <= q * v0 < B
    ensures q <= H ==> q * v0 <= B - H
  {
    SplitProduct(q, v1, v0);
    var limit := if q <= H then H else H + 1;
    MulMonotone(q, limit, v0);
    MulSign(q, v0);
  }

  /** When the test says so the estimate is too large, and one less is still an estimate. */
  lemma Lower(u: int, w: int, v1: int, v0: int, q: int, rh: int)
    requires Estimate(u, w, v1, v0, q, rh) && 0 <= u < v1 * H + v0 && 0 <= w < H
    requires q >= H || u * H + w < q * (v1 * H + v0)
    ensures q >= 1 && Estimate(u, w, v1, v0, q - 1, rh + v1)
  {
    var v := v1 * H + v0;
    if q >= H {
      MulMonotone(H, q, v);
    } else if q <= 0 {
      MulMonotone(q, 0, v);
      assert false;
    }
    assert (q - 1) * v1 == q * v1 - v1;
  }

  lemma BelowHalf(u: int, w: int, v: int, q: int)
    requires 0 <= u < v && 0 <= w < H && q * v <= u * H + w
    ensures q < H
  {
    if q >= H {
      MulMonotone(H, q, v);
    }
  }

  /** The loop condition of DDIVREM, in machine words. */
  predicate Exceeds(q: Digit, v0: int, rh: Digit, w: int) {
    q >= H || Wrap(q * v0) > Wrap(Wrap(rh * H) + w)
  }

  /** One half-digit quotient digit of DDIVREM: u is below the normalised divisor. */
  method HalfQuotient(u: Digit, w: int, v1: int, v0: int) returns (q: Digit)
    requires H <= 2 * v1 < 2 * H && 0 <= v0 < H && u < v1 * H + v0 && 0 <= w < H
    ensures q < H && q * (v1 * H + v0) <= u * H + w < (q + 1) * (v1 * H + v0)
  {
    var rh: Digit;
    q, rh := FirstEstimate(u, w, v1, v0);
    ExceedsIsExact(u, w, v1, v0, q, rh);
    ghost var v := v1 * H + v0;
    while Exceeds(q, v0, rh, w)
      invariant q <= H + 1 && rh < H && Estimate(u, w, v1, v0, q, rh)
      invariant Exceeds(q, v0, rh, w) <==> q >= H || u * H + w < q * v
      decreases q
    {
      Lower(u, w, v1, v0, q, rh);
      q, rh := q - 1, rh + v1;
      if rh >= H {
        LargeRemainder(u, w, v1, v0, q, rh);
        break;
      }
      ExceedsIsExact(u, w, v1, v0, q, rh);
    }
    BelowHalf(u, w, v, q);
  }

  lemma ExceedsIsExact(u: int, w: int, v1: int, v0: int, q: Digit, rh: Digit)
    requires Estimate(u, w, v1, v0, q, rh) && 0 <= q <= H + 1 && 0 <= v0 < H && 0 <= w < H && rh < H
    ensures Exceeds(q, v0, rh, w) <==> q >= H || u * H + w < q * (v1 * H + v0)
  {
    ExactTest(u, w, v1, v0, q, rh);
    NoWrap(q * v0, rh, w);
  }

  lemma NoWrap(p: int, rh: int, w: int)
    requires 0 <= p < B && 0 <= rh < H && 0 <= w < H
    ensures Wrap(p) == p && Wrap(Wrap(rh * H) + w) == rh * H + w
  {
  }

  /** Once the partial remainder reaches H the estimate cannot be too large. */
  lemma LargeRemainder(u: int, w: int, v1: int, v0: int, q: int, rh: int)
    requires Estimate(u, w, v1, v0, q, rh) && 0 <= q <= H && 0 <= v0 < H && 0 <= w && rh >= H
    ensures q * (v1 * H + v0) <= u * H + w
  {
    ExactTest(u, w, v1, v0, q, rh);
  }

  /** Splitting a shifted digit at the word boundary. */
  lemma ShiftAcross(a: Digit, s: nat)
    requires 0 < s < 64
    ensures a * Pow2(s) == a / Pow2(64 - s) * B + Wrap(a * Pow2(s))
    ensures 0 <= a / Pow2(64 - s) < Pow2(s)
  {
    var p, p' := Pow2(s), Pow2(64 - s);
    assert p * p' == B by { WordSizes(); Pow2Add(s, 64 - s); }
    var hi, t := a / p', a % p';
    assert a == hi * p' + t;
    ShiftAcrossArithmetic(a, hi, t, p, p');
    assert (a * p) % B == t * p by { ModUnique(a * p, hi, t * p); }
  }

  lemma ShiftAcrossArithmetic(a: int, hi: int, t: int, p: int, p': int)
    requires p >= 1 && p' >= 1 && p * p' == B
    requires a == hi * p' + t && 0 <= t < p' && 0 <= a < B
    ensures a * p == hi * B + t * p && 0 <= t * p < B && 0 <= hi < p
  {
    assert (hi * p') * p == hi * B by { MulAssoc(hi, p', p); }
    MulMonotone(t, p' - 1, p);
    MulSign(t, p);
    if hi < 0 {
      MulMonotone(hi, -1, p');
      assert false;
    } else if hi >= p {
      MulMonotone(p, hi, p');
      assert false;
    }
  }

  /** The dividend shifted by the same amount as the divisor, as two words. */
  method ShiftDividend(a1: Digit, a0: Digit, b: Digit, s: nat) returns (un32: Digit, un10: Digit)
    requires a1 < b && s < 64 && b * Pow2(s) < B
    ensures un32 * B + un10 == (a1 * B + a0) * Pow2(s)
    ensures un32 < b * Pow2(s)
  {
    un10 := Wrap(a0 * Pow2(s));
    if s != 0 {
      var hi := a0 / Pow2(64 - s);
      ShiftAcross(a0, s);
      ShiftedPair(a1, a0, b, Pow2(s), hi, un10);
      OrIsPlus(s, a1, hi);
      un32 := Or(Wrap(a1 * Pow2(s)), And(hi, -1));
    } else {
      un32 := a1;
    }
  }

  lemma ShiftedPair(a1: int, a0: int, b: int, p: int, hi: int, lo: int)
    requires p >= 1 && 0 <= a1 < b && b * p < B
    requires a0 * p == hi * B + lo && 0 <= hi < p
    ensures 0 <= p * a1 == a1 * p && a1 * p + hi < b * p
    ensures Wrap(a1 * p) == p * a1
    ensures (a1 * p + hi) * B + lo == (a1 * B + a0) * p
  {
    MulMonotone(a1 + 1, b, p);
    assert (a1 + 1) * p == a1 * p + p;
    MulSign(a1, p);
    assert (a1 * B + a0) * p == (a1 * p) * B + a0 * p;
  }

  lemma WrapDifference(x: int, w: int, y: int)
    requires 0 <= x + w - y < B
    ensures Wrap(Wrap(x) + w - Wrap(y)) == x + w - y
  {
    ModUnique(Wrap(x) + w - Wrap(y), y / B - x / B, x + w - y);
  }

  /** One step of the long division by half digits: quotient digit and remainder. */
  method HalfStep(u: Digit, w: int, v: Digit) returns (q: Digit, r: Digit)
    requires B <= 2 * v && u < v && 0 <= w < H
    ensures q < H && u * H + w == q * v + r && r < v
  {
    HalfMasks(v);
    q := HalfQuotient(u, w, v / H, And(v, LO_MASK));
    assert v / H * H + v % H == v;
    WrapDifference(u * H, w, q * v);
    r := Wrap(Wrap(u * H) + w - Wrap(q * v));
  }

  /** Both quotient halves, for a divisor with its top bit set. */
  method DivideNormalized(un32: Digit, un10: Digit, v: Digit) returns (q: Digit, rest: Digit)
    requires B <= 2 * v && un32 < v
    ensures un32 * B + un10 == q * v + rest && rest < v
  {
    hide Wrap;
    HalfMasks(un10);
    var q1, un21 := HalfStep(un32, un10 / H, v);
    var q0;
    q0, rest := HalfStep(un21, And(un10, LO_MASK), v);
    HighHalf(q1);
    q := Wrap(q1 * H) + q0;
    JoinQuotient(un32, un10, q1, un21, q0, rest, v);
  }

  lemma HighHalf(q: int)
    requires 0 <= q < H
    ensures Wrap(q * H) == q * H <= B - H
  {
  }

  /** DDIVREM: exact quotient and remainder of (a1*B + a0) / b for a1 < b. */
  method DDivRem(a1: Digit, a0: Digit, b: Digit) returns (q: Digit, r: Digit)
    requires a1 < b
    ensures a1 * B + a0 == q * b + r && r < b
  {
    var s := CountLeadingZeros(b);
    var v := Wrap(b * Pow2(s));
    var un32, un10 := ShiftDividend(a1, a0, b, s);
    var rest;
    q, rest := DivideNormalized(un32, un10, v);
    Unshift(a1 * B + a0, q, b, rest, Pow2(s));
    r := rest / Pow2(s);
  }

  lemma JoinQuotient(un32: int, un10: int, q1: int, un21: int, q0: int, rest: int, v: int)
    requires un32 * H + un10 / H == q1 * v + un21
    requires un21 * H + un10 % H == q0 * v + rest
    ensures un32 * B + un10 == (q1 * H + q0) * v + rest
  {
    assert un10 == un10 / H * H + un10 % H;
    assert (q1 * H + q0) * v == (q1 * v) * H + q0 * v;
  }

  /** Undoing the normalising shift on the remainder. */
  lemma Unshift(n: int, q: int, b: int, rest: int, p: int)
    requires p >= 1 && n * p == q * (b * p) + rest && 0 <= rest < b * p
    ensures n == q * b + rest / p && 0 <= rest / p < b
  {
    assert q * (b * p) == (q * b) * p by { MulAssoc(q, b, p); }
    assert rest == (n - q * b) * p;
    DivFact(rest, p);
    Cancel(n - q * b, rest / p, p);
    if rest / p >= b {
      MulMonotone(b, rest / p, p);
      assert false;
    }
  }

  lemma Cancel(x: int, y: int, p: int)
    requires p >= 1 && y * p <= x * p < y * p + p
    ensures x == y
  {
    if x < y {
      MulMonotone(x, y - 1, p);
    } else if x > y {
      MulMonotone(y + 1, x, p);
    }
  }

  /** DREM: the remainder of any two-digit number, reducing the high digit first. */
  method DRem(a1: Digit, a0: Digit, b: Digit) returns (r: Digit)
    requires b != 0
    ensures r < b && exists q: int :: a1 * B + a0 == q * b + r
  {
    DivFact(a1, b);
    var q;
    q, r := DDivRem(a1 % b, a0, b);
    ghost var k := a1 / b;
    assert a1 == k * b + a1 % b;
    assert a1 * B + a0 == (k * B + q) * b + r;
  }
}
