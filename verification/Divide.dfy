/** One step of long division: the quotient digit guessed from two digits, and D_mulsub that takes its multiple off. */
module Divide {
  import Bits
  import opened Digits
  import opened Words
  import opened WordDivision
  import opened TwoDigitDivision
  import opened Vectors

  /** After j digits of w - d*y, the debt k is still to be taken from the next place. */
  ghost predicate DebtInv(d: Digit, ys: seq<Digit>, w: seq<Digit>, ds: seq<Digit>, j: nat, k: int) {
    j == |ds| && j <= |ys| && j <= |w| &&
    Value(w[..j]) - d * Value(ys[..j]) == Value(ds) - k * Pow(j)
  }

  lemma DebtStart(d: Digit, ys: seq<Digit>, w: seq<Digit>)
    ensures DebtInv(d, ys, w, [], 0, 0)
  {
  }

  lemma DebtDigit(d: Digit, ys: seq<Digit>, w: seq<Digit>, ds: seq<Digit>, j: nat, s: Digit, k: int, k': int)
    requires DebtInv(d, ys, w, ds, j, k) && j < |ys| && j < |w|
    requires w[j] - d * ys[j] - k == s - B * k'
    ensures DebtInv(d, ys, w, ds + [s], j + 1, k')
  {
    hide Value;
    ValueTake(ys, j);
    ValueTake(w, j);
    ValueSnoc(ds, s);
    DebtArithmetic(d, ys[j], w[j], Value(ys[..j]), s, k, k', Pow(j));
  }

  lemma DebtArithmetic(d: int, y: int, w: int, v: int, s: int, k: int, k': int, p: int)
    requires w - d * y - k == s - B * k'
    ensures w * p - d * (v + y * p) - k * p == s * p - d * v - k' * (B * p)
  {
    assert (w - d * y - k) * p == (s - B * k') * p;
    assert (d * y) * p == d * (y * p);
  }

  /** One digit of D_mulsub. */
  method MulSubDigit(x: Digit, d: Digit, y: Digit, c: Digit, b: Digit) returns (s: Digit, c': Digit, b': Digit)
    requires b <= 1
    ensures x - d * y - (c + b) == s - B * (c' + b') && b' <= 1
  {
    var c0;
    c', c0 := DMulC(d, y, c);
    var (s0, b0) := DSubB(x, c0, b);
    s, b' := s0, b0;
  }

  /** The loop of D_mulsub. */
  method MulSubDigits(r: array<Digit>, o: nat, d: Digit, y: array<Digit>, yl: nat)
    returns (ghost ds: seq<Digit>, c: Digit, b: Digit)
    requires o + yl <= r.Length && yl <= y.Length && r != y
    modifies r
    ensures |ds| == yl && r[..] == Overwrite(old(r[..]), o, ds) && b <= 1
    ensures DebtInv(d, y[..yl], old(r[o..o + yl]), ds, yl, c as int + b as int)
  {
    hide DebtInv;
    ghost var ys, w, r0 := y[..yl], r[o..o + yl], r[..];
    DebtStart(d, ys, w);
    ds := [];
    c, b := 0, 0;
    var j := 0;
    while j < yl
      invariant 0 <= j <= yl && |ds| == j && r[..] == Overwrite(r0, o, ds) && b <= 1
      invariant DebtInv(d, ys, w, ds, j, c as int + b as int)
    {
      OverwriteNext(r0, o, ds, 0);
      assert r[o + j] == w[j] && y[j] == ys[j];
      var s, c', b' := MulSubDigit(r[o + j], d, y[j], c, b);
      DebtDigit(d, ys, w, ds, j, s, c as int + b as int, c' as int + b' as int);
      OverwriteNext(r0, o, ds, s);
      r[o + j] := s;
      ds := ds + [s];
      c, b := c', b';
      j := j + 1;
    }
  }

  /** The result digits ds of w - d*y, with k times the weight of the next place borrowed. */
  ghost predicate Difference(w: seq<Digit>, d: Digit, ys: seq<Digit>, ds: seq<Digit>, k: int) {
    |ds| == |w| && k >= 0 && Value(ds) == Value(w) - d * Value(ys) + k * Pow(|w|)
  }

  lemma DebtSameLength(d: Digit, ys: seq<Digit>, w: seq<Digit>, ds: seq<Digit>, k: int)
    requires |w| == |ys| && k >= 0 && DebtInv(d, ys, w, ds, |ys|, k)
    ensures Difference(w, d, ys, ds, k)
  {
    assert w[..|ys|] == w && ys[..|ys|] == ys;
  }

  lemma DebtOneLonger(d: Digit, ys: seq<Digit>, w: seq<Digit>, ds: seq<Digit>, k: int, s: Digit, k': int)
    requires |w| == |ys| + 1 && k' >= 0 && DebtInv(d, ys, w[..|ys|], ds, |ys|, k)
    requires w[|ys|] - k == s - B * k'
    ensures Difference(w, d, ys, ds + [s], k')
  {
    hide Value;
    var n := |ys|;
    assert w[..n][..n] == w[..n] && ys[..n] == ys && w[..n + 1] == w;
    ValueTake(w, n);
    ValueSnoc(ds, s);
    BorrowArithmetic(w[n], 0, s, k, k', Pow(n));
  }

  /** D_mulsub, in place: n digits of r at offset o minus d*y; length 0 reports a borrow. */
  method DMulSub(r: array<Digit>, o: nat, n: nat, d: Digit, y: array<Digit>, yl: nat)
    returns (ghost ds: seq<Digit>, ghost k: int, m: nat)
    requires 1 <= yl <= y.Length && yl <= n <= yl + 1 && o + n <= r.Length && r != y
    modifies r
    ensures |ds| == n && r[..] == Overwrite(old(r[..]), o, ds)
    ensures Difference(old(r[o..o + n]), d, y[..yl], ds, k)
    ensures m == 0 <==> k != 0
    ensures m != 0 ==> Stripped(ds, m)
  {
    hide DebtInv, Difference;
    ghost var ys, w, r0 := y[..yl], r[o..o + n], r[..];
    assert w[..yl] == r[o..o + yl];
    var c, b;
    ds, c, b := MulSubDigits(r, o, d, y, yl);
    if n == yl {
      k := c as int + b as int;
      DebtSameLength(d, ys, w, ds, k);
      if c != 0 || b != 0 {
        return ds, k, 0;
      }
    } else {
      OverwriteNext(r0, o, ds, 0);
      assert r[o + yl] == w[yl];
      var (s, b') := DSubB(r[o + yl], c, b);
      DebtOneLonger(d, ys, w, ds, c as int + b as int, s, b');
      OverwriteNext(r0, o, ds, s);
      r[o + yl] := s;
      ds, k := ds + [s], b' as int;
      if b' != 0 {
        return ds, k, 0;
      }
    }
    OverwriteWindow(r0, o, ds);
    m := Strip(r, o, n, ds);
  }

  /** A vector as low part, window and high part. */
  lemma WindowValue(s: seq<Digit>, o: nat, n: nat)
    requires o + n <= |s|
    ensures Value(s) == Value(s[..o]) + Pow(o) * Value(s[o..o + n]) + Pow(o + n) * Value(s[o + n..])
  {
    hide Value, Pow;
    var low, w, high := s[..o], s[o..o + n], s[o + n..];
    assert s == (low + w) + high;
    ValueSplit(low + w, high);
    ValueSplit(low, w);
  }

  /** Writing digits into a window changes the value by the window's change times its weight. */
  lemma OverwriteValue(s: seq<Digit>, o: nat, ds: seq<Digit>)
    requires o + |ds| <= |s|
    ensures Value(Overwrite(s, o, ds)) == Value(s) + Pow(o) * (Value(ds) - Value(s[o..o + |ds|]))
  {
    hide Value, Pow, Overwrite;
    OverwriteParts(s, o, ds);
    WindowValue(s, o, |ds|);
    WindowValue(Overwrite(s, o, ds), o, |ds|);
    Distribute(Pow(o), Value(ds), Value(s[o..o + |ds|]));
  }

  /** The same, for a window changed by e. */
  lemma OverwriteDelta(s: seq<Digit>, o: nat, ds: seq<Digit>, e: int)
    requires o + |ds| <= |s| && Value(ds) == Value(s[o..o + |ds|]) + e
    ensures Value(Overwrite(s, o, ds)) == Value(s) + e * Pow(o)
  {
    hide Value, Pow, Overwrite;
    OverwriteParts(s, o, ds);
    WindowValue(s, o, |ds|);
    WindowValue(Overwrite(s, o, ds), o, |ds|);
    DeltaArithmetic(Value(ds), Value(s[o..o + |ds|]), e, Pow(o));
  }

  lemma DeltaArithmetic(d: int, w: int, e: int, p: int)
    requires d == w + e
    ensures p * d == p * w + e * p
  {
  }

  lemma Distribute(p: int, a: int, b: int)
    ensures p * (a - b) == p * a - p * b
  {
  }

  /** A vector whose digits from n on are zero is below B^n. */
  lemma ShortValue(s: seq<Digit>, n: nat)
    requires n <= |s| && AllZero(s[n..])
    ensures Value(s) == Value(s[..n]) < Pow(n)
  {
    ValueDropZeros(s, n);
    ValueBound(s[..n]);
  }

  /** The reverse: a normal vector below B^n has at most n digits. */
  lemma NormalLength(s: seq<Digit>, n: nat)
    requires Normal(s) && n >= 1 && Value(s) < Pow(n)
    ensures |s| <= n
  {
    if |s| > n {
      PowMonotone(n, |s| - 1);
      NormalLowerBound(s);
    }
  }

  /** Subtracting d*y from a window: borrowing means the multiple exceeds the whole vector. */
  lemma WindowDecides(s: seq<Digit>, o: nat, n: nat, dy: int)
    requires o + n <= |s| && AllZero(s[o + n..])
    ensures dy <= Value(s[o..o + n]) ==> dy * Pow(o) <= Value(s)
    ensures dy > Value(s[o..o + n]) ==> dy * Pow(o) > Value(s)
  {
    hide Value, Pow;
    WindowValue(s, o, n);
    ValueOfZeros(s[o + n..]);
    ValueBound(s[..o]);
    WindowDecidesArithmetic(Value(s), Value(s[..o]), Value(s[o..o + n]), Pow(o), Pow(o + n), dy);
  }

  lemma WindowDecidesArithmetic(v: int, low: int, w: int, p: int, q: int, dy: int)
    requires 0 <= low < p && v == low + p * w + q * 0
    ensures dy <= w ==> dy * p <= v
    ensures dy > w ==> dy * p > v
  {
    if dy <= w {
      MulMonotone(dy, w, p);
    } else {
      MulMonotone(w + 1, dy, p);
    }
  }

  /** The state of a division step on the remainder vector, as numbers. */
  ghost predicate StepBounds(w: int, dy: int, n: nat)
  {
    n >= 2 && dy < w + Pow(n - 1)
  }

  /** A borrow of D_mulsub takes exactly one unit of the next place. */
  lemma BorrowIsOne(w: seq<Digit>, d: Digit, ys: seq<Digit>, ds: seq<Digit>, k: int)
    requires Difference(w, d, ys, ds, k) && StepBounds(Value(w), d * Value(ys), |w|)
    ensures k == 0 <==> d * Value(ys) <= Value(w)
    ensures k != 0 ==> k == 1
  {
    hide Value;
    ValueBound(ds);
    ValueBound(w);
    var p := Pow(|w|);
    if k >= 2 {
      MulMonotone(2, k, p);
      assert false;
    }
  }

  /** D_mulsub on the whole vector, when nothing is borrowed. */
  lemma SubtractedWindow(s: seq<Digit>, o: nat, d: Digit, ys: seq<Digit>, ds: seq<Digit>, k: int)
    requires o + |ds| <= |s| && Difference(s[o..o + |ds|], d, ys, ds, k)
    ensures Value(Overwrite(s, o, ds)) == Value(s) - (d * Value(ys)) * Pow(o) + k * Pow(o + |ds|)
  {
    hide Value, Pow, Overwrite;
    SubtractedNumber(s, o, d * Value(ys), ds, k);
  }

  lemma SubtractedNumber(s: seq<Digit>, o: nat, dy: int, ds: seq<Digit>, k: int)
    requires o + |ds| <= |s| && Value(ds) == Value(s[o..o + |ds|]) - dy + k * Pow(|ds|)
    ensures Value(Overwrite(s, o, ds)) == Value(s) - dy * Pow(o) + k * Pow(o + |ds|)
  {
    hide Value, Pow, Overwrite;
    OverwriteValue(s, o, ds);
    PowAdd(o, |ds|);
    SubtractedArithmetic(Value(s), Value(Overwrite(s, o, ds)), Value(ds), Value(s[o..o + |ds|]),
                         dy, k, Pow(o), Pow(|ds|));
  }

  lemma SubtractedArithmetic(v: int, v': int, ds: int, w: int, dy: int, k: int, p: int, q: int)
    requires v' == v + p * (ds - w) && ds == w - dy + k * q
    ensures v' == v - dy * p + k * (p * q)
  {
    assert p * (k * q - dy) == p * (k * q) - p * dy;
    assert p * (k * q) == k * (p * q);
  }

  /** An overshoot is smaller than the place below the remainder's leading digit. */
  lemma OvershootBound(s: seq<Digit>, o: nat, n: nat, dy: int)
    requires o + n <= |s| && AllZero(s[o + n..]) && StepBounds(Value(s[o..o + n]), dy, n)
    ensures dy * Pow(o) - Value(s) < Pow(o + n - 1)
  {
    hide Value, Pow;
    WindowValue(s, o, n);
    ValueOfZeros(s[o + n..]);
    PowAdd(o, n - 1);
    OvershootArithmetic(Value(s), Value(s[..o]), Value(s[o..o + n]), Pow(o), Pow(o + n), Pow(n - 1), dy);
  }

  lemma OvershootArithmetic(v: int, low: int, w: int, p: int, q: int, t: int, dy: int)
    requires p >= 1 && 0 <= low && v == low + p * w + q * 0 && dy < w + t
    ensures dy * p - v < p * t
  {
    MulMonotone(dy + 1, w + t, p);
  }

  lemma ZerosFrom(s: seq<Digit>, t: seq<Digit>, o: nat, ds: seq<Digit>, m: nat)
    requires o + |ds| <= |s| && AllZero(s[o + |ds|..]) && t == Overwrite(s, o, ds)
    requires m <= |ds| && AllZero(ds[m..])
    ensures |t| == |s| && AllZero(t[o + m..])
  {
    assert t[o + m..] == ds[m..] + s[o + |ds|..];
  }

  /** The negation after a borrow: Z_sub over the whole remainder, and the new window length. */
  method NegateRest(r: array<Digit>, rl: nat, rp: nat, nsz: nat) returns (nnsz: nat)
    requires 2 <= nsz && rp + nsz == rl <= r.Length && AllZero(r[rl..]) && Value(r[..]) > 0
    modifies r
    ensures Value(r[..]) == Pow(rl) - old(Value(r[..]))
    ensures 1 <= nnsz <= nsz && AllZero(r[rp + nnsz..])
    ensures Value(r[..]) < Pow(rl - 1) ==> nnsz < nsz
  {
    hide Value, Pow;
    ghost var s := r[..];
    ShortValue(s, rl);
    assert r[..rl] == s[..rl];
    ghost var ds;
    var n;
    ds, n := ZSub(r, rl, r);
    ZerosFrom(s, r[..], 0, ds, n);
    ShortValue(r[..], n);
    OverwriteWindow(s, 0, ds);
    assert r[..n] == ds[..n];
    if nsz > rl - n {
      nnsz := nsz - (rl - n);
    } else {
      nnsz := 1;
    }
    if Value(r[..]) < Pow(rl - 1) {
      NormalLength(ds[..n], rl - 1);
    }
  }

  /** One division step on the remainder: |R - d*Y*B^rp|, its sign, and the length of its window. */
  method Reduce(r: array<Digit>, rp: nat, nsz: nat, rl: nat, d: Digit, y: array<Digit>, yl: nat)
    returns (nnsz: nat, flip: bool)
    requires 2 <= yl <= y.Length && yl <= nsz <= yl + 1 && rp + nsz == rl <= r.Length && r != y
    requires AllZero(r[rl..])
    requires StepBounds(Value(r[rp..rl]), d * Value(y[..yl]), nsz)
    modifies r
    ensures nnsz <= nsz && AllZero(r[rp + nnsz..]) && (nnsz == 1 ==> r[rp] != 0)
    ensures flip <==> old(Value(r[..])) < (d * Value(y[..yl])) * Pow(rp)
    ensures !flip ==> Value(r[..]) == old(Value(r[..])) - (d * Value(y[..yl])) * Pow(rp)
    ensures flip ==> Value(r[..]) == (d * Value(y[..yl])) * Pow(rp) - old(Value(r[..])) < Pow(rl - 1)
    ensures flip || old(Value(r[rp..rl])) < d * Value(y[..yl]) + Pow(nsz - 1) ==> nnsz < nsz
  {
    hide Value, Pow, Difference;
    ghost var s, ys := r[..], y[..yl];
    ghost var dy := d * Value(ys);
    ghost var w := r[rp..rl];
    assert s[rp..rp + nsz] == w && s[rp + nsz..] == r[rl..];
    OvershootBound(s, rp, nsz, dy);
    WindowDecides(s, rp, nsz, dy);
    ghost var ds, k;
    ds, k, nnsz := DMulSub(r, rp, nsz, d, y, yl);
    BorrowIsOne(w, d, ys, ds, k);
    SubtractedWindow(s, rp, d, ys, ds, k);
    ZerosFrom(s, r[..], rp, ds, nsz);
    flip := false;
    if nnsz == 0 {
      PowMonotone(rl - 1, rl);
      nnsz := NegateRest(r, rl, rp, nsz);
      flip := true;
    } else {
      ZerosFrom(s, r[..], rp, ds, nnsz);
      StrippedLength(w, d, ys, ds, nnsz);
    }
    if nnsz == 1 && r[rp] == 0 {
      assert r[rp..] == [r[rp]] + r[rp + 1..];
      nnsz := 0;
    }
  }

  lemma StrippedLength(w: seq<Digit>, d: Digit, ys: seq<Digit>, ds: seq<Digit>, m: nat)
    requires |w| >= 2 && Difference(w, d, ys, ds, 0) && Stripped(ds, m)
    ensures Value(w) < d * Value(ys) + Pow(|w| - 1) ==> m < |w|
  {
    hide Value, Pow;
    if Value(w) < d * Value(ys) + Pow(|w| - 1) {
      NormalLength(ds[..m], |w| - 1);
    }
  }

  /** What the trial quotient of I_div promises, for leading digits (a1, a2) and (b1, b2). */
  ghost predicate Usable(a1: int, a2: int, b1: int, b2: int, d: int, shift: bool) {
    (shift <==> a1 < b1 || (a1 == b1 && a2 < b2)) &&
    (a1 > b1 ==> d >= 1 && d * (b1 * B + b2) <= a1 * B + a2) &&
    (a1 < b1 ==> d * b1 <= a1 * B + a2 < d * b1 + b1) &&
    (a1 == b1 ==> d == if shift then D_MASK else 1)
  }

  /** The choice of a quotient digit in I_div and I_rem. */
  method TrialQuotient(a1: Digit, a2: Digit, b1: Digit, b2: Digit) returns (d: Digit, shift: bool)
    requires b1 >= 1
    ensures Usable(a1, a2, b1, b2, d, shift)
  {
    if b1 < a1 {
      var r1, r0;
      d, r1, r0 := D2DivRem(a1, a2, b1, b2);
      OutcomeIsDivision(a1 * B + a2, b1 * B + b2);
      shift := false;
    } else if b1 > a1 {
      var r;
      d, r := DDivRem(a1, a2, b1);
      shift := true;
    } else if b2 <= a2 {
      d, shift := 1, false;
    } else {
      d, shift := D_MASK, true;
    }
  }

  /** The two leading digits of a vector. */
  lemma TopTwo(s: seq<Digit>)
    requires |s| >= 2
    ensures var n := |s|;
            0 <= Value(s) - (s[n - 1] * B + s[n - 2]) * Pow(n - 2) < Pow(n - 2)
    ensures 0 <= Value(s) - s[|s| - 1] * Pow(|s| - 1) < Pow(|s| - 1)
    ensures Pow(|s| - 1) == B * Pow(|s| - 2)
  {
    hide Value, Pow;
    var n := |s|;
    NextPow(n - 2);
    ValueTake(s, n - 1);
    ValueTake(s, n - 2);
    assert s[..n] == s;
    ValueBound(s[..n - 2]);
    ValueBound(s[..n - 1]);
    TopTwoArithmetic(s[n - 1], s[n - 2], Pow(n - 2));
  }

  lemma TopTwoArithmetic(s1: int, s2: int, t: int)
    ensures (s1 * B + s2) * t == s1 * (B * t) + s2 * t
  {
  }

  /** d times a number with leading part b over weight t: at least d*b*t, and less than B*t more. */
  lemma ProductOfLeading(d: int, b: int, y: int, t: int)
    requires 0 <= d < B && t >= 1 && 0 <= y - b * t < t
    ensures (d * b) * t <= d * y < (d * b) * t + B * t
  {
    var y' := y - b * t;
    assert d * y == d * (b * t) + d * y';
    assert d * (b * t) == (d * b) * t;
    MulSign(d, y');
    MulMonotone(y', t, d);
    MulMonotone(d + 1, B, t);
  }

  /** The trial quotient on numbers: y has leading digits (b1, b2) over weight t,
      w has leading digits a over weight t. */
  lemma EstimateWithoutShift(a: int, b1: int, b2: int, d: int, w: int, y: int, t: int)
    requires t >= 1 && 0 <= b1 && 0 <= b2 && 0 <= d < B && d * (b1 * B + b2) <= a
    requires 0 <= w - a * t && 0 <= y - (b1 * B + b2) * t < t
    ensures (d * b1) * (B * t) <= w
    ensures d * y < w + B * t
  {
    ProductOfLeading(d, b1 * B + b2, y, t);
    MulMonotone(d * (b1 * B + b2), a, t);
    LeadingPart(d, b1, b2, t);
  }

  lemma LeadingPart(d: int, b1: int, b2: int, t: int)
    requires d >= 0 && b2 >= 0 && t >= 0
    ensures (d * b1) * (B * t) <= (d * (b1 * B + b2)) * t
  {
    MulSign(d, b2);
    MulSign(d * b2, t);
    assert d * (b1 * B + b2) == (d * b1) * B + d * b2;
    assert ((d * b1) * B + d * b2) * t == (d * b1) * (B * t) + (d * b2) * t;
  }

  /** The same with the window one digit longer, dividing by the leading digit alone. */
  lemma EstimateWithShift(a: int, b1: int, d: int, w: int, y: int, p: int)
    requires p >= 1 && 0 <= d < B && 1 <= b1 < B && d * b1 <= a < d * b1 + b1
    requires 0 <= w - a * p < p && 0 <= y - b1 * p < p
    ensures (d * b1) * p <= w
    ensures d * y < w + B * p
    ensures w < d * y + B * p
  {
    ProductOfLeading(d, b1, y, p);
    ShiftArithmetic(a, d * b1, b1, p);
  }

  lemma ShiftArithmetic(a: int, e: int, b1: int, p: int)
    requires p >= 1 && 1 <= b1 < B && e <= a < e + b1
    ensures e * p <= a * p && a * p + p <= e * p + b1 * p && b1 * p <= B * p
  {
    MulMonotone(e, a, p);
    MulMonotone(a + 1, e + b1, p);
    MulMonotone(b1, B, p);
    OneMore(a, p);
    assert (e + b1) * p == e * p + b1 * p;
  }

  /** Equal leading digits: the quotient digit is one, or the largest digit when the window is longer. */
  lemma EstimateEqualWithoutShift(b1: int, w: int, y: int, p: int)
    requires p >= 1 && 0 <= w - b1 * p < p && 0 <= y - b1 * p < p
    ensures b1 * p <= w && y < w + p && w < y + p
  {
  }

  lemma EstimateEqualWithShift(a: int, b1: int, b2: int, w: int, y: int, t: int)
    requires t >= 1 && 0 <= b1 < B && 0 <= b2 && b1 * B <= a < b1 * B + b2
    requires 0 <= w - a * (B * t) < B * t
    requires 0 <= y - (b1 * B + b2) * t && 0 <= y - b1 * (B * t) < B * t
    ensures (D_MASK * b1) * (B * t) <= w
    ensures D_MASK * y < w + B * (B * t)
    ensures w < D_MASK * y + B * (B * t)
  {
    MulMonotone(b1 * B, a, B * t);
    MulMonotone(a + 1, b1 * B + b2, B * t);
    MulMonotone(b1 + 1, B, B * t);
    MulSign(b1, B * t);
    LongerWindow(b1, b1 * B + b2, t);
    LargestDigit(b1 * (B * t), (b1 * B + b2) * t, a * (B * t), w, y, B * t);
  }

  lemma LargestDigit(u: int, v: int, ap: int, w: int, y: int, p: int)
    requires 0 <= u && u + p <= B * p && B * u <= ap && ap + p <= B * v
    requires 0 <= w - ap < p && v <= y && u <= y < u + p
    ensures B * u - u <= w && D_MASK * y < w + B * p && w < D_MASK * y + B * p
  {
  }

  lemma LongerWindow(b1: int, b: int, t: int)
    ensures b * (B * t) == B * (b * t)
    ensures (b1 * B) * (B * t) == B * (b1 * (B * t))
    ensures (D_MASK * b1) * (B * t) == B * (b1 * (B * t)) - b1 * (B * t)
  {
  }

  /** Everything one division step needs to know about its quotient digit. */
  ghost predicate StepFacts(w: seq<Digit>, ys: seq<Digit>, d: Digit, shift: bool)
    requires |ys| >= 2
  {
    var p, n := Pow(|ys| - 1), |w|;
    StepBounds(Value(w), d * Value(ys), n) &&
    (d * ys[|ys| - 1]) * p <= Value(w) &&
    (shift || w[n - 1] == ys[|ys| - 1] ==> Value(w) < d * Value(ys) + Pow(n - 1)) &&
    (shift || d >= 1)
  }

  lemma TrialIsSound(w: seq<Digit>, ys: seq<Digit>, d: Digit, shift: bool)
    requires |ys| >= 2 && ys[|ys| - 1] != 0 && |w| == if shift then |ys| + 1 else |ys|
    requires Usable(w[|w| - 1], w[|w| - 2], ys[|ys| - 1], ys[|ys| - 2], d, shift)
    ensures StepFacts(w, ys, d, shift)
  {
    hide Value, Pow;
    var a1, a2, b1, b2 := w[|w| - 1], w[|w| - 2], ys[|ys| - 1], ys[|ys| - 2];
    var t := Pow(|ys| - 2);
    TopTwo(w);
    TopTwo(ys);
    if a1 > b1 {
      EstimateWithoutShift(a1 * B + a2, b1, b2, d, Value(w), Value(ys), t);
    } else if a1 < b1 {
      EstimateWithShift(a1 * B + a2, b1, d, Value(w), Value(ys), B * t);
    } else if !shift {
      EstimateEqualWithoutShift(b1, Value(w), Value(ys), B * t);
    } else {
      EstimateEqualWithShift(a1 * B + a2, b1, b2, Value(w), Value(ys), t);
    }
  }

  /** What one division step does to the remainder r0 of rl digits, subtracting d*y at offset o. */
  ghost predicate Stepped(r0: seq<Digit>, rl: nat, ys: seq<Digit>, d: Digit, o: nat, r1: seq<Digit>, rl': nat, flip: bool)
    requires |ys| >= 1 && rl >= 1
  {
    var dyp := (d * Value(ys)) * Pow(o);
    |r1| == |r0| && rl' <= |r1| && AllZero(r1[rl'..]) &&
    (flip <==> Value(r0) < dyp) &&
    (!flip ==> Value(r1) == Value(r0) - dyp) &&
    (flip ==> Value(r1) == dyp - Value(r0) < Pow(rl - 1)) &&
    (rl' < rl || (rl' == rl && Value(r1) < Value(r0))) &&
    (d * ys[|ys| - 1]) * Pow(|ys| - 1 + o) <= Value(r0)
  }

  /** The I_comp test that keeps the division loop going. */
  ghost predicate Continues(r: seq<Digit>, rl: nat, ys: seq<Digit>)
    requires rl <= |r|
  {
    rl > |ys| || (rl == |ys| && Value(r[..rl]) >= Value(ys))
  }

  /** A longer window is only needed when a longer window exists. */
  lemma ShiftHasRoom(r: seq<Digit>, rl: nat, ys: seq<Digit>)
    requires |ys| >= 2 && rl <= |r| && Continues(r, rl, ys)
    requires r[rl - 1] < ys[|ys| - 1] || (r[rl - 1] == ys[|ys| - 1] && r[rl - 2] < ys[|ys| - 2])
    ensures rl > |ys|
  {
    var n := |ys|;
    if rl == n {
      if r[n - 1] < ys[n - 1] {
        TopDifferenceDecides(r[..n], ys, n - 1);
      } else {
        TopDifferenceDecides(r[..n], ys, n - 2);
      }
    }
  }

  /** One pass of the loop of I_div and I_rem, as far as the remainder is concerned. */
  method DivStep(r: array<Digit>, rp: nat, rl: nat, y: array<Digit>, yl: nat)
    returns (d: Digit, o: nat, nsz: nat, nnsz: nat, flip: bool)
    requires 2 <= yl <= y.Length && rp + yl == rl <= r.Length && r != y && y[yl - 1] != 0
    requires AllZero(r[rl..]) && Continues(r[..], rl, y[..yl])
    modifies r
    ensures o + nsz == rl && yl <= nsz <= yl + 1 && nnsz <= yl
    ensures nsz == yl <==> old(y[yl - 1] < r[rl - 1] || (y[yl - 1] == r[rl - 1] && y[yl - 2] <= r[rl - 2]))
    ensures Stepped(old(r[..]), rl, y[..yl], d, o, r[..], o + nnsz, flip)
    ensures old(r[rl - 1]) != 0 ==> d >= 1
  {
    hide Value, Pow, StepFacts, Usable, StepBounds;
    ghost var r0, ys := r[..], y[..yl];
    var shift;
    d, shift := TrialQuotient(r[rl - 1], r[rl - 2], y[yl - 1], y[yl - 2]);
    UsableShift(r0[rl - 1], r0[rl - 2], ys[yl - 1], ys[yl - 2], d, shift);
    nsz, o := yl, rp;
    if shift {
      ShiftHasRoom(r0, rl, ys);
      nsz, o := yl + 1, rp - 1;
    }
    ghost var w := r[o..rl];
    assert w == r0[o..rl] && |w| == nsz;
    TrialIsSound(w, ys, d, shift);
    StepFactsUnfold(w, ys, d, shift);
    nnsz, flip := Reduce(r, o, nsz, rl, d, y, yl);
    StepProgress(r0, rl, ys, d, o, shift, r[..], o + nnsz, flip);
  }

  lemma UsableShift(a1: Digit, a2: Digit, b1: Digit, b2: Digit, d: Digit, shift: bool)
    requires Usable(a1, a2, b1, b2, d, shift)
    ensures shift <==> a1 < b1 || (a1 == b1 && a2 < b2)
    ensures a1 != 0 ==> d >= 1
  {
    assert d < 1 ==> d * b1 == 0;
  }

  lemma StepFactsUnfold(w: seq<Digit>, ys: seq<Digit>, d: Digit, shift: bool)
    requires |ys| >= 2 && StepFacts(w, ys, d, shift)
    ensures StepBounds(Value(w), d * Value(ys), |w|)
    ensures |w| >= 2 && (shift ==> Value(w) < d * Value(ys) + Pow(|w| - 1))
  {
  }

  lemma LeadingTerm(r0: seq<Digit>, rl: nat, ys: seq<Digit>, d: Digit, o: nat, shift: bool)
    requires |ys| >= 2 && o < rl <= |r0| && AllZero(r0[rl..]) && StepFacts(r0[o..rl], ys, d, shift)
    ensures (d * ys[|ys| - 1]) * Pow(|ys| - 1 + o) <= Value(r0)
  {
    hide Value, Pow;
    var b1 := ys[|ys| - 1];
    WindowDecides(r0, o, rl - o, (d * b1) * Pow(|ys| - 1));
    PowAdd(|ys| - 1, o);
    Bits.MulAssoc(d * b1, Pow(|ys| - 1), Pow(o));
  }

  lemma StepProgress(r0: seq<Digit>, rl: nat, ys: seq<Digit>, d: Digit, o: nat, shift: bool,
                     r1: seq<Digit>, rl': nat, flip: bool)
    requires |ys| >= 2 && ys[|ys| - 1] != 0 && o < rl <= |r0| == |r1| && AllZero(r0[rl..])
    requires rl - o == if shift then |ys| + 1 else |ys|
    requires StepFacts(r0[o..rl], ys, d, shift)
    requires rl' <= rl && AllZero(r1[rl'..])
    requires flip <==> Value(r0) < (d * Value(ys)) * Pow(o)
    requires !flip ==> Value(r1) == Value(r0) - (d * Value(ys)) * Pow(o)
    requires flip ==> Value(r1) == (d * Value(ys)) * Pow(o) - Value(r0) < Pow(rl - 1)
    requires flip || Value(r0[o..rl]) < d * Value(ys) + Pow(rl - o - 1) ==> rl' < rl
    ensures Stepped(r0, rl, ys, d, o, r1, rl', flip)
  {
    hide Value, Pow;
    LeadingTerm(r0, rl, ys, d, o, shift);
    StepShrinks(r0, rl, ys, d, o, shift);
    hide StepFacts;
  }

  lemma StepShrinks(r0: seq<Digit>, rl: nat, ys: seq<Digit>, d: Digit, o: nat, shift: bool)
    requires |ys| >= 2 && ys[|ys| - 1] != 0 && o < rl <= |r0| && rl - o == if shift then |ys| + 1 else |ys|
    requires StepFacts(r0[o..rl], ys, d, shift)
    ensures Value(r0[o..rl]) < d * Value(ys) + Pow(rl - o - 1) || (d * Value(ys)) * Pow(o) >= 1
  {
    hide Value, Pow;
    if !shift {
      NormalLowerBound(ys);
      ProductPositive(d, Value(ys), Pow(o));
    }
  }

  lemma ProductPositive(a: int, b: int, c: int)
    requires a >= 1 && b >= 1 && c >= 1
    ensures (a * b) * c >= 1
  {
    MulMonotone(1, a, b);
    MulMonotone(1, a * b, c);
  }
}
