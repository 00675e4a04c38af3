/**
 * Bitwise operations on sign-magnitude bignums (erts/emulator/beam/big.c): the
 * operands are turned into two's-complement digits on the fly, combined digit by
 * digit, and I_btrail turns the result back into a magnitude.
 */
module Bitwise {
  import opened Digits
  import opened Words
  import opened Vectors
  import opened Integers
  import Bits

  function DNot(d: Digit): Digit {
    D_MASK - d
  }

  function DAnd(a: Digit, b: Digit): Digit {
    AndStep(a, 0, b, 0);
    Bits.And(a, b)
  }

  function DOr(a: Digit, b: Digit): Digit {
    OrStep(a, 0, b, 0);
    Bits.Or(a, b)
  }

  /** The lowest digits and the rest combine independently. */
  lemma AndStep(a0: Digit, a1: int, b0: Digit, b1: int)
    ensures Bits.And(a0 + B * a1, b0 + B * b1) == Bits.And(a0, b0) + B * Bits.And(a1, b1)
    ensures 0 <= Bits.And(a0, b0) < B
  {
    Bits.WordSizes();
    hide Bits.Pow2, Bits.And;
    Bits.AndSplit(64, a0, a1, b0, b1);
  }

  lemma OrStep(a0: Digit, a1: int, b0: Digit, b1: int)
    ensures Bits.Or(a0 + B * a1, b0 + B * b1) == Bits.Or(a0, b0) + B * Bits.Or(a1, b1)
    ensures 0 <= Bits.Or(a0, b0) < B
  {
    hide Bits.And;
    AndStep(D_MASK - a0, Bits.Not(a1), D_MASK - b0, Bits.Not(b1));
    AndStep(D_MASK - a0, -1, D_MASK - b0, -1);
    Bits.AndNeutral(-1);
  }

  /** Combining digit by digit combines the numbers, whatever stands above the digits. */
  lemma {:induction false} DigitwiseAnd(xs: seq<Digit>, ys: seq<Digit>, rs: seq<Digit>, hx: int, hy: int)
    requires |xs| == |ys| == |rs| && forall i :: 0 <= i < |rs| ==> rs[i] == DAnd(xs[i], ys[i])
    ensures Bits.And(Value(xs) + Pow(|rs|) * hx, Value(ys) + Pow(|rs|) * hy)
            == Value(rs) + Pow(|rs|) * Bits.And(hx, hy)
  {
    hide Bits.And;
    if rs != [] {
      var p := Pow(|rs| - 1);
      DigitwiseAnd(xs[1..], ys[1..], rs[1..], hx, hy);
      AndStep(xs[0], Value(xs[1..]) + p * hx, ys[0], Value(ys[1..]) + p * hy);
      PullOut(p, hx);
      PullOut(p, hy);
      PullOut(p, Bits.And(hx, hy));
    }
  }

  lemma {:induction false} DigitwiseOr(xs: seq<Digit>, ys: seq<Digit>, rs: seq<Digit>, hx: int, hy: int)
    requires |xs| == |ys| == |rs| && forall i :: 0 <= i < |rs| ==> rs[i] == DOr(xs[i], ys[i])
    ensures Bits.Or(Value(xs) + Pow(|rs|) * hx, Value(ys) + Pow(|rs|) * hy)
            == Value(rs) + Pow(|rs|) * Bits.Or(hx, hy)
  {
    hide Bits.Or;
    if rs != [] {
      var p := Pow(|rs| - 1);
      DigitwiseOr(xs[1..], ys[1..], rs[1..], hx, hy);
      OrStep(xs[0], Value(xs[1..]) + p * hx, ys[0], Value(ys[1..]) + p * hy);
      PullOut(p, hx);
      PullOut(p, hy);
      PullOut(p, Bits.Or(hx, hy));
    }
  }

  lemma PullOut(p: int, h: int)
    ensures (B * p) * h == B * (p * h)
  {
  }

  // ---------- I_btrail ----------

  /** The high `k` bits of a word. */
  ghost function HighMask(k: nat): int
    requires k <= 64
  {
    B - Bits.Pow2(64 - k)
  }

  lemma Split64(k: nat)
    requires k <= 64
    ensures Bits.Pow2(64 - k) * Bits.Pow2(k) == B
    ensures 1 <= Bits.Pow2(64 - k) <= B
  {
    Bits.WordSizes();
    hide Bits.Pow2;
    Bits.Pow2Add(64 - k, k);
    MulAtLeast(Bits.Pow2(k), Bits.Pow2(64 - k));
  }

  /** d has all the bits of the mask exactly if it is at least the mask. */
  lemma MaskTest(d: Digit, k: nat)
    requires k <= 64
    ensures Bits.And(d, HighMask(k)) == HighMask(k) <==> d >= HighMask(k)
  {
    hide Bits.And, Bits.Pow2;
    Split64(k);
    var p, q := Bits.Pow2(64 - k), Bits.Pow2(k);
    var d0, d1 := d % p, d / p;
    MaskParts(d, p, q, d0, d1);
    Bits.AndHighMask(64 - k, d0, d1, q - 1);
    Bits.AndOnes(k, d1);
  }

  lemma MaskParts(d: int, p: int, q: int, d0: int, d1: int)
    requires 0 <= d < B && p >= 1 && q >= 1 && p * q == B && d0 == d % p && d1 == d / p
    ensures d == d0 + p * d1 && 0 <= d0 < p && 0 <= d1 < q
    ensures B - p == p * (q - 1)
    ensures d >= B - p <==> d1 == q - 1
    ensures p * d1 == p * (q - 1) <==> d1 == q - 1
  {
    assert d == d0 + p * d1;
    if d1 >= q {
      MulMonotone(q, d1, p);
      assert false;
    }
    if d1 < 0 {
      MulMonotone(d1, -1, p);
      assert false;
    }
    assert p * (q - 1) == B - p;
    if d1 <= q - 2 {
      MulMonotone(d1, q - 2, p);
      assert p * (q - 2) == B - 2 * p;
    }
  }

  const TOP_BIT: Digit := 0x8000_0000_0000_0000

  lemma NextMask(k: nat)
    requires k < 64
    ensures 0 <= HighMask(k) < B && 0 <= HighMask(k + 1) < B
    ensures DOr(HighMask(k) / 2, TOP_BIT) == HighMask(k + 1)
  {
    Split64(k);
    Split64(k + 1);
    assert Bits.Pow2(64 - k) == 2 * Bits.Pow2(63 - k);
    TopBit();
    hide Bits.Pow2, Bits.And;
    Bits.OrIsPlus(63, 1, HighMask(k) / 2);
    Bits.AndCommutes(Bits.Not(HighMask(k) / 2), Bits.Not(TOP_BIT));
  }

  lemma TopBit()
    ensures Bits.Pow2(63) == TOP_BIT && Bits.Pow2(64) == B && Bits.Pow2(0) == 1
  {
    Bits.WordSizes();
    assert Bits.Pow2(64) == 2 * Bits.Pow2(63);
  }

  /** The second step of I_btrail: the mask of leading ones removes nothing from the complement. */
  method ComplementHigh(d: Digit) returns (c: Digit)
    requires d != D_MASK
    ensures c == DNot(d) && c != 0
  {
    hide Bits.And, Bits.Pow2, Bits.Or;
    TopBit();
    var prev: Digit, mask: Digit := 0, TOP_BIT;
    ghost var k := 0;
    MaskTest(d, 1);
    while DAnd(d, mask) == mask
      invariant k < 64 && prev == HighMask(k) && mask == HighMask(k + 1) && d >= prev
      decreases 64 - k
    {
      MaskTest(d, k + 1);
      prev, k := mask, k + 1;
      assert k == 64 ==> prev == D_MASK;
      NextMask(k);
      mask := DOr(prev / 2, TOP_BIT);
    }
    Split64(k);
    Bits.AndOnes(64 - k, DNot(d));
    c := DAnd(DNot(d), DNot(prev));
  }

  ghost function Complement(s: seq<Digit>): (t: seq<Digit>)
    ensures |t| == |s| && forall i :: 0 <= i < |s| ==> t[i] == DNot(s[i])
  {
    seq(|s|, i requires 0 <= i < |s| => DNot(s[i]))
  }

  lemma {:induction false} ComplementValue(s: seq<Digit>)
    ensures Value(Complement(s)) + Value(s) == Pow(|s|) - 1
  {
    if s != [] {
      ComplementValue(s[1..]);
      assert Complement(s)[1..] == Complement(s[1..]);
    }
  }

  lemma {:induction false} OnesValue(s: seq<Digit>)
    requires forall i :: 0 <= i < |s| ==> s[i] == D_MASK
    ensures Value(s) == Pow(|s|) - 1
  {
    if s != [] {
      OnesValue(s[1..]);
    }
  }

  /** Leading words of ones carry no information in a negative number. */
  lemma DropOnes(s: seq<Digit>, n: nat)
    requires n <= |s| && forall i :: n <= i < |s| ==> s[i] == D_MASK
    ensures Pow(|s|) - Value(s) == Pow(n) - Value(s[..n])
  {
    hide Value, Pow;
    assert s == s[..n] + s[n..];
    ValueSplit(s[..n], s[n..]);
    OnesValue(s[n..]);
    PowAdd(n, |s| - n);
    OnesArithmetic(Pow(n), Pow(|s| - n));
  }

  lemma OnesArithmetic(p: int, q: int)
    ensures p * (q - 1) == p * q - p
  {
  }

  method ComplementDigits(r: array<Digit>, j: nat)
    requires j < r.Length
    modifies r
    ensures r[..j] == Complement(old(r[..j]))
    ensures r[j..] == old(r[j..])
  {
    ghost var s := r[..];
    var i := j;
    while i != 0
      invariant 0 <= i <= j
      invariant forall k :: 0 <= k < i ==> r[k] == s[k]
      invariant forall k :: i <= k < j ==> r[k] == DNot(s[k])
      invariant forall k :: j <= k < r.Length ==> r[k] == s[k]
    {
      i := i - 1;
      r[i] := DNot(r[i]);
    }
  }

  /** I_btrail for a negative result: two's-complement digits to magnitude. */
  method TrailNegative(r: array<Digit>, n: nat) returns (m: nat)
    requires 1 <= n < r.Length
    modifies r
    ensures 1 <= m <= n + 1 && m <= r.Length && Normal(r[..m])
    ensures Value(r[..m]) == Pow(n) - old(Value(r[..n]))
  {
    hide Value, Pow, Overwrite;
    ghost var s := r[..n];
    var j := n - 1;
    while r[j] == D_MASK && j != 0
      invariant 0 <= j < n && forall k :: j < k < n ==> s[k] == D_MASK
    {
      j := j - 1;
    }
    DropOnes(s, j + 1);
    var d := r[j];
    if d == D_MASK {
      r[j] := 0;
    } else {
      var c := ComplementHigh(d);
      r[j] := c;
    }
    ComplementDigits(r, j);
    assert r[..j + 1] == Complement(s[..j + 1]);
    ComplementValue(s[..j + 1]);
    ghost var s0 := r[..];
    assert r[0..0 + (j + 1)] == r[..j + 1];
    ghost var ds;
    ds, m := DAdd(r, 0, j + 1, 1, r, 0);
    OverwritePrefix(s0, ds, m);
  }

  // ---------- two's-complement digits of an operand ----------

  /** The next two's-complement digit: the digit itself, or the complement of the digit less the borrow. */
  function TwosDigit(d: Digit, neg: bool, b: Digit): (r: (Digit, Digit))
    requires b <= 1
    ensures r.1 <= 1
  {
    if neg then var (c, b') := DSubB(d, 0, b); (DNot(c), b') else (d, b)
  }

  /** t are the lowest two's-complement digits of the operand; b is the borrow still pending. */
  ghost predicate Stream(xs: seq<Digit>, neg: bool, t: seq<Digit>, b: Digit) {
    && b <= 1 && |t| <= |xs|
    && if neg then Value(t) + Value(xs[..|t|]) == Pow(|t|) * (1 - b) else t == xs[..|t|]
  }

  /** What stands above the first k digits of the infinite two's-complement expansion. */
  ghost function Above(xs: seq<Digit>, neg: bool, k: nat, b: Digit): int
    requires k <= |xs|
  {
    if neg then b - 1 - Value(xs[k..]) else Value(xs[k..])
  }

  lemma StreamStart(xs: seq<Digit>, neg: bool)
    ensures Stream(xs, neg, [], 1)
  {
  }

  lemma StreamStep(xs: seq<Digit>, neg: bool, t: seq<Digit>, b: Digit)
    requires Stream(xs, neg, t, b) && |t| < |xs|
    ensures var (d, b') := TwosDigit(xs[|t|], neg, b); Stream(xs, neg, t + [d], b')
  {
    var k := |t|;
    var (d, b') := TwosDigit(xs[k], neg, b);
    if neg {
      hide Value, Pow;
      ValueTake(xs, k);
      ValueSnoc(t, d);
      assert Pow(k + 1) == B * Pow(k) by { NextPow(k); }
      StreamArithmetic(Pow(k), xs[k], d, b, b');
    } else {
      assert xs[..k + 1] == xs[..k] + [xs[k]];
    }
  }

  lemma StreamArithmetic(p: int, x: int, d: int, b: int, b': int)
    requires d + x == B - 1 + b - B * b'
    ensures p * (1 - b) + d * p + x * p == (B * p) * (1 - b')
  {
    assert p * (1 - b) + d * p + x * p == p * (1 - b + (d + x));
    assert (B * p) * (1 - b') == p * (B * (1 - b'));
  }

  lemma StreamMeans(xs: seq<Digit>, neg: bool, t: seq<Digit>, b: Digit)
    requires Stream(xs, neg, t, b)
    ensures Signed(neg, Value(xs)) == Value(t) + Pow(|t|) * Above(xs, neg, |t|, b)
  {
    hide Value, Pow;
    var k := |t|;
    assert xs == xs[..k] + xs[k..];
    ValueSplit(xs[..k], xs[k..]);
    AboveArithmetic(Pow(k), b, Value(xs[k..]));
  }

  lemma AboveArithmetic(p: int, b: int, v: int)
    ensures p * (b - 1 - v) == -(p * (1 - b)) - p * v
  {
    assert p * (b - 1 - v) == p * (b - 1) - p * v;
    assert p * (b - 1) == -(p * (1 - b));
  }

  /** The borrow is pending exactly while all digits so far are zero. */
  lemma Pending(xs: seq<Digit>, t: seq<Digit>, b: Digit)
    requires Stream(xs, true, t, b)
    ensures b == 1 <==> Value(xs[..|t|]) == 0
  {
    ValueBound(t);
    if b == 0 {
      assert Pow(|t|) * (1 - b) == Pow(|t|);
    }
  }

  lemma AboveWhole(xs: seq<Digit>, neg: bool, t: seq<Digit>, b: Digit)
    requires Stream(xs, neg, t, b) && |t| == |xs| && (neg ==> Value(xs) > 0)
    ensures Above(xs, neg, |t|, b) == if neg then -1 else 0
  {
    assert xs[..|t|] == xs && xs[|t|..] == [];
    if neg {
      Pending(xs, t, b);
    }
  }

  // ---------- I_band ----------

  /** The loop over the digits both operands have. */
  method AndLow(x: array<Digit>, xl: nat, xneg: bool, y: array<Digit>, yl: nat, yneg: bool, r: array<Digit>)
    returns (ghost tx: seq<Digit>, ghost ty: seq<Digit>, bx: Digit, ghost by': Digit)
    requires yl <= xl <= x.Length && yl <= y.Length && xl <= r.Length && r != x && r != y
    modifies r
    ensures bx <= 1 && |tx| == |ty| == yl && Stream(x[..xl], xneg, tx, bx) && Stream(y[..yl], yneg, ty, by')
    ensures forall i :: 0 <= i < yl ==> r[i] == DAnd(tx[i], ty[i])
  {
    hide Stream, DAnd;
    ghost var xs, ys := x[..xl], y[..yl];
    tx, ty, bx := [], [], 1;
    var b2: Digit := 1;
    by' := 1;
    StreamStart(xs, xneg);
    StreamStart(ys, yneg);
    var k := 0;
    while k < yl
      invariant 0 <= k <= yl && |tx| == |ty| == k && bx <= 1 && b2 <= 1 && by' == b2
      invariant Stream(xs, xneg, tx, bx) && Stream(ys, yneg, ty, b2)
      invariant forall i :: 0 <= i < k ==> r[i] == DAnd(tx[i], ty[i])
    {
      StreamStep(xs, xneg, tx, bx);
      StreamStep(ys, yneg, ty, b2);
      var (c1, b1') := TwosDigit(x[k], xneg, bx);
      var (c2, b2') := TwosDigit(y[k], yneg, b2);
      r[k] := DAnd(c1, c2);
      tx, ty, bx, b2, by' := tx + [c1], ty + [c2], b1', b2', b2';
      k := k + 1;
    }
  }

  /** Copies the digits that only x has. */
  method CopyAbove(x: array<Digit>, yl: nat, xl: nat, r: array<Digit>)
    requires yl <= xl <= x.Length && xl <= r.Length && r != x
    modifies r
    ensures r[yl..xl] == x[yl..xl] && r[..yl] == old(r[..yl])
  {
    var k := yl;
    while k < xl
      invariant yl <= k <= xl && r[yl..k] == x[yl..k] && r[..yl] == old(r[..yl])
    {
      r[k] := x[k];
      k := k + 1;
    }
  }

  /** Copies their complements, without looking at the borrow. */
  method ComplementAbove(x: array<Digit>, yl: nat, xl: nat, r: array<Digit>)
    requires yl <= xl <= x.Length && xl <= r.Length && r != x
    modifies r
    ensures r[yl..xl] == Complement(x[yl..xl]) && r[..yl] == old(r[..yl])
  {
    var k := yl;
    while k < xl
      invariant yl <= k <= xl && r[..yl] == old(r[..yl])
      invariant forall i :: yl <= i < k ==> r[i] == DNot(x[i])
    {
      r[k] := DNot(x[k]);
      k := k + 1;
    }
  }

  /** I_btrail for a non-negative result. */
  method TrailPositive(r: array<Digit>, n: nat) returns (m: nat)
    requires 1 <= n <= r.Length
    ensures 1 <= m <= n && Normal(r[..m]) && Value(r[..m]) == Value(r[..n])
  {
    hide Value;
    assert r[0..0 + n] == r[..n];
    m := Strip(r, 0, n, r[..n]);
    assert r[..n][..m] == r[..m];
  }

  lemma JoinAbove(lo: seq<Digit>, hi: seq<Digit>, all: seq<Digit>)
    requires all == lo + hi
    ensures Value(all) == Value(lo) + Pow(|lo|) * Value(hi)
  {
    ValueSplit(lo, hi);
  }

  /** The conjunction from its low digits and what stands above them. */
  lemma AndMeans(xs: seq<Digit>, xneg: bool, ys: seq<Digit>, yneg: bool, tx: seq<Digit>, ty: seq<Digit>,
                 bx: Digit, by': Digit, rs: seq<Digit>)
    requires |ys| <= |xs| && |tx| == |ty| == |rs| == |ys|
    requires Stream(xs, xneg, tx, bx) && Stream(ys, yneg, ty, by')
    requires forall i :: 0 <= i < |rs| ==> rs[i] == DAnd(tx[i], ty[i])
    requires yneg ==> Value(ys) > 0
    ensures Bits.And(Signed(xneg, Value(xs)), Signed(yneg, Value(ys)))
            == Value(rs) + (if yneg then Pow(|ys|) * Above(xs, xneg, |ys|, bx) else 0)
  {
    hide Bits.And, Stream, DAnd, Value, Pow, Above;
    StreamMeans(xs, xneg, tx, bx);
    StreamMeans(ys, yneg, ty, by');
    AboveWhole(ys, yneg, ty, by');
    var hx := Above(xs, xneg, |ys|, bx);
    DigitwiseAnd(tx, ty, rs, hx, if yneg then -1 else 0);
    Bits.AndNeutral(hx);
  }

  /** The complemented digits stand for -1 - up, which is right exactly if no borrow was pending. */
  lemma ComplementedAbove(xs: seq<Digit>, k: nat, b: Digit, hi: seq<Digit>)
    requires k <= |xs| && hi == Complement(xs[k..])
    ensures Value(hi) - Pow(|hi|) == Above(xs, true, k, b) - b
  {
    ComplementValue(xs[k..]);
  }

  /** The result goes wrong exactly for two negative operands when the common low digits of x are zero. */
  predicate BorrowLost(xs: seq<Digit>, xneg: bool, yneg: bool, yl: nat)
    requires yl <= |xs|
  {
    xneg && yneg && AllZero(xs[..yl])
  }

  method BAnd(x: array<Digit>, xl: nat, xneg: bool, y: array<Digit>, yl: nat, yneg: bool, r: array<Digit>)
    returns (n: nat)
    requires 1 <= yl <= xl <= x.Length && yl <= y.Length && xl < r.Length && r != x && r != y
    requires Normal(x[..xl]) && Normal(y[..yl]) && Value(x[..xl]) > 0 && Value(y[..yl]) > 0
    modifies r
    ensures 1 <= n <= r.Length && Normal(r[..n])
    ensures Signed(xneg && yneg, Value(r[..n]))
            == Bits.And(Signed(xneg, Value(x[..xl])), Signed(yneg, Value(y[..yl])))
               - (if BorrowLost(x[..xl], xneg, yneg, yl) then Pow(yl) else 0)
  {
    hide Bits.And, Stream, DAnd, Value, Pow, Above, Complement;
    ghost var xs, ys := x[..xl], y[..yl];
    ghost var tx, ty, by';
    var bx;
    tx, ty, bx, by' := AndLow(x, xl, xneg, y, yl, yneg, r);
    ghost var rs := r[..yl];
    AndMeans(xs, xneg, ys, yneg, tx, ty, bx, by', rs);
    if !yneg {
      n := TrailPositive(r, yl);
    } else if !xneg {
      CopyAbove(x, yl, xl, r);
      assert xs[yl..] == x[yl..xl];
      JoinAbove(rs, xs[yl..], r[..xl]);
      AbovePositive(xs, yl, bx);
      n := TrailPositive(r, xl);
    } else {
      ComplementAbove(x, yl, xl, r);
      assert xs[yl..] == x[yl..xl];
      ghost var hi := r[yl..xl];
      JoinAbove(rs, hi, r[..xl]);
      ComplementedAbove(xs, yl, bx, hi);
      BorrowDecides(xs, tx, bx);
      NegativeResult(Value(rs), Pow(yl), Value(hi), Pow(xl - yl), Above(xs, true, yl, bx), bx);
      PowAdd(yl, xl - yl);
      n := TrailNegative(r, xl);
    }
  }

  lemma AbovePositive(xs: seq<Digit>, k: nat, b: Digit)
    requires k <= |xs|
    ensures Above(xs, false, k, b) == Value(xs[k..])
  {
  }

  lemma BorrowDecides(xs: seq<Digit>, tx: seq<Digit>, b: Digit)
    requires Stream(xs, true, tx, b)
    ensures b == if AllZero(xs[..|tx|]) then 1 else 0
  {
    Pending(xs, tx, b);
    if AllZero(xs[..|tx|]) {
      ValueOfZeros(xs[..|tx|]);
    } else if Value(xs[..|tx|]) == 0 {
      ZeroValueMeansZeros(xs[..|tx|]);
    }
  }

  lemma NegativeResult(lo: int, p: int, hi: int, q: int, above: int, b: int)
    requires hi - q == above - b
    ensures p * q - (lo + p * hi) == -(lo + p * above) + p * b
  {
    assert p * (hi - q) == p * (above - b);
  }

  /** With x = -2^64 and y = -1 the conjunction is x, but the operation yields -2^65. */
  lemma BorrowLostExample()
    ensures Normal([0, 1]) && Normal([1]) && BorrowLost([0, 1], true, true, 1)
    ensures Bits.And(Signed(true, Value([0, 1])), Signed(true, Value([1]))) == Signed(true, Value([0, 1]))
  {
    assert Value([1]) == 1 && Value([0, 1]) == B by {
      assert [0, 1][1..] == [1] && [1][1..] == [];
    }
    assert [0, 1][..1] == [0];
    Bits.AndNeutral(-B);
  }

  // ---------- I_bor ----------

  /** The loop over the digits both operands have. */
  method OrLow(x: array<Digit>, xl: nat, xneg: bool, y: array<Digit>, yl: nat, yneg: bool, r: array<Digit>)
    returns (ghost tx: seq<Digit>, ghost ty: seq<Digit>, bx: Digit, ghost by': Digit)
    requires yl <= xl <= x.Length && yl <= y.Length && xl <= r.Length && r != x && r != y
    modifies r
    ensures bx <= 1 && |tx| == |ty| == yl && Stream(x[..xl], xneg, tx, bx) && Stream(y[..yl], yneg, ty, by')
    ensures forall i :: 0 <= i < yl ==> r[i] == DOr(tx[i], ty[i])
  {
    hide Stream, DOr;
    ghost var xs, ys := x[..xl], y[..yl];
    tx, ty, bx := [], [], 1;
    var b2: Digit := 1;
    by' := 1;
    StreamStart(xs, xneg);
    StreamStart(ys, yneg);
    var k := 0;
    while k < yl
      invariant 0 <= k <= yl && |tx| == |ty| == k && bx <= 1 && b2 <= 1 && by' == b2
      invariant Stream(xs, xneg, tx, bx) && Stream(ys, yneg, ty, b2)
      invariant forall i :: 0 <= i < k ==> r[i] == DOr(tx[i], ty[i])
    {
      StreamStep(xs, xneg, tx, bx);
      StreamStep(ys, yneg, ty, b2);
      var (c1, b1') := TwosDigit(x[k], xneg, bx);
      var (c2, b2') := TwosDigit(y[k], yneg, b2);
      r[k] := DOr(c1, c2);
      tx, ty, bx, b2, by' := tx + [c1], ty + [c2], b1', b2', b2';
      k := k + 1;
    }
  }

  /** The loop over the digits that only x has, with the borrow. */
  method TwosAbove(x: array<Digit>, yl: nat, xl: nat, b: Digit, r: array<Digit>, ghost tx: seq<Digit>)
    returns (ghost t: seq<Digit>, ghost b': Digit)
    requires yl <= xl <= x.Length && xl <= r.Length && r != x && b <= 1
    requires |tx| == yl && Stream(x[..xl], true, tx, b)
    modifies r
    ensures |t| == xl - yl && Stream(x[..xl], true, tx + t, b') && r[yl..xl] == t && r[..yl] == old(r[..yl])
  {
    hide Stream;
    ghost var xs := x[..xl];
    t := [];
    b' := b;
    var c: Digit := b;
    assert tx + t == tx;
    var k := yl;
    while k < xl
      invariant yl <= k <= xl && |t| == k - yl && c == b' <= 1 && r[..yl] == old(r[..yl])
      invariant Stream(xs, true, tx + t, b') && r[yl..k] == t
    {
      StreamStep(xs, true, tx + t, b');
      var (d, c') := TwosDigit(x[k], true, c);
      r[k] := d;
      assert tx + (t + [d]) == (tx + t) + [d];
      t, b', c := t + [d], c', c';
      k := k + 1;
    }
  }

  lemma OrNeutral(a: int)
    ensures Bits.Or(a, 0) == a && Bits.Or(a, -1) == -1
  {
    hide Bits.And;
    Bits.AndNeutral(Bits.Not(a));
  }

  lemma OrMeans(xs: seq<Digit>, xneg: bool, ys: seq<Digit>, yneg: bool, tx: seq<Digit>, ty: seq<Digit>,
                bx: Digit, by': Digit, rs: seq<Digit>)
    requires |ys| <= |xs| && |tx| == |ty| == |rs| == |ys|
    requires Stream(xs, xneg, tx, bx) && Stream(ys, yneg, ty, by')
    requires forall i :: 0 <= i < |rs| ==> rs[i] == DOr(tx[i], ty[i])
    requires yneg ==> Value(ys) > 0
    ensures Bits.Or(Signed(xneg, Value(xs)), Signed(yneg, Value(ys)))
            == Value(rs) + Pow(|ys|) * (if yneg then -1 else Above(xs, xneg, |ys|, bx))
  {
    hide Bits.Or, Stream, DOr, Value, Pow, Above;
    StreamMeans(xs, xneg, tx, bx);
    StreamMeans(ys, yneg, ty, by');
    AboveWhole(ys, yneg, ty, by');
    var hx := Above(xs, xneg, |ys|, bx);
    DigitwiseOr(tx, ty, rs, hx, if yneg then -1 else 0);
    OrNeutral(hx);
  }

  /** The digits of a whole negative operand above place yl. */
  lemma WholeAbove(xs: seq<Digit>, tx: seq<Digit>, bx: Digit, t: seq<Digit>, b': Digit)
    requires Stream(xs, true, tx, bx) && Stream(xs, true, tx + t, b') && |tx + t| == |xs| && Value(xs) > 0
    ensures Value(t) - Pow(|t|) == Above(xs, true, |tx|, bx)
  {
    hide Stream, Value, Pow, Above;
    StreamMeans(xs, true, tx, bx);
    StreamMeans(xs, true, tx + t, b');
    AboveWhole(xs, true, tx + t, b');
    JoinAbove(tx, t, tx + t);
    PowAdd(|tx|, |t|);
    Cancel(Pow(|tx|), Value(t), Pow(|t|), Above(xs, true, |tx|, bx));
  }

  lemma Cancel(p: int, v: int, q: int, h: int)
    requires p >= 1 && p * v - p * q == p * h
    ensures v - q == h
  {
    var d := v - q - h;
    assert d * p == 0 && (-d) * p == 0;
    if d > 0 {
      MulAtLeast(d, p);
    } else if d < 0 {
      MulAtLeast(-d, p);
    }
  }

  method BOr(x: array<Digit>, xl: nat, xneg: bool, y: array<Digit>, yl: nat, yneg: bool, r: array<Digit>)
    returns (n: nat)
    requires 1 <= yl <= xl <= x.Length && yl <= y.Length && xl < r.Length && r != x && r != y
    requires Normal(x[..xl]) && Normal(y[..yl]) && Value(x[..xl]) > 0 && Value(y[..yl]) > 0
    modifies r
    ensures 1 <= n <= r.Length && Normal(r[..n])
    ensures Signed(xneg || yneg, Value(r[..n]))
            == Bits.Or(Signed(xneg, Value(x[..xl])), Signed(yneg, Value(y[..yl])))
  {
    hide Bits.Or, Stream, DOr, Value, Pow, Above;
    ghost var xs, ys := x[..xl], y[..yl];
    ghost var tx, ty, by';
    var bx;
    tx, ty, bx, by' := OrLow(x, xl, xneg, y, yl, yneg, r);
    ghost var rs := r[..yl];
    OrMeans(xs, xneg, ys, yneg, tx, ty, bx, by', rs);
    if yneg {
      n := TrailNegative(r, yl);
    } else if !xneg {
      CopyAbove(x, yl, xl, r);
      assert xs[yl..] == x[yl..xl];
      JoinAbove(rs, xs[yl..], r[..xl]);
      AbovePositive(xs, yl, bx);
      n := TrailPositive(r, xl);
    } else {
      ghost var t, b';
      t, b' := TwosAbove(x, yl, xl, bx, r, tx);
      JoinAbove(rs, t, r[..xl]);
      WholeAbove(xs, tx, bx, t, b');
      NegativeResult(Value(rs), Pow(yl), Value(t), Pow(xl - yl), Above(xs, true, yl, bx), 0);
      PowAdd(yl, xl - yl);
      n := TrailNegative(r, xl);
    }
  }

  // ---------- the operations on terms ----------

  /** big_band: the longer operand comes first. */
  method BigBand(x: array<Digit>, xl: nat, xneg: bool, y: array<Digit>, yl: nat, yneg: bool, r: array<Digit>)
    returns (t: Term)
    requires 1 <= xl <= x.Length && 1 <= yl <= y.Length && xl < r.Length && yl < r.Length && r != x && r != y
    requires Normal(x[..xl]) && Normal(y[..yl]) && Value(x[..xl]) > 0 && Value(y[..yl]) > 0
    modifies r
    ensures Represents(t, Bits.And(Signed(xneg, Value(x[..xl])), Signed(yneg, Value(y[..yl])))
                          - (if xl >= yl && BorrowLost(x[..xl], xneg, yneg, yl) then Pow(yl)
                             else if xl < yl && BorrowLost(y[..yl], xneg, yneg, xl) then Pow(xl) else 0))
  {
    hide Bits.And, Value, Pow, Represents;
    var n;
    if xl >= yl {
      n := BAnd(x, xl, xneg, y, yl, yneg, r);
    } else {
      n := BAnd(y, yl, yneg, x, xl, xneg, r);
      Bits.AndCommutes(Signed(xneg, Value(x[..xl])), Signed(yneg, Value(y[..yl])));
    }
    t := BigNorm(r, n, xneg && yneg);
  }

  /** big_bor. */
  method BigBor(x: array<Digit>, xl: nat, xneg: bool, y: array<Digit>, yl: nat, yneg: bool, r: array<Digit>)
    returns (t: Term)
    requires 1 <= xl <= x.Length && 1 <= yl <= y.Length && xl < r.Length && yl < r.Length && r != x && r != y
    requires Normal(x[..xl]) && Normal(y[..yl]) && Value(x[..xl]) > 0 && Value(y[..yl]) > 0
    modifies r
    ensures Represents(t, Bits.Or(Signed(xneg, Value(x[..xl])), Signed(yneg, Value(y[..yl]))))
  {
    hide Bits.And, Value, Pow, Represents;
    var n;
    if xl >= yl {
      n := BOr(x, xl, xneg, y, yl, yneg, r);
    } else {
      n := BOr(y, yl, yneg, x, xl, xneg, r);
      Bits.AndCommutes(Bits.Not(Signed(xneg, Value(x[..xl]))), Bits.Not(Signed(yneg, Value(y[..yl]))));
    }
    t := BigNorm(r, n, xneg || yneg);
  }
}
