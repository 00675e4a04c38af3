/**
 * Arithmetic shifts of sign-magnitude bignums (I_lshift and big_lshift in
 * erts/emulator/beam/big.c): whole digits and single bits are shifted in one
 * pass, and a negative number is rounded down by adding one to its magnitude
 * when a non-zero bit is shifted out.
 */
module Shift {
  import opened Digits
  import opened Vectors
  import opened Multiply
  import opened ShortDivision
  import opened Integers
  import Bits
  import Words
  import Bitwise

  /** The shift the operation promises: a multiplication, or a division rounded down. */
  ghost function Shifted(n: int, y: int): int {
    if y >= 0 then n * Bits.Pow2(y) else n / Bits.Pow2(-y)
  }

  lemma SplitWord(sw: nat)
    requires 0 < sw < 64
    ensures var s, t := Bits.Pow2(sw), Bits.Pow2(64 - sw); s * t == B && 2 <= s < B && 2 <= t < B
  {
    assert Bits.Pow2(sw) == 2 * Bits.Pow2(sw - 1) && Bits.Pow2(64 - sw) == 2 * Bits.Pow2(63 - sw);
    Bits.WordSizes();
    hide Bits.Pow2;
    Bits.Pow2Add(sw, 64 - sw);
    FactorBound(Bits.Pow2(sw), Bits.Pow2(64 - sw));
  }

  lemma FactorBound(s: int, t: int)
    requires s >= 2 && t >= 2
    ensures s < s * t && t < s * t
  {
    MulMonotone(2, t, s);
    MulMonotone(2, s, t);
  }

  /** A word shifted left, cut to a word, and what falls out at the top. */
  lemma LeftParts(x: Digit, s: int, t: int)
    requires s >= 1 && t >= 1 && s * t == B
    ensures (x * s) % B == (x % t) * s && 0 <= (x % t) * s <= B - s
    ensures x * s == (x % t) * s + B * (x / t) && 0 <= x / t < s
  {
    var q, m := x / t, x % t;
    assert x == q * t + m;
    assert x * s == q * (s * t) + m * s by {
      assert (q * t + m) * s == (q * t) * s + m * s;
      assert (q * t) * s == q * (s * t);
    }
    MulMonotone(m, t - 1, s);
    assert (t - 1) * s == B - s;
    MulMonotone(0, m, s);
    ModUnique(x * s, q, m * s);
    if q >= s {
      MulMonotone(s, q, t);
    }
  }

  /** Shifting in from below is addition. */
  lemma OrLow(k: nat, a: int, b: int)
    requires 0 <= a && 0 <= b < Bits.Pow2(k)
    ensures Bits.Or(a * Bits.Pow2(k), b) == a * Bits.Pow2(k) + b
  {
    Bits.OrIsPlus(k, a, b);
  }

  /** One digit of the left shift. */
  method LeftDigit(x: Digit, sw: nat, a1: Digit) returns (d: Digit, a1': Digit)
    requires 0 < sw < 64 && a1 < Bits.Pow2(sw)
    ensures d + B * a1' == x * Bits.Pow2(sw) + a1 && a1' < Bits.Pow2(sw)
  {
    hide Bits.Pow2, Bits.Or;
    SplitWord(sw);
    ghost var s, t := Bits.Pow2(sw), Bits.Pow2(64 - sw);
    LeftParts(x, s, t);
    OrLow(sw, x % t, a1);
    d := Bitwise.DOr((x * Bits.Pow2(sw)) % B, a1);
    a1' := x / Bits.Pow2(64 - sw);
  }

  /** One digit of the right shift: `rem` are the bits of the digit above that were shifted out. */
  method RightDigit(x: Digit, sw: nat, a0: Digit, ghost rem: Digit) returns (d: Digit, a0': Digit, ghost rem': Digit)
    requires 0 < sw < 64 && rem < Bits.Pow2(sw) && a0 == rem * Bits.Pow2(64 - sw)
    ensures rem * B + x == d * Bits.Pow2(sw) + rem' && rem' < Bits.Pow2(sw) && a0' == rem' * Bits.Pow2(64 - sw)
    ensures d == x / Bits.Pow2(sw) + a0
  {
    hide Bits.Pow2, Bits.Or;
    SplitWord(sw);
    ghost var s, t := Bits.Pow2(sw), Bits.Pow2(64 - sw);
    LeftParts(x, t, s);
    OrLow(64 - sw, rem, x / s);
    OrSwap(x / s, rem * t);
    rem' := x % s;
    d := Bitwise.DOr(x / Bits.Pow2(sw), a0);
    a0' := (x * Bits.Pow2(64 - sw)) % B;
    RightArithmetic(x, s, t, rem);
  }

  lemma OrSwap(a: int, b: int)
    ensures Bits.Or(a, b) == Bits.Or(b, a)
  {
    Bits.AndCommutes(Bits.Not(a), Bits.Not(b));
  }

  lemma RightArithmetic(x: int, s: int, t: int, rem: int)
    requires s >= 1 && s * t == B
    ensures rem * B + x == (x / s + rem * t) * s + x % s
  {
    assert x == (x / s) * s + x % s;
    assert (x / s + rem * t) * s == (x / s) * s + (rem * t) * s;
    assert (rem * t) * s == rem * (s * t);
  }

  // ---------- left ----------

  /** The digits written so far, the bits carried, and the top digit that keeps the vector normal. */
  ghost predicate LeftInv(xs: seq<Digit>, k: nat, s: int, rs: seq<Digit>, a1: Digit) {
    && k == |rs| <= |xs| && a1 < s
    && Value(rs) + a1 * Pow(k) == s * Value(xs[..k])
    && (k > 0 && xs[k - 1] > 0 ==> rs[k - 1] + B * a1 > 0)
  }

  lemma LeftStep(xs: seq<Digit>, k: nat, s: int, rs: seq<Digit>, a1: Digit, d: Digit, a1': Digit)
    requires LeftInv(xs, k, s, rs, a1) && k < |xs| && s >= 1
    requires d + B * a1' == xs[k] * s + a1 && a1' < s
    ensures LeftInv(xs, k + 1, s, rs + [d], a1')
  {
    hide Value, Pow;
    ValueTake(xs, k);
    ValueSnoc(rs, d);
    NextPow(k);
    LeftArithmetic(xs[k], d, a1, a1', s, Pow(k), Value(xs[..k]));
    if xs[k] > 0 {
      MulAtLeast(xs[k], s);
    }
  }

  lemma LeftArithmetic(x: int, d: int, a1: int, a1': int, s: int, p: int, v: int)
    requires d + B * a1' == x * s + a1
    ensures s * v - a1 * p + d * p + a1' * (B * p) == s * (v + x * p)
  {
    assert (d + B * a1') * p == (x * s + a1) * p;
    assert (x * s) * p == s * (x * p);
    assert (B * a1') * p == a1' * (B * p);
  }

  method LeftDigits(x: array<Digit>, xl: nat, sw: nat, r: array<Digit>, o: nat)
    returns (ghost rs: seq<Digit>, a1: Digit)
    requires 1 <= xl <= x.Length && o + xl <= r.Length && r != x && sw < 64
    modifies r
    ensures r[o..o + xl] == rs && r[..o] == old(r[..o])
    ensures LeftInv(x[..xl], xl, Bits.Pow2(sw), rs, a1)
  {
    hide LeftInv, Bits.Pow2;
    ghost var xs, s := x[..xl], Bits.Pow2(sw);
    rs, a1 := [], 0;
    LeftStart(xs, s);
    Bits.SmallPow2();
    var k := 0;
    while k < xl
      invariant 0 <= k <= xl && |rs| == k && r[o..o + k] == rs && r[..o] == old(r[..o])
      invariant a1 < s && LeftInv(xs, k, s, rs, a1)
    {
      var d, a1';
      if sw != 0 {
        d, a1' := LeftDigit(x[k], sw, a1);
      } else {
        d, a1' := x[k], 0;
      }
      LeftStep(xs, k, s, rs, a1, d, a1');
      r[o + k] := d;
      rs, a1 := rs + [d], a1';
      k := k + 1;
    }
  }

  lemma LeftStart(xs: seq<Digit>, s: int)
    requires s >= 1
    ensures LeftInv(xs, 0, s, [], 0)
  {
  }

  lemma ShiftWeight(ay: nat, bw: nat, sw: nat)
    requires bw == ay / 64 && sw == ay % 64
    ensures Bits.Pow2(ay) == Pow(bw) * Bits.Pow2(sw)
  {
    hide Bits.Pow2, Pow;
    assert ay == 64 * bw + sw;
    Bits.Pow2Add(64 * bw, sw);
    Words.WordPowers(bw);
  }

  /** The zeros below, the shifted digits, and the carried bits on top. */
  lemma LeftMeans(zs: seq<Digit>, rs: seq<Digit>, xs: seq<Digit>, s: int, a1: Digit)
    requires AllZero(zs) && LeftInv(xs, |xs|, s, rs, a1) && Normal(xs) && xs[|xs| - 1] > 0
    ensures a1 == 0 ==> Value(zs + rs) == Value(xs) * (Pow(|zs|) * s) && Normal(zs + rs)
    ensures a1 != 0 ==> Value(zs + rs + [a1]) == Value(xs) * (Pow(|zs|) * s) && Normal(zs + rs + [a1])
  {
    hide Value, Pow;
    assert xs[..|xs|] == xs;
    ValueOfZeros(zs);
    ValueSplit(zs, rs);
    ValueSnoc(zs + rs, a1);
    PowAdd(|zs|, |rs|);
    WeightArithmetic(Pow(|zs|), Value(rs), a1, Pow(|rs|), s, Value(xs));
  }

  lemma WeightArithmetic(p: int, v: int, a: int, q: int, s: int, x: int)
    requires v + a * q == s * x
    ensures p * v + a * (p * q) == x * (p * s)
  {
    assert p * (v + a * q) == p * (s * x);
    assert p * (a * q) == a * (p * q);
    assert p * (s * x) == x * (p * s);
  }

  method LeftShift(x: array<Digit>, xl: nat, y: nat, r: array<Digit>) returns (n: nat)
    requires 1 <= xl <= x.Length && y > 0 && r != x && r.Length >= xl + y / 64 + 1
    requires Normal(x[..xl]) && x[xl - 1] > 0
    modifies r
    ensures 1 <= n <= r.Length && Normal(r[..n]) && Value(r[..n]) == Value(x[..xl]) * Bits.Pow2(y)
  {
    hide Value, LeftInv, Bits.Pow2, Pow;
    var bw, sw := y / 64, y % 64;
    ShiftWeight(y, bw, sw);
    ZeroPrefix(r, bw);
    ghost var zs := r[..bw];
    ghost var rs;
    var a1;
    rs, a1 := LeftDigits(x, xl, sw, r, bw);
    assert r[..bw + xl] == zs + rs;
    LeftMeans(zs, rs, x[..xl], Bits.Pow2(sw), a1);
    if a1 == 0 {
      return bw + xl;
    }
    r[bw + xl] := a1;
    assert r[..bw + xl + 1] == zs + rs + [a1];
    n := bw + xl + 1;
  }

  // ---------- right ----------

  lemma RightStart(xs: seq<Digit>, s: Digit)
    requires s >= 1
    ensures Divided(xs, |xs|, s, [], 0)
  {
  }

  /** The digits from the top down to place bw, divided by 2^sw; a0 holds the bits shifted out last. */
  method RightDigits(x: array<Digit>, xl: nat, bw: nat, sw: nat, ghost s: Digit, r: array<Digit>)
    returns (ghost ws: seq<Digit>, a0: Digit, ghost rem: Digit)
    requires bw < xl <= x.Length && xl - bw <= r.Length && r != x && sw < 64 && s == Bits.Pow2(sw)
    modifies r
    ensures r[..xl - bw] == ws && Divided(x[..xl], bw, s, ws, rem)
    ensures a0 != 0 <==> rem != 0
  {
    hide Divided, Bits.Pow2;
    Bits.SmallPow2();
    ghost var xs := x[..xl];
    RightStart(xs, s);
    ws, a0, rem := [], 0, 0;
    var i := xl;
    while i > bw
      invariant bw <= i <= xl && |ws| == xl - i && r[i - bw..xl - bw] == ws
      invariant rem < s && Divided(xs, i, s, ws, rem)
      invariant if sw != 0 then a0 == rem * Bits.Pow2(64 - sw) else a0 == rem == 0
    {
      i := i - 1;
      var d, a0';
      ghost var rem';
      if sw != 0 {
        d, a0', rem' := RightDigit(x[i], sw, a0, rem);
      } else {
        d, a0', rem' := x[i], 0, 0;
      }
      DividedNext(xs, i + 1, s, ws, rem, d, rem');
      r[i - bw] := d;
      ws, a0, rem := [d] + ws, a0', rem';
    }
    if sw != 0 {
      SplitWord(sw);
      NonZeroProduct(rem, Bits.Pow2(64 - sw));
    }
  }

  lemma NonZeroProduct(a: int, b: int)
    requires a >= 0 && b >= 1
    ensures a * b == 0 <==> a == 0
  {
    if a > 0 {
      MulAtLeast(a, b);
    }
  }

  /** Only the leading quotient digit can vanish. */
  lemma SecondDigit(v: seq<Digit>, s: Digit, ws: seq<Digit>, rem: Digit)
    requires |v| == |ws| >= 2 && Normal(v) && 1 <= s <= 0x8000_0000_0000_0000 && rem < s
    requires Value(v) == Value(ws) * s + rem && ws[|ws| - 1] == 0
    ensures ws[|ws| - 2] != 0
  {
    hide Value, Pow;
    var m := |ws|;
    if ws[m - 2] == 0 {
      NormalLowerBound(v);
      ValueDropZeros(ws, m - 2);
      ValueBound(ws[..m - 2]);
      NextPow(m - 2);
      QuotientTooSmall(Pow(m - 2), Value(ws), s, rem);
    }
  }

  lemma QuotientTooSmall(p: int, q: int, s: int, rem: int)
    requires 0 <= q < p && 1 <= s <= 0x8000_0000_0000_0000 && rem < s
    ensures q * s + rem < B * p
  {
    MulMonotone(q, p - 1, s);
    assert (p - 1) * s == p * s - s;
    MulMonotone(s, B, p);
  }

  /** The loop that looks for a non-zero digit among those shifted out. */
  method AnyDigit(x: array<Digit>, bw: nat) returns (any: bool)
    requires bw <= x.Length
    ensures any <==> Value(x[..bw]) != 0
  {
    hide Value;
    var z := 0;
    while z < bw
      invariant 0 <= z <= bw && forall k :: 0 <= k < z ==> x[k] == 0
    {
      if x[z] != 0 {
        assert x[..bw][z] != 0;
        if Value(x[..bw]) == 0 {
          ZeroValueMeansZeros(x[..bw]);
        }
        return true;
      }
      z := z + 1;
    }
    ValueOfZeros(x[..bw]);
    any := false;
  }

  /** The closing steps: drop a leading zero, round a negative number down. */
  method RoundRight(r: array<Digit>, rl: nat, neg: bool, addOne: bool, ghost ws: seq<Digit>) returns (n: nat)
    requires 1 <= rl <= r.Length && r[..rl] == ws
    requires rl > 1 && ws[rl - 1] == 0 ==> ws[rl - 2] != 0
    requires addOne ==> neg && (rl < r.Length || Value(ws) + 1 < Pow(rl))
    requires neg && Value(ws) == 0 ==> addOne
    modifies r
    ensures 1 <= n <= r.Length && Normal(r[..n])
    ensures Value(r[..n]) == Value(ws) + if addOne then 1 else 0
  {
    hide Value, Pow, Overwrite;
    var l := rl;
    if r[rl - 1] == 0 {
      if rl == 1 {
        OneDigit(ws);
        if neg {
          r[0] := 1;
        }
        OneDigit(r[..1]);
        return 1;
      }
      l := rl - 1;
      ValueDropZeros(ws, l);
    }
    assert r[..l] == ws[..l] && ws[..rl] == ws;
    n := l;
    if addOne {
      ghost var s0 := r[..];
      assert r[0..0 + l] == ws[..l];
      ghost var ds;
      ds, n := DAdd(r, 0, l, 1, r, 0);
      OverwritePrefix(s0, ds, n);
    }
  }

  /** Dividing by Pow(bw) * s in one go, rounded down for both signs. */
  lemma RightMeans(lo: int, p: int, v: int, q: int, s: int, rem: int)
    requires 0 <= lo < p && 0 <= rem < s && v == q * s + rem && q >= 0
    ensures p * s >= 1
    ensures (lo + p * v) / (p * s) == q
    ensures -(lo + p * v) / (p * s) == -(if lo != 0 || rem != 0 then q + 1 else q)
  {
    var n, rest := p * s, lo + p * rem;
    RestBound(lo, p, v, q, s, rem);
    MulAtLeast(s, p);
    RemainderIsMod(lo + p * v, q, n, rest);
    CeilingIs(lo + p * v, n, q, rest);
  }

  lemma RestBound(lo: int, p: int, v: int, q: int, s: int, rem: int)
    requires 0 <= lo < p && 0 <= rem < s && v == q * s + rem
    ensures lo + p * v == q * (p * s) + (lo + p * rem)
    ensures 0 <= lo + p * rem < p * s && (lo + p * rem == 0 <==> lo == 0 && rem == 0)
  {
    assert p * (q * s) == q * (p * s);
    assert p * (q * s + rem) == p * (q * s) + p * rem;
    MulMonotone(rem, s - 1, p);
    assert p * (s - 1) == p * s - p;
    NonZeroProduct(rem, p);
    MulMonotone(0, rem, p);
  }

  lemma CeilingIs(a: int, n: int, q: int, r: int)
    requires n >= 1 && 0 <= r < n && a == q * n + r
    ensures -a / n == -(if r != 0 then q + 1 else q)
  {
    if r == 0 {
      assert -a == (-q) * n + 0;
      RemainderIsMod(-a, -q, n, 0);
    } else {
      assert -a == (-q - 1) * n + (n - r);
      RemainderIsMod(-a, -q - 1, n, n - r);
    }
  }

  /** The value above place bw, and the whole. */
  lemma Dropped(xs: seq<Digit>, bw: nat)
    requires bw < |xs| && Normal(xs)
    ensures Value(xs) == Value(xs[..bw]) + Pow(bw) * Value(xs[bw..])
    ensures Value(xs[..bw]) < Pow(bw) && Normal(xs[bw..])
  {
    assert xs == xs[..bw] + xs[bw..];
    ValueSplit(xs[..bw], xs[bw..]);
    ValueBound(xs[..bw]);
  }

  lemma ShiftAway(x: int, xl: nat, bw: nat, s: int)
    requires 0 < x < Pow(xl) && xl <= bw && s >= 1
    ensures x / (Pow(bw) * s) == 0 && -x / (Pow(bw) * s) == -1
  {
    PowMonotone(xl, bw);
    MulAtLeast(s, Pow(bw));
    RemainderIsMod(x, 0, Pow(bw) * s, x);
    CeilingIs(x, Pow(bw) * s, 0, x);
  }

  /** Half the number leaves room for the rounding. */
  lemma RoomToRound(q: int, s: int, rem: int, p: int)
    requires q >= 0 && s >= 2 && rem >= 0 && q * s + rem < p && p >= 2
    ensures q + 1 < p || q == 0
  {
    MulMonotone(2, s, q);
  }

  method RightShift(x: array<Digit>, xl: nat, ay: nat, neg: bool, r: array<Digit>) returns (n: nat)
    requires 1 <= xl <= x.Length && ay > 0 && r != x && xl <= r.Length
    requires Normal(x[..xl]) && Value(x[..xl]) > 0
    modifies r
    ensures 1 <= n <= r.Length && Normal(r[..n])
    ensures Signed(neg, Value(r[..n])) == Signed(neg, Value(x[..xl])) / Bits.Pow2(ay)
  {
    hide Value, Divided, Bits.Pow2, Pow;
    ghost var xs := x[..xl];
    var bw, sw := ay / 64, ay % 64;
    ShiftWeight(ay, bw, sw);
    SmallShift(sw);
    if xl <= bw {
      ValueBound(xs);
      ShiftAway(Value(xs), xl, bw, Bits.Pow2(sw));
      r[0] := if neg then 1 else 0;
      OneDigit(r[..1]);
      return 1;
    }
    var addOne := false;
    if neg {
      addOne := AnyDigit(x, bw);
    }
    ghost var ws, rem;
    var a0;
    ws, a0, rem := RightDigits(x, xl, bw, sw, Bits.Pow2(sw), r);
    if neg && a0 != 0 {
      addOne := true;
    }
    RightFacts(xs, bw, sw, ay, ws, rem);
    assert xs[..bw] == x[..bw];
    n := RoundRight(r, xl - bw, neg, addOne, ws);
  }

  lemma SmallShift(sw: nat)
    requires sw < 64
    ensures 1 <= Bits.Pow2(sw) <= 0x8000_0000_0000_0000 && (sw > 0 ==> Bits.Pow2(sw) >= 2)
  {
    if sw > 0 {
      SplitWord(sw);
      hide Bits.Pow2;
      MulMonotone(2, Bits.Pow2(64 - sw), Bits.Pow2(sw));
    }
  }

  lemma RightFacts(xs: seq<Digit>, bw: nat, sw: nat, ay: nat, ws: seq<Digit>, rem: Digit)
    requires bw < |xs| && Normal(xs) && Value(xs) > 0 && sw < 64 && ay > 0 && bw == ay / 64 && sw == ay % 64
    requires Bits.Pow2(ay) == Pow(bw) * Bits.Pow2(sw) && 1 <= Bits.Pow2(sw) <= 0x8000_0000_0000_0000
    requires |ws| == |xs| - bw && Divided(xs, bw, Bits.Pow2(sw), ws, rem)
    ensures |ws| > 1 && ws[|ws| - 1] == 0 ==> ws[|ws| - 2] != 0
    ensures Value(xs) / Bits.Pow2(ay) == Value(ws)
    ensures -(Value(xs) as int) / Bits.Pow2(ay) == -(Value(ws) + if Value(xs[..bw]) != 0 || rem != 0 then 1 else 0)
    ensures Value(ws) == 0 ==> Value(xs[..bw]) != 0 || rem != 0
    ensures bw == 0 ==> Value(ws) + 1 < Pow(|ws|)
  {
    hide Value, Bits.Pow2, Pow;
    Dropped(xs, bw);
    SmallShift(sw);
    var s := Bits.Pow2(sw);
    SomethingLeft(Value(xs[..bw]), Pow(bw), Value(xs[bw..]), Value(ws), s, rem);
    RightMeans(Value(xs[..bw]), Pow(bw), Value(xs[bw..]), Value(ws), s, rem);
    if |ws| > 1 && ws[|ws| - 1] == 0 {
      SecondDigit(xs[bw..], s, ws, rem);
    }
    if bw == 0 {
      ValueBound(xs[bw..]);
      PowMonotone(1, |ws|);
      assert Pow(1) == B by { OneDigitPow(); }
      RoomToRound(Value(ws), s, rem, Pow(|ws|));
    }
  }

  lemma SomethingLeft(lo: int, p: int, v: int, q: int, s: int, rem: int)
    requires v == q * s + rem && lo + p * v > 0
    ensures q == 0 ==> lo != 0 || rem != 0
  {
  }

  lemma OneDigitPow()
    ensures Pow(1) == B && Pow(0) == 1
  {
  }

  /** I_lshift. */
  method ILshift(x: array<Digit>, xl: nat, y: int, neg: bool, r: array<Digit>) returns (n: nat)
    requires 1 <= xl <= x.Length && r != x && Normal(x[..xl])
    requires r.Length >= if y > 0 then xl + y / 64 + 1 else xl
    modifies r
    ensures 1 <= n <= r.Length && Normal(r[..n])
    ensures Signed(neg, Value(r[..n])) == Shifted(Signed(neg, Value(x[..xl])), y)
  {
    hide Value, Overwrite;
    ghost var v := Value(x[..xl]);
    if y == 0 {
      ghost var xs, s0 := x[..xl], r[..];
      CopyDigits(x, xl, r);
      OverwritePrefix(s0, xs, xl);
      n := xl;
    } else if xl == 1 && x[0] == 0 {
      OneDigit(x[..1]);
      r[0] := 0;
      OneDigit(r[..1]);
      ZeroShift(y);
      n := 1;
    } else {
      TopNotZero(x[..xl]);
      if y > 0 {
        n := LeftShift(x, xl, y, r);
        SignedProduct(neg, v, false, Bits.Pow2(y));
      } else {
        n := RightShift(x, xl, -y, neg, r);
      }
    }
  }

  lemma ZeroShift(y: int)
    ensures Shifted(0, y) == 0
  {
  }

  lemma TopNotZero(s: seq<Digit>)
    requires Normal(s) && !(|s| == 1 && s[0] == 0)
    ensures s[|s| - 1] > 0 && Value(s) > 0
  {
    if |s| > 1 {
      SeveralDigitsNotZero(s);
    } else {
      OneDigit(s);
    }
  }

  /** big_lshift: the canonical term of the shifted integer. */
  method BigLshift(x: array<Digit>, xl: nat, y: int, neg: bool, r: array<Digit>) returns (t: Term)
    requires 1 <= xl <= x.Length && r != x && Normal(x[..xl])
    requires r.Length >= if y > 0 then xl + y / 64 + 1 else xl
    modifies r
    ensures Represents(t, Shifted(Signed(neg, Value(x[..xl])), y))
  {
    hide Value, Represents, Shifted;
    var n := ILshift(x, xl, y, neg, r);
    t := BigNorm(r, n, neg);
  }
}
