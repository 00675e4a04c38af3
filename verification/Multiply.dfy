/** Products of digit vectors: by one digit (D_mul), schoolbook (I_mul) and squaring (I_sqr). */
module Multiply {
  import opened Digits
  import opened Words
  import opened Vectors

  /** After j digits of a row, the pending carry k holds what the written digits ds lack. */
  ghost predicate RowInv(d: Digit, ys: seq<Digit>, w: seq<Digit>, ds: seq<Digit>, j: nat, k: int) {
    j == |ds| && j <= |ys| && j <= |w| &&
    d * Value(ys[..j]) + Value(w[..j]) == Value(ds) + k * Pow(j)
  }

  /** The pending carry absorbs d*y + w and leaves the digit s. */
  lemma RowDigit(d: Digit, ys: seq<Digit>, w: seq<Digit>, ds: seq<Digit>, j: nat, s: Digit, k: int, k': int)
    requires RowInv(d, ys, w, ds, j, k) && j < |ys| && j < |w|
    requires d * ys[j] + w[j] + k == s + B * k'
    ensures RowInv(d, ys, w, ds + [s], j + 1, k')
  {
    hide Value;
    ValueTake(ys, j);
    ValueTake(w, j);
    ValueSnoc(ds, s);
    RowArithmetic(d, ys[j], w[j], Value(ys[..j]), s, k, k', Pow(j));
  }

  lemma RowArithmetic(d: int, y: int, w: int, v: int, s: int, k: int, k': int, p: int)
    requires d * y + w + k == s + B * k'
    ensures d * (v + y * p) + w * p + k * p == d * v + s * p + k' * (B * p)
  {
    assert (d * y + w + k) * p == (s + B * k') * p;
    assert (d * y) * p == d * (y * p);
  }

  /** One multiply-accumulate step: the three special cases of I_mul and D_mul agree with the general one. */
  method MulAddDigit(d: Digit, y: Digit, w: Digit, cp: Digit, c: Digit)
    returns (s: Digit, cp': Digit, c': Digit)
    requires d == 1 ==> cp == 0
    requires c <= 1
    ensures d * y + w + (c + cp) == s + B * (c' + cp')
    ensures c' <= 1 && (d == 1 ==> cp' == 0)
  {
    if d == 1 {
      var (s0, c0) := DSumC(y, w, c);
      return s0, 0, c0;
    } else if d == 2 {
      var (p, cp0) := DSumC(y, y, cp);
      var (s0, c0) := DSumC(p, w, c);
      return s0, cp0, c0;
    }
    var p;
    cp', p := DMulC(d, y, cp);
    var (s0, c0) := DSumC(p, w, c);
    s, c' := s0, c0;
  }

  lemma OverwriteOwn(s: seq<Digit>, o: nat, n: nat)
    requires o + n <= |s|
    ensures Overwrite(s, o, s[o..o + n]) == s
  {
  }

  /** A row of I_mul: d times y added onto the digits of r at offset ro. */
  method MulRow(d: Digit, y: array<Digit>, yl: nat, r: array<Digit>, ro: nat)
    returns (ghost ds: seq<Digit>, k: Digit)
    requires yl <= y.Length && ro + yl <= r.Length && y != r
    modifies r
    ensures |ds| == yl && r[..] == Overwrite(old(r[..]), ro, ds)
    ensures Value(ds) + k * Pow(yl) == old(Value(r[ro..ro + yl])) + d * Value(y[..yl])
  {
    hide RowInv, Value, Pow, Overwrite;
    ghost var ys, w, r0 := y[..yl], r[ro..ro + yl], r[..];
    RowStart(d, ys, w);
    OverwriteStart(r0, ro);
    ds := [];
    if d == 0 {
      RowOfZero(ys, w);
      OverwriteOwn(r0, ro, yl);
      return w, 0;
    }
    var j, cp: int, c: int := 0, 0, 0;
    while j < yl
      invariant 0 <= j <= yl && |ds| == j && r[..] == Overwrite(r0, ro, ds)
      invariant 0 <= c <= 1 && 0 <= cp < B && (d == 1 ==> cp == 0)
      invariant RowInv(d, ys, w, ds, j, c + cp)
    {
      OverwriteNext(r0, ro, ds, 0);
      assert r[ro + j] == w[j] && y[j] == ys[j];
      var s: Digit, cp': int, c': int := MulAddDigit(d, y[j], r[ro + j], cp, c);
      RowDigit(d, ys, w, ds, j, s, c + cp, c' + cp');
      OverwriteNext(r0, ro, ds, s);
      r[ro + j] := s;
      ds := ds + [s];
      cp, c := cp', c';
      j := j + 1;
    }
    RowEnd(d, ys, w, ds, c + cp);
    k := Wrap(c + cp);
  }

  lemma RowStart(d: Digit, ys: seq<Digit>, w: seq<Digit>)
    ensures RowInv(d, ys, w, [], 0, 0)
  {
  }

  lemma RowOfZero(ys: seq<Digit>, w: seq<Digit>)
    ensures Value(w) + 0 * Pow(|ys|) == Value(w) + 0 * Value(ys)
  {
  }

  /** The carry out of a row is a single digit. */
  lemma RowEnd(d: Digit, ys: seq<Digit>, w: seq<Digit>, ds: seq<Digit>, k: int)
    requires |ys| == |w| == |ds| && RowInv(d, ys, w, ds, |ds|, k)
    ensures d * Value(ys) + Value(w) == Value(ds) + k * Pow(|ds|)
    ensures k < B
  {
    assert ys[..|ds|] == ys && w[..|ds|] == w;
    ValueBound(ys);
    ValueBound(w);
    CarryFits(d, Value(ys), Value(w), Value(ds), k, Pow(|ds|));
  }

  lemma CarryFits(d: int, y: int, w: int, s: int, k: int, p: int)
    requires 0 <= d < B && 0 <= y < p && 0 <= w < p && 0 <= s && d * y + w == s + k * p
    ensures k < B
  {
    MulMonotone(y, p - 1, d);
    assert (d + 1) * p == d * p + p && (p - 1) * d == d * p - d;
    if k >= d + 1 {
      MulMonotone(d + 1, k, p);
    }
  }

  /** The digits ps are the product of the first i digits of x with y. */
  ghost predicate Partial(xs: seq<Digit>, i: nat, y: int, ps: seq<Digit>) {
    i <= |xs| && Value(ps) == Value(xs[..i]) * y
  }

  /** Adding a row at offset i completes the product with one more digit of x. */
  lemma RowAdded(xs: seq<Digit>, i: nat, y: int, ps: seq<Digit>, ds: seq<Digit>, k: Digit)
    requires Partial(xs, i, y, ps) && i < |xs| && i <= |ps| && |ds| == |ps| - i
    requires Value(ds) + k * Pow(|ds|) == Value(ps[i..]) + xs[i] * y
    ensures Partial(xs, i + 1, y, ps[..i] + (ds + [k]))
  {
    hide Value, Pow;
    assert ps == ps[..i] + ps[i..];
    ValueSplit(ps[..i], ps[i..]);
    ValueSplit(ps[..i], ds + [k]);
    ValueSnoc(ds, k);
    ValueTake(xs, i);
    RowAddedArithmetic(Value(xs[..i]), xs[i], y, Pow(i), Value(ps[i..]), Value(ds) + k * Pow(|ds|));
  }

  lemma RowAddedArithmetic(v: int, x: int, y: int, p: int, w: int, e: int)
    requires e == w + x * y
    ensures p * e == p * w + (v + x * p) * y - v * y
  {
    assert p * e == p * w + p * (x * y);
    assert (v + x * p) * y == v * y + (x * p) * y;
    assert (x * p) * y == p * (x * y);
  }

  lemma OverwriteRow(r0: seq<Digit>, ps: seq<Digit>, i: nat, es: seq<Digit>)
    requires i <= |ps| <= |r0| && i + |es| <= |r0| && |ps| <= i + |es|
    ensures Overwrite(Overwrite(r0, 0, ps), i, es) == Overwrite(r0, 0, ps[..i] + es)
    ensures Overwrite(r0, 0, ps)[i..|ps|] == ps[i..]
  {
  }

  /** I_mul: schoolbook product into r, whose low yl digits are zero on entry. */
  method IMul(x: array<Digit>, xl: nat, y: array<Digit>, yl: nat, r: array<Digit>)
    returns (ghost ps: seq<Digit>, n: nat)
    requires 1 <= xl <= x.Length && 1 <= yl <= y.Length && xl + yl <= r.Length && r != x && r != y
    requires AllZero(r[..yl])
    modifies r
    ensures |ps| == xl + yl && r[..] == Overwrite(old(r[..]), 0, ps)
    ensures Value(ps) == Value(x[..xl]) * Value(y[..yl])
    ensures xl + yl - 1 <= n <= xl + yl && AllZero(ps[n..]) && Value(ps[..n]) == Value(ps)
    ensures n == xl + yl <==> ps[xl + yl - 1] != 0
    ensures Normal(x[..xl]) && Normal(y[..yl]) && Value(x[..xl]) != 0 && Value(y[..yl]) != 0 ==> Normal(ps[..n])
  {
    hide Partial, Value, Pow;
    ghost var xs, ys, r0 := x[..xl], y[..yl], r[..];
    ps := r[..yl];
    PartialStart(xs, Value(ys), ps);
    assert r[..] == Overwrite(r0, 0, ps);
    var i := 0;
    while i < xl
      invariant 0 <= i <= xl && |ps| == i + yl && r[..] == Overwrite(r0, 0, ps)
      invariant Partial(xs, i, Value(ys), ps)
    {
      OverwriteRow(r0, ps, i, ps[i..]);
      ghost var ds, r1 := [], r[..];
      var k;
      ds, k := MulRow(x[i], y, yl, r, i);
      RowAdded(xs, i, Value(ys), ps, ds, k);
      OverwriteNext(r1, i, ds, k);
      OverwriteRow(r0, ps, i, ds + [k]);
      r[i + yl] := k;
      ps := ps[..i] + (ds + [k]);
      i := i + 1;
    }
    PartialEnd(xs, Value(ys), ps);
    assert r[xl + yl - 1] == ps[xl + yl - 1];
    n := if r[xl + yl - 1] == 0 then xl + yl - 1 else xl + yl;
    ProductLength(xs, ys, ps, n);
  }

  lemma PartialStart(xs: seq<Digit>, y: int, ps: seq<Digit>)
    requires AllZero(ps)
    ensures Partial(xs, 0, y, ps)
  {
    ValueOfZeros(ps);
  }

  lemma PartialEnd(xs: seq<Digit>, y: int, ps: seq<Digit>)
    requires Partial(xs, |xs|, y, ps)
    ensures Value(ps) == Value(xs) * y
  {
    assert xs[..|xs|] == xs;
  }

  lemma NormalAtLeast(s: seq<Digit>)
    requires Normal(s) && Value(s) != 0
    ensures Value(s) >= Pow(|s| - 1)
  {
    if |s| > 1 {
      NormalLowerBound(s);
    }
  }

  /** Both operands without leading zeros: at most one leading zero in the product. */
  lemma ProductLength(xs: seq<Digit>, ys: seq<Digit>, ps: seq<Digit>, n: nat)
    requires |xs| >= 1 && |ys| >= 1 && |ps| == |xs| + |ys| && Value(ps) == Value(xs) * Value(ys)
    requires n == if ps[|ps| - 1] == 0 then |ps| - 1 else |ps|
    ensures AllZero(ps[n..]) && Value(ps[..n]) == Value(ps)
    ensures Normal(xs) && Normal(ys) && Value(xs) != 0 && Value(ys) != 0 ==> Normal(ps[..n])
  {
    hide Value, Pow;
    ValueDropZeros(ps, n);
    if Normal(xs) && Normal(ys) && Value(xs) != 0 && Value(ys) != 0 {
      ProductAtLeast(xs, ys);
      LargeIsNormal(ps, n);
    }
  }

  lemma LargeIsNormal(ps: seq<Digit>, n: nat)
    requires |ps| >= 2 && Value(ps) >= Pow(|ps| - 2)
    requires n == if ps[|ps| - 1] == 0 then |ps| - 1 else |ps|
    ensures Normal(ps[..n])
  {
    hide Value, Pow;
    if n == |ps| - 1 && n > 1 && ps[n - 1] == 0 {
      ValueDropZeros(ps, n - 1);
      ValueBound(ps[..n - 1]);
    }
  }

  lemma ProductAtLeast(xs: seq<Digit>, ys: seq<Digit>)
    requires Normal(xs) && Normal(ys) && Value(xs) != 0 && Value(ys) != 0
    ensures Value(xs) * Value(ys) >= Pow(|xs| + |ys| - 2)
  {
    hide Value, Pow;
    NormalAtLeast(xs);
    NormalAtLeast(ys);
    PowAdd(|xs| - 1, |ys| - 1);
    MulBothMonotone(Pow(|xs| - 1), Value(xs), Pow(|ys| - 1), Value(ys));
  }

  lemma MulBothMonotone(a: int, b: int, c: int, d: int)
    requires 0 <= a <= b && 0 <= c <= d
    ensures a * c <= b * d
  {
    MulMonotone(a, b, c);
    MulMonotone(c, d, b);
  }

  /** The five carries of the squaring loop, as one number still to be added at the next place. */
  function Pending(z1: int, y0: int, y1: int, y2: int, y3: int): int {
    z1 + y0 + y2 + y3 + B * y1
  }

  /** One step of the inner squaring loop: twice d*y, with four separate carries. */
  method SquareDigit(d: Digit, y: Digit, w: Digit, z1: Digit, y0: Digit, y1: Digit, y2: Digit, y3: Digit)
    returns (t: Digit, z1': Digit, y0': Digit, y1': Digit, y2': Digit, y3': Digit)
    requires y0 <= 1 && y1 <= 1 && y2 <= 1 && y3 <= 1
    ensures y0' <= 1 && y1' <= 1 && y2' <= 1 && y3' <= 1
    ensures w + 2 * (d * y) + Pending(z1, y0, y1, y2, y3) == t + B * Pending(z1', y0', y1', y2', y3')
  {
    var b1, b0 := DMulC(d, y, 0);
    var (z0, c0) := DSumC(b0, b0, y0);
    var (z2, c2) := DSumC(z0, z1, y2);
    var (t', c3) := DSumC(w, z2, y3);
    var (z, c1) := DSumC(b1, b1, y1);
    t, z1', y0', y1', y2', y3' := t', z, c0, c1, c2, c3;
  }

  /** The closing step of a squaring row. */
  method SquareLast(w: Digit, z1: Digit, y0: Digit, y1: Digit, y2: Digit, y3: Digit) returns (t: Digit, k: Digit)
    requires y0 <= 1 && y1 <= 1 && y2 <= 1 && y3 <= 1
    ensures w + Pending(z1, y0, y1, y2, y3) == t + B * k
  {
    var (z2, c2) := DSumC(y0, z1, y2);
    var (t', c3) := DSumC(w, z2, y3);
    t, k := t', y1 + c2 + c3;
  }

  /** After the diagonal digit and j doubled products of a squaring row. */
  ghost predicate SquareInv(d: Digit, ts: seq<Digit>, w: seq<Digit>, ds: seq<Digit>, j: nat, k: int) {
    |ds| == j + 1 && j <= |ts| && j + 1 <= |w| &&
    Value(ds) + k * Pow(j + 1) == Value(w[..j + 1]) + d * d + 2 * (d * (B * Value(ts[..j])))
  }

  /** What a squaring row with leading digit d and remaining digits ts makes of the digits w. */
  ghost function SquareRowSum(w: seq<Digit>, d: Digit, ts: seq<Digit>): int {
    Value(w) + d * d + 2 * (d * (B * Value(ts)))
  }

  lemma SquareStart(d: Digit, ts: seq<Digit>, w: seq<Digit>, t: Digit, k: int)
    requires |w| >= 1 && w[0] + d * d == t + B * k
    ensures SquareInv(d, ts, w, [t], 0, k)
  {
    assert w[..1] == [w[0]];
    assert Value([t]) == t && Value(w[..1]) == w[0];
  }

  lemma SquareNext(d: Digit, ts: seq<Digit>, w: seq<Digit>, ds: seq<Digit>, j: nat, t: Digit, k: int, k': int)
    requires SquareInv(d, ts, w, ds, j, k) && j < |ts| && j + 1 < |w|
    requires w[j + 1] + 2 * (d * ts[j]) + k == t + B * k'
    ensures SquareInv(d, ts, w, ds + [t], j + 1, k')
  {
    hide Value;
    ValueTake(ts, j);
    ValueTake(w, j + 1);
    ValueSnoc(ds, t);
    SquareArithmetic(d, ts[j], Value(ts[..j]), w[j + 1], t, k, k', Pow(j));
  }

  lemma SquareArithmetic(d: int, y: int, v: int, w: int, t: int, k: int, k': int, p: int)
    requires w + 2 * (d * y) + k == t + B * k'
    ensures t * (B * p) + k' * (B * (B * p)) - k * (B * p)
         == w * (B * p) + 2 * (d * (B * (v + y * p))) - 2 * (d * (B * v))
  {
    assert (w + 2 * (d * y) + k) * (B * p) == (t + B * k') * (B * p);
    assert (d * y) * (B * p) == B * (d * (y * p));
    assert d * (B * (v + y * p)) == d * (B * v) + B * (d * (y * p));
    assert (B * k') * (B * p) == k' * (B * (B * p));
  }

  lemma SquareEnd(d: Digit, ts: seq<Digit>, w: seq<Digit>, ds: seq<Digit>, t: Digit, k: int, k': int)
    requires SquareInv(d, ts, w, ds, |ts|, k) && |w| == |ts| + 2
    requires w[|ts| + 1] + k == t + B * k'
    ensures Value(ds + [t]) + k' * Pow(|ts| + 2) == SquareRowSum(w, d, ts)
  {
    hide Value;
    ValueTake(w, |ts| + 1);
    ValueSnoc(ds, t);
    assert w[..|ts| + 2] == w && ts[..|ts|] == ts;
    CarryArithmetic(w[|ts| + 1], 0, t, k, k', Pow(|ts| + 1));
  }

  /** The diagonal digit of a squaring row. */
  method SquareFirst(d: Digit, w0: Digit, ghost ts: seq<Digit>, ghost w: seq<Digit>)
    returns (t: Digit, z1: Digit, y3: Digit)
    requires |w| >= 1 && w[0] == w0
    ensures y3 <= 1 && SquareInv(d, ts, w, [t], 0, Pending(z1, 0, 0, 0, y3))
  {
    var b0;
    z1, b0 := DMulC(d, d, 0);
    var (t', c) := DSumC(w0, b0, 0);
    t, y3 := t', c;
    SquareStart(d, ts, w, t, Pending(z1, 0, 0, 0, y3));
  }

  /** The inner loop of a squaring row: m doubled products of d with the digits of x from xo on. */
  method SquareTail(d: Digit, x: array<Digit>, xo: nat, m: nat, r: array<Digit>, o: nat, z: Digit, y: Digit,
                    ghost w: seq<Digit>, ghost t0: Digit, ghost r0: seq<Digit>)
    returns (ghost ds: seq<Digit>, z1: Digit, y0: Digit, y1: Digit, y2: Digit, y3: Digit)
    requires xo + m <= x.Length && o + m + 2 <= r.Length && (x == r ==> o < xo) && |w| == m + 2 && y <= 1
    requires |r0| == r.Length && r[..] == Overwrite(r0, o, [t0]) && r0[o..o + m + 2] == w
    requires SquareInv(d, x[xo..xo + m], w, [t0], 0, Pending(z, 0, 0, 0, y))
    modifies r
    ensures |ds| == m + 1 && r[..] == Overwrite(r0, o, ds)
    ensures y0 <= 1 && y1 <= 1 && y2 <= 1 && y3 <= 1
    ensures SquareInv(d, old(x[xo..xo + m]), w, ds, m, Pending(z1, y0, y1, y2, y3))
  {
    hide SquareInv, Pending, Overwrite;
    OverwriteNext(r0, o, [t0], 0);
    ghost var ts := x[xo..xo + m];
    assert x == r ==> forall j :: 0 <= j < m ==> r0[xo + j] == ts[j];
    ds := [t0];
    z1, y0, y1, y2, y3 := z, 0, 0, 0, y;
    var j := 0;
    while j < m
      invariant 0 <= j <= m && |ds| == j + 1 && r[..] == Overwrite(r0, o, ds)
      invariant x != r ==> x[xo..xo + m] == ts
      invariant y0 <= 1 && y1 <= 1 && y2 <= 1 && y3 <= 1
      invariant SquareInv(d, ts, w, ds, j, Pending(z1, y0, y1, y2, y3))
    {
      OverwriteNext(r0, o, ds, 0);
      assert r[o + 1 + j] == w[j + 1] && x[xo + j] == ts[j];
      ghost var before := Pending(z1, y0, y1, y2, y3);
      var t;
      t, z1, y0, y1, y2, y3 := SquareDigit(d, x[xo + j], r[o + 1 + j], z1, y0, y1, y2, y3);
      SquareNext(d, ts, w, ds, j, t, before, Pending(z1, y0, y1, y2, y3));
      OverwriteNext(r0, o, ds, t);
      r[o + 1 + j] := t;
      ds := ds + [t];
      j := j + 1;
    }
  }

  /** Row i of I_sqr, on the digits of r from place 2i on; d is digit i of x, which r may hold from place xo = xl on. */
  method SquareRow(d: Digit, x: array<Digit>, xo: nat, xl: nat, i: nat, r: array<Digit>)
    returns (ghost ds: seq<Digit>, k: Digit)
    requires i < xl && xo + xl <= x.Length && i + xl + 1 <= r.Length && (x == r ==> xo == xl)
    modifies r
    ensures |ds| == xl - i + 1 && r[..] == Overwrite(old(r[..]), 2 * i, ds)
    ensures Value(ds) + k * Pow(|ds|) == SquareRowSum(old(r[2 * i..i + xl + 1]), d, old(x[xo + i + 1..xo + xl]))
  {
    hide SquareInv, SquareRowSum, Value, Pow, Pending, Overwrite;
    var o, m := 2 * i, xl - 1 - i;
    ghost var ts, w, r0 := x[xo + i + 1..xo + i + 1 + m], r[o..o + m + 2], r[..];
    var t, z1, y3 := SquareFirst(d, r[o], ts, w);
    r[o] := t;
    OverwriteStart(r0, o);
    OverwriteNext(r0, o, [], t);
    assert [] + [t] == [t];
    assert x[xo + i + 1..xo + i + 1 + m] == ts;
    var y0, y1, y2;
    ds, z1, y0, y1, y2, y3 := SquareTail(d, x, xo + i + 1, m, r, o, z1, y3, w, t, r0);
    OverwriteNext(r0, o, ds, 0);
    ghost var last := Pending(z1, y0, y1, y2, y3);
    t, k := SquareLast(r[o + 1 + m], z1, y0, y1, y2, y3);
    SquareEnd(d, ts, w, ds, t, last, k);
    OverwriteNext(r0, o, ds, t);
    r[o + 1 + m] := t;
    ds := ds + [t];
    assert old(r[2 * i..i + xl + 1]) == w && old(x[xo + i + 1..xo + xl]) == ts;
    assert |ds| == |ts| + 2;
  }

  /** What is still missing from the square after i rows is the square of the remaining digits. */
  ghost predicate SquarePartial(xs: seq<Digit>, i: nat, ps: seq<Digit>) {
    i <= |xs| && Value(ps) + Pow(2 * i) * (Value(xs[i..]) * Value(xs[i..])) == Value(xs) * Value(xs)
  }

  lemma SquareRowAdded(xs: seq<Digit>, i: nat, ps: seq<Digit>, ds: seq<Digit>, k: Digit)
    requires i < |xs| && |ps| == i + |xs| + 1 && SquarePartial(xs, i, ps) && |ds| == |ps| - 2 * i
    requires Value(ds) + k * Pow(|ds|) == SquareRowSum(ps[2 * i..], xs[i], xs[i + 1..])
    ensures SquarePartial(xs, i + 1, ps[..2 * i] + (ds + [k]))
    ensures i + 1 == |xs| ==> k == 0 && SquarePartial(xs, i + 1, ps[..2 * i] + ds)
  {
    hide Value, Pow;
    var lo, w := ps[..2 * i], ps[2 * i..];
    assert ps == lo + w;
    ValueSplit(lo, w);
    ValueSplit(lo, ds + [k]);
    ValueSnoc(ds, k);
    TailValue(xs, i);
    var p := Pow(2 * i);
    PowTwice(i);
    SquareRowArithmetic(xs[i], Value(xs[i + 1..]), Value(w), Value(ds) + k * Pow(|ds|), p);
    if i + 1 == |xs| {
      LastRow(xs, i, lo, ds, k);
    }
  }

  lemma PowTwice(i: nat)
    ensures Pow(2 * (i + 1)) == B * (B * Pow(2 * i))
  {
  }

  lemma TailValue(xs: seq<Digit>, i: nat)
    requires i < |xs|
    ensures Value(xs[i..]) == xs[i] + B * Value(xs[i + 1..])
  {
    assert xs[i..][1..] == xs[i + 1..];
  }

  lemma SquareRowArithmetic(d: int, h: int, w: int, e: int, p: int)
    requires e == w + d * d + 2 * (d * (B * h))
    ensures p * w + p * ((d + B * h) * (d + B * h)) == p * e + (B * (B * p)) * (h * h)
  {
    assert (d + B * h) * (d + B * h) == d * d + 2 * (d * (B * h)) + (B * B) * (h * h);
    assert p * ((B * B) * (h * h)) == (B * (B * p)) * (h * h);
  }

  /** The last row leaves no carry, because the square of xl digits has at most 2*xl digits. */
  lemma LastRow(xs: seq<Digit>, i: nat, lo: seq<Digit>, ds: seq<Digit>, k: Digit)
    requires i + 1 == |xs| && SquarePartial(xs, i + 1, lo + (ds + [k])) && |lo| + |ds| == 2 * |xs|
    ensures k == 0 && SquarePartial(xs, i + 1, lo + ds)
  {
    hide Pow;
    assert xs[i + 1..] == [] && Value(xs[i + 1..]) == 0;
    hide Value;
    assert lo + (ds + [k]) == (lo + ds) + [k];
    ValueSnoc(lo + ds, k);
    ValueBound(xs);
    PowAdd(|xs|, |xs|);
    MulStrict(Value(xs), Pow(|xs|));
    if k >= 1 {
      MulMonotone(1, k, Pow(|lo + ds|));
      assert false;
    }
  }

  lemma MulStrict(a: int, p: int)
    requires 0 <= a < p
    ensures a * a < p * p
  {
    MulMonotone(a, p, a);
    MulMonotone(a + 1, p, p);
    assert (a + 1) * p == a * p + p;
  }

  /** The digits of the operand from place i on, as they still lie in x from xo on. */
  ghost predicate Ahead(x: seq<Digit>, xo: nat, xs: seq<Digit>, i: nat) {
    i <= |xs| && xo + |xs| <= |x| && x[xo + i..xo + |xs|] == xs[i..]
  }

  lemma AheadFirst(x: seq<Digit>, xo: nat, xs: seq<Digit>, i: nat)
    requires Ahead(x, xo, xs, i) && i < |xs|
    ensures x[xo + i] == xs[i] && Ahead(x, xo, xs, i + 1)
  {
    assert x[xo + i..xo + |xs|][1..] == x[xo + i + 1..xo + |xs|];
  }

  /** What a row writes lies below the digits that later rows read. */
  lemma AheadAfter(r1: seq<Digit>, o: nat, ds: seq<Digit>, r: seq<Digit>, xs: seq<Digit>, i: nat)
    requires Ahead(r1, |xs|, xs, i) && o + |ds| <= |xs| + i && r == Overwrite(r1, o, ds)
    ensures Ahead(r, |xs|, xs, i)
  {
    assert r[|xs| + i..2 * |xs|] == r1[|xs| + i..2 * |xs|];
  }

  /**
   * One pass of the outer loop of I_sqr; every row but the last stores its carry. Where x lies in r, the
   * carry overwrites the next digit of x, which has been read before.
   */
  method SquareRowInPlace(d: Digit, x: array<Digit>, xo: nat, xl: nat, i: nat, r: array<Digit>,
                          ghost xs: seq<Digit>, ghost ps: seq<Digit>, ghost r0: seq<Digit>)
    returns (d': Digit, ghost qs: seq<Digit>)
    requires i < xl == |xs| && xo + xl <= x.Length && 2 * xl <= r.Length == |r0| && (x == r ==> xo == xl)
    requires d == xs[i] && Ahead(x[..], xo, xs, i + 1)
    requires |ps| == i + xl + 1 && r[..] == Overwrite(r0, 0, ps) && SquarePartial(xs, i, ps)
    modifies r
    ensures |qs| == (if i + 1 < xl then i + xl + 2 else 2 * xl)
    ensures r[..] == Overwrite(r0, 0, qs) && SquarePartial(xs, i + 1, qs)
    ensures i + 1 < xl ==> d' == xs[i + 1] && Ahead(x[..], xo, xs, i + 2)
  {
    hide SquarePartial, SquareRowSum, Value, Pow, Ahead, Overwrite;
    ghost var r1 := r[..];
    OverwriteRow(r0, ps, 2 * i, ps[2 * i..]);
    AheadMeans(x[..], xo, xs, i + 1);
    d' := 0;
    if i + 1 < xl {
      AheadFirst(x[..], xo, xs, i + 1);
      d' := x[xo + i + 1];
    }
    ghost var ds;
    var k;
    assert r[2 * i..i + xl + 1] == r1[2 * i..i + xl + 1];
    ds, k := SquareRow(d, x, xo, xl, i, r);
    SquareRowAdded(xs, i, ps, ds, k);
    OverwriteRow(r0, ps, 2 * i, ds);
    qs := ps[..2 * i] + ds;
    if i + 1 < xl {
      OverwriteNext(r1, 2 * i, ds, k);
      OverwriteRow(r0, ps, 2 * i, ds + [k]);
      r[i + xl + 1] := k;
      qs := ps[..2 * i] + (ds + [k]);
      if x == r {
        AheadAfter(r1, 2 * i, ds + [k], r[..], xs, i + 2);
      }
    }
  }

  lemma AheadMeans(x: seq<Digit>, xo: nat, xs: seq<Digit>, i: nat)
    requires Ahead(x, xo, xs, i)
    ensures xo + i <= xo + |xs| <= |x| && x[xo + i..xo + |xs|] == xs[i..]
  {
  }

  lemma AheadStart(x: seq<Digit>, xo: nat, xs: seq<Digit>)
    requires 1 <= |xs| && xo + |xs| <= |x| && forall j :: 1 <= j < |xs| ==> x[xo + j] == xs[j]
    ensures Ahead(x, xo, xs, 1)
  {
  }

  /** A digit that is overwritten anyway does not matter. */
  lemma OverwriteSame(s: seq<Digit>, t: seq<Digit>, k: nat, ds: seq<Digit>)
    requires k < |ds| <= |s| && (t == s || t == s[k := 0])
    ensures Overwrite(s, 0, ds) == Overwrite(t, 0, ds)
    ensures forall j :: 0 <= j < |ds| ==> Overwrite(t, 0, ds)[j] == ds[j]
  {
  }

  /**
   * I_sqr: the square of the digits of x from xo on into r, whose low digits are zero on entry; x may be the
   * upper half of r itself.
   */
  method ISqr(x: array<Digit>, xo: nat, xl: nat, r: array<Digit>) returns (ghost ps: seq<Digit>, n: nat)
    requires 1 <= xl && xo + xl <= x.Length && 2 * xl <= r.Length && (x == r ==> xo == xl)
    requires AllZero(r[..if x == r then xl else xl + 1])
    modifies r
    ensures |ps| == 2 * xl && r[..] == Overwrite(old(r[..]), 0, ps)
    ensures Value(ps) == old(Value(x[xo..xo + xl])) * old(Value(x[xo..xo + xl]))
    ensures 2 * xl - 1 <= n <= 2 * xl && AllZero(ps[n..]) && Value(ps[..n]) == Value(ps)
    ensures n == 2 * xl <==> ps[2 * xl - 1] != 0
    ensures old(Normal(x[xo..xo + xl])) && old(Value(x[xo..xo + xl])) != 0 ==> Normal(ps[..n])
  {
    hide SquarePartial, SquareRowSum, Value, Pow, Ahead, Overwrite;
    ghost var xs, before := x[xo..xo + xl], r[..];
    var d := x[xo];
    if x == r {
      x[xo] := 0;
    }
    AheadStart(x[..], xo, xs);
    ghost var r0 := r[..];
    assert r0 == if x == r then before[xl := 0] else before;
    ps := r0[..xl + 1];
    SquarePartialStart(xs, ps);
    OverwriteOwn(r0, 0, xl + 1);
    assert r0[0..xl + 1] == ps;
    var i := 0;
    while i < xl
      invariant 0 <= i <= xl && |ps| == (if i < xl then i + xl + 1 else 2 * xl)
      invariant r[..] == Overwrite(r0, 0, ps)
      invariant i < xl ==> d == xs[i] && Ahead(x[..], xo, xs, i + 1)
      invariant SquarePartial(xs, i, ps)
    {
      d, ps := SquareRowInPlace(d, x, xo, xl, i, r, xs, ps, r0);
      i := i + 1;
    }
    SquarePartialEnd(xs, ps);
    OverwriteSame(before, r0, xl, ps);
    n := if r[2 * xl - 1] == 0 then 2 * xl - 1 else 2 * xl;
    ProductLength(xs, xs, ps, n);
  }

  /** The squaring loop and the general product leave the same digits. */
  method SquareAgreesWithProduct(x: array<Digit>, xl: nat)
    returns (square: seq<Digit>, n: nat, product: seq<Digit>, m: nat)
    requires 1 <= xl <= x.Length
    ensures square == product && |square| == 2 * xl && n == m
    ensures Value(square) == Value(x[..xl]) * Value(x[..xl])
  {
    hide Value, Pow, Overwrite;
    var r, s := new Digit[2 * xl](_ => 0), new Digit[2 * xl](_ => 0);
    ghost var r0, s0 := r[..], s[..];
    ghost var ps, qs;
    ps, n := ISqr(x, 0, xl, r);
    qs, m := IMul(x, xl, x, xl, s);
    ValueInjective(ps, qs);
    OverwriteWhole(r0, ps);
    OverwriteWhole(s0, qs);
    square, product := r[..], s[..];
  }

  lemma SquarePartialStart(xs: seq<Digit>, ps: seq<Digit>)
    requires AllZero(ps)
    ensures SquarePartial(xs, 0, ps)
  {
    ValueOfZeros(ps);
    assert xs[0..] == xs;
  }

  lemma SquarePartialEnd(xs: seq<Digit>, ps: seq<Digit>)
    requires SquarePartial(xs, |xs|, ps)
    ensures Value(ps) == Value(xs) * Value(xs)
  {
    assert Value(xs[|xs|..]) == 0;
    assert Pow(2 * |xs|) * (0 * 0) == 0;
  }

  /** The loop of D_mul for d >= 2; the target may be the vector itself. */
  method ScaleDigits(x: array<Digit>, xl: nat, d: Digit, r: array<Digit>) returns (ghost ds: seq<Digit>, c: Digit)
    requires xl <= x.Length && xl <= r.Length && d >= 2
    modifies r
    ensures |ds| == xl && r[..] == Overwrite(old(r[..]), 0, ds)
    ensures Value(ds) + c * Pow(xl) == d * old(Value(x[..xl]))
  {
    hide RowInv, Value, Pow, Overwrite;
    ghost var xs, w, r0 := x[..xl], seq(xl, _ => 0), r[..];
    RowStart(d, xs, w);
    OverwriteStart(r0, 0);
    ds := [];
    c := 0;
    var j := 0;
    while j < xl
      invariant 0 <= j <= xl && |ds| == j && r[..] == Overwrite(r0, 0, ds)
      invariant x != r ==> x[..xl] == xs
      invariant RowInv(d, xs, w, ds, j, c)
    {
      OverwriteNext(r0, 0, ds, 0);
      assert x[j] == xs[j];
      var p, c' := ScaleDigit(d, x[j], c);
      RowDigit(d, xs, w, ds, j, p, c, c');
      OverwriteNext(r0, 0, ds, p);
      r[j] := p;
      ds := ds + [p];
      c := c';
      j := j + 1;
    }
    RowEnd(d, xs, w, ds, c);
    ValueOfZeros(w);
  }

  method ScaleDigit(d: Digit, x: Digit, c: Digit) returns (p: Digit, c': Digit)
    requires d >= 2
    ensures d * x + c == p + B * c'
  {
    if d == 2 {
      var (s, k) := DSumC(x, x, c);
      return s, k;
    }
    c', p := DMulC(d, x, c);
  }

  /** D_mul: a vector times one digit, with the shortcuts for 0 and 1. */
  method DMul(x: array<Digit>, xl: nat, d: Digit, r: array<Digit>) returns (ghost ds: seq<Digit>, n: nat)
    requires 1 <= xl <= x.Length && xl < r.Length
    modifies r
    ensures n == |ds| <= xl + 1 && r[..] == Overwrite(old(r[..]), 0, ds)
    ensures Value(ds) == d * old(Value(x[..xl]))
    ensures old(Normal(x[..xl])) ==> Normal(ds)
  {
    ghost var xs, r0 := x[..xl], r[..];
    if d == 0 {
      r[0] := 0;
      assert r[..] == Overwrite(r0, 0, [0]) && Value([0]) == 0;
      return [0], 1;
    } else if d == 1 {
      CopyDigits(x, xl, r);
      return xs, xl;
    }
    var c;
    ds, c := ScaleDigits(x, xl, d, r);
    ScaledIsNormal(d, xs, ds, c);
    if c == 0 {
      return ds, xl;
    }
    ValueSnoc(ds, c);
    OverwriteNext(r0, 0, ds, c);
    r[xl] := c;
    ds, n := ds + [c], xl + 1;
  }

  lemma ScaledIsNormal(d: Digit, xs: seq<Digit>, ds: seq<Digit>, c: Digit)
    requires |xs| == |ds| >= 1 && d >= 2 && Value(ds) + c * Pow(|ds|) == d * Value(xs)
    ensures c == 0 && Normal(xs) ==> Normal(ds)
  {
    if c == 0 && Normal(xs) {
      MulMonotone(1, d, Value(xs));
      SumIsNormal(xs, ds);
    }
  }

  /** MOVE_DIGITS of a vector to another array, or onto itself. */
  method CopyDigits(x: array<Digit>, xl: nat, r: array<Digit>)
    requires xl <= x.Length && xl <= r.Length
    modifies r
    ensures r[..] == Overwrite(old(r[..]), 0, old(x[..xl]))
  {
    hide Overwrite;
    ghost var xs, r0 := x[..xl], r[..];
    var j := 0;
    OverwriteStart(r0, 0);
    assert xs[..0] == [];
    while j < xl
      invariant 0 <= j <= xl && r[..] == Overwrite(r0, 0, xs[..j])
      invariant x != r ==> x[..xl] == xs
    {
      OverwriteNext(r0, 0, xs[..j], 0);
      assert x[j] == xs[j];
      OverwriteNext(r0, 0, xs[..j], xs[j]);
      r[j] := x[j];
      assert xs[..j + 1] == xs[..j] + [xs[j]];
      j := j + 1;
    }
    assert xs[..xl] == xs;
  }
}
