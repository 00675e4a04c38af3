/** Addition, subtraction, negation and comparison of digit vectors held in arrays.
    A vector is an array, an offset into it and a length; source and target may be the same vector.
    What a method writes is returned as the ghost digit sequence ds. */
module Vectors {
  import opened Digits
  import opened Words

  /** The contents s with the digits ds written at offset o. */
  ghost function Overwrite(s: seq<Digit>, o: nat, ds: seq<Digit>): (t: seq<Digit>)
    requires o + |ds| <= |s|
    ensures |t| == |s|
  {
    s[..o] + ds + s[o + |ds|..]
  }

  lemma OverwriteWhole(s: seq<Digit>, t: seq<Digit>)
    requires |s| == |t|
    ensures Overwrite(s, 0, t) == t
  {
  }

  lemma OverwriteParts(s: seq<Digit>, o: nat, ds: seq<Digit>)
    requires o + |ds| <= |s|
    ensures Overwrite(s, o, ds)[..o] == s[..o]
    ensures Overwrite(s, o, ds)[o..o + |ds|] == ds
    ensures Overwrite(s, o, ds)[o + |ds|..] == s[o + |ds|..]
  {
  }

  lemma OverwritePrefix(s: seq<Digit>, ds: seq<Digit>, n: nat)
    requires n <= |ds| <= |s|
    ensures Overwrite(s, 0, ds)[..n] == ds[..n]
    ensures n == |ds| ==> ds[..n] == ds
  {
    var u := Overwrite(s, 0, ds);
    OverwriteParts(s, 0, ds);
    hide Overwrite;
    assert u[..n] == u[0..0 + |ds|][..n];
  }

  lemma OverwriteStart(s: seq<Digit>, o: nat)
    requires o <= |s|
    ensures Overwrite(s, o, []) == s
  {
  }

  lemma OverwriteNext(s: seq<Digit>, o: nat, ds: seq<Digit>, d: Digit)
    requires o + |ds| < |s|
    ensures Overwrite(s, o, ds)[o + |ds| := d] == Overwrite(s, o, ds + [d])
    ensures forall k :: o + |ds| <= k < |s| ==> Overwrite(s, o, ds)[k] == s[k]
  {
  }

  lemma OverwriteConcat(s: seq<Digit>, o: nat, ds: seq<Digit>, es: seq<Digit>)
    requires o + |ds| + |es| <= |s|
    ensures Overwrite(Overwrite(s, o, ds), o + |ds|, es) == Overwrite(s, o, ds + es)
    ensures Overwrite(s, o, ds)[o + |ds|..] == s[o + |ds|..]
  {
  }

  lemma OverwriteWindow(s: seq<Digit>, o: nat, ds: seq<Digit>)
    requires o + |ds| <= |s|
    ensures Overwrite(s, o, ds)[o..o + |ds|] == ds
  {
  }

  /** A source vector can be read while a target vector is written upwards. */
  ghost predicate Readable(x: array<Digit>, xo: nat, r: array<Digit>, ro: nat) {
    x != r || xo == ro
  }

  /** One digit of a carry loop: "x + y + carry in = r + carry out" moves up one place. */
  lemma SumDigit(xs: seq<Digit>, ys: seq<Digit>, rs: seq<Digit>, k: nat, d: Digit, c: Digit, c': Digit)
    requires k == |rs| && k < |xs| && k < |ys|
    requires Value(xs[..k]) + Value(ys[..k]) == Value(rs) + c * Pow(k)
    requires xs[k] + ys[k] + c == d + B * c'
    ensures Value(xs[..k + 1]) + Value(ys[..k + 1]) == Value(rs + [d]) + c' * Pow(k + 1)
  {
    ValueTake(xs, k);
    ValueTake(ys, k);
    ValueSnoc(rs, d);
    CarryArithmetic(xs[k], ys[k], d, c, c', Pow(k));
  }

  lemma CarryDigit(xs: seq<Digit>, rs: seq<Digit>, k: nat, carry: int, d: Digit, c: Digit, c': Digit)
    requires k == |rs| && k < |xs|
    requires Value(xs[..k]) + carry == Value(rs) + c * Pow(k)
    requires xs[k] + c == d + B * c'
    ensures Value(xs[..k + 1]) + carry == Value(rs + [d]) + c' * Pow(k + 1)
  {
    ValueTake(xs, k);
    ValueSnoc(rs, d);
    CarryArithmetic(xs[k], 0, d, c, c', Pow(k));
  }

  lemma CarryArithmetic(x: int, y: int, d: int, c: int, c': int, p: int)
    requires x + y + c == d + B * c'
    ensures x * p + y * p + c * p == d * p + c' * (B * p)
  {
    assert (x + y + c) * p == (d + B * c') * p;
  }

  lemma BorrowArithmetic(x: int, y: int, d: int, c: int, c': int, p: int)
    requires x - y - c == d - B * c'
    ensures x * p - y * p - c * p == d * p - c' * (B * p)
  {
    assert (x - y - c) * p == (d - B * c') * p;
  }

  lemma DifferenceDigit(xs: seq<Digit>, ys: seq<Digit>, rs: seq<Digit>, k: nat, d: Digit, c: Digit, c': Digit)
    requires k == |rs| && k < |xs| && k < |ys|
    requires Value(xs[..k]) - Value(ys[..k]) == Value(rs) - c * Pow(k)
    requires xs[k] - ys[k] - c == d - B * c'
    ensures Value(xs[..k + 1]) - Value(ys[..k + 1]) == Value(rs + [d]) - c' * Pow(k + 1)
  {
    ValueTake(xs, k);
    ValueTake(ys, k);
    ValueSnoc(rs, d);
    BorrowArithmetic(xs[k], ys[k], d, c, c', Pow(k));
  }

  lemma BorrowDigit(xs: seq<Digit>, rs: seq<Digit>, k: nat, borrow: int, d: Digit, c: Digit, c': Digit)
    requires k == |rs| && k < |xs|
    requires Value(xs[..k]) - borrow == Value(rs) - c * Pow(k)
    requires xs[k] - c == d - B * c'
    ensures Value(xs[..k + 1]) - borrow == Value(rs + [d]) - c' * Pow(k + 1)
  {
    ValueTake(xs, k);
    ValueSnoc(rs, d);
    BorrowArithmetic(xs[k], 0, d, c, c', Pow(k));
  }

  /** A carry out of the low part goes into the high part. */
  lemma JoinParts(xs: seq<Digit>, m: nat, y: int, ds: seq<Digit>, es: seq<Digit>, c: int, c': int)
    requires m == |ds| && |xs| == m + |es|
    requires Value(ds) + c * Pow(m) == Value(xs[..m]) + y
    requires Value(es) + c' * Pow(|es|) == Value(xs[m..]) + c
    ensures Value(ds + es) + c' * Pow(|xs|) == Value(xs) + y
  {
    hide Pow, Value;
    var lo, hi := xs[..m], xs[m..];
    assert xs == lo + hi;
    ValueSplit(lo, hi);
    ValueSplit(ds, es);
    PowAdd(m, |es|);
    JoinArithmetic(Value(ds), Value(es), Value(lo), Value(hi), y, c, c', Pow(m), Pow(|es|));
  }

  lemma JoinArithmetic(d: int, e: int, lo: int, hi: int, y: int, c: int, c': int, p: int, q: int)
    requires d + c * p == lo + y && e + c' * q == hi + c
    ensures (d + p * e) + c' * (p * q) == (lo + p * hi) + y
  {
    assert p * (e + c' * q) == p * (hi + c);
    assert p * (c' * q) == c' * (p * q);
  }

  /** I_comp: by length first, then by the first differing digit from the top. */
  method Compare(x: array<Digit>, xl: nat, y: array<Digit>, yl: nat) returns (c: int)
    requires xl <= x.Length && yl <= y.Length
    ensures xl < yl ==> c == -1
    ensures xl > yl ==> c == 1
    ensures xl == yl ==> c == if Value(x[..xl]) < Value(y[..yl]) then -1
                              else if Value(x[..xl]) > Value(y[..yl]) then 1 else 0
  {
    if xl < yl {
      return -1;
    } else if xl > yl {
      return 1;
    }
    var n := xl;
    while n > 0 && x[n - 1] == y[n - 1]
      invariant 0 <= n <= xl
      invariant forall k :: n <= k < xl ==> x[k] == y[k]
    {
      n := n - 1;
    }
    if n == 0 {
      assert x[..xl] == y[..yl];
      return 0;
    }
    if x[n - 1] < y[n - 1] {
      TopDifferenceDecides(x[..xl], y[..yl], n - 1);
      return -1;
    }
    TopDifferenceDecides(y[..yl], x[..xl], n - 1);
    return 1;
  }

  /** The carry loop of I_add and D_add. */
  method PropagateCarry(x: array<Digit>, xo: nat, xl: nat, carry: Digit, r: array<Digit>, ro: nat)
    returns (ghost ds: seq<Digit>, c: Digit)
    requires xo + xl <= x.Length && ro + xl <= r.Length && Readable(x, xo, r, ro)
    modifies r
    ensures |ds| == xl && r[..] == Overwrite(old(r[..]), ro, ds)
    ensures Value(ds) + c * Pow(xl) == old(Value(x[xo..xo + xl])) + carry
    ensures carry <= 1 || xl > 0 ==> c <= 1
  {
    hide Value, Pow, Overwrite;
    ghost var xs, r0 := x[xo..xo + xl], r[..];
    ds := [];
    NoDigits();
    OverwriteStart(r0, ro);
    c := carry;
    var j := 0;
    while j < xl
      invariant j <= xl && |ds| == j && r[..] == Overwrite(r0, ro, ds)
      invariant x != r ==> x[xo..xo + xl] == xs
      invariant Value(xs[..j]) + carry == Value(ds) + c * Pow(j)
      invariant carry <= 1 || j > 0 ==> c <= 1
    {
      OverwriteNext(r0, ro, ds, 0);
      assert x[xo + j] == xs[j];
      var xr := Wrap(x[xo + j] + c);
      CarryDigit(xs, ds, j, carry, xr, c, Bit(xr < c));
      OverwriteNext(r0, ro, ds, xr);
      r[ro + j] := xr;
      ds := ds + [xr];
      c := Bit(xr < c);
      j := j + 1;
    }
    assert xs[..xl] == xs;
  }

  lemma NoDigits()
    ensures Value([]) == 0 && Pow(0) == 1
  {
  }

  /** The first loop of I_add. */
  method AddDigits(x: array<Digit>, xo: nat, y: array<Digit>, yo: nat, n: nat, r: array<Digit>, ro: nat)
    returns (ghost ds: seq<Digit>, c: Digit)
    requires xo + n <= x.Length && yo + n <= y.Length && ro + n <= r.Length
    requires Readable(x, xo, r, ro) && Readable(y, yo, r, ro)
    modifies r
    ensures |ds| == n && r[..] == Overwrite(old(r[..]), ro, ds)
    ensures Value(ds) + c * Pow(n) == old(Value(x[xo..xo + n])) + old(Value(y[yo..yo + n]))
    ensures c <= 1
  {
    hide Overwrite;
    ghost var xs, ys, r0 := x[xo..xo + n], y[yo..yo + n], r[..];
    ds := [];
    OverwriteStart(r0, ro);
    c := 0;
    var j := 0;
    while j < n
      invariant j <= n && |ds| == j && r[..] == Overwrite(r0, ro, ds)
      invariant x != r ==> x[xo..xo + n] == xs
      invariant y != r ==> y[yo..yo + n] == ys
      invariant Value(xs[..j]) + Value(ys[..j]) == Value(ds) + c * Pow(j)
      invariant c <= 1
    {
      OverwriteNext(r0, ro, ds, 0);
      assert x[xo + j] == xs[j] && y[yo + j] == ys[j];
      var (d, c') := DSumC(x[xo + j], y[yo + j], c);
      SumDigit(xs, ys, ds, j, d, c, c');
      OverwriteNext(r0, ro, ds, d);
      r[ro + j] := d;
      ds := ds + [d];
      c := c';
      j := j + 1;
    }
    assert xs[..n] == xs && ys[..n] == ys;
  }

  /** The final carry digit of I_add and D_add. */
  method StoreCarry(r: array<Digit>, ro: nat, n: nat, c: Digit, ghost r0: seq<Digit>, ghost ds: seq<Digit>)
    returns (ghost es: seq<Digit>, m: nat)
    requires c <= 1 && |ds| == n && ro + n <= r.Length == |r0| && (c != 0 ==> ro + n < r.Length)
    requires r[..] == Overwrite(r0, ro, ds)
    modifies r
    ensures m == |es| && m == (if c == 0 then n else n + 1) && r[..] == Overwrite(r0, ro, es)
    ensures es == if c == 0 then ds else ds + [1]
    ensures Value(es) == Value(ds) + c * Pow(n)
  {
    if c != 0 {
      ValueSnoc(ds, 1);
      OverwriteNext(r0, ro, ds, 1);
      r[ro + n] := 1;
      return ds + [1], n + 1;
    }
    return ds, n;
  }

  /** D_add: a vector plus one digit; the target may be the vector itself. */
  method DAdd(x: array<Digit>, xo: nat, xl: nat, c: Digit, r: array<Digit>, ro: nat)
    returns (ghost ds: seq<Digit>, n: nat)
    requires 1 <= xl && xo + xl <= x.Length && ro + xl <= r.Length && Readable(x, xo, r, ro)
    requires ro + xl < r.Length || Value(x[xo..xo + xl]) + c < Pow(xl)
    modifies r
    ensures n == |ds| && xl <= n <= xl + 1 && ro + n <= r.Length && r[..] == Overwrite(old(r[..]), ro, ds)
    ensures Value(ds) == old(Value(x[xo..xo + xl])) + c
    ensures old(Normal(x[xo..xo + xl])) ==> Normal(ds)
    ensures n == xl + 1 ==> ds[xl] == 1
  {
    ghost var xs, r0 := x[xo..xo + xl], r[..];
    var carry;
    ds, carry := PropagateCarry(x, xo, xl, c, r, ro);
    ds, n := StoreCarry(r, ro, xl, carry, r0, ds);
    SumIsNormal(xs, ds);
  }

  /** A vector that is no longer and no smaller than a normal one has no leading zero. */
  lemma SumIsNormal(xs: seq<Digit>, ds: seq<Digit>)
    requires |xs| >= 1 && Value(ds) >= Value(xs)
    requires |ds| == |xs| || (|ds| == |xs| + 1 && ds[|xs|] != 0)
    ensures Normal(xs) ==> Normal(ds)
  {
    if Normal(xs) && |ds| == |xs| > 1 && ds[|ds| - 1] == 0 {
      LeadingDigit(ds);
      NormalLowerBound(xs);
    }
  }

  /** I_add: the sum of two vectors, the longer one first. */
  method IAdd(x: array<Digit>, xl: nat, y: array<Digit>, yl: nat, r: array<Digit>)
    returns (ghost ds: seq<Digit>, n: nat)
    requires 1 <= yl <= xl <= x.Length && yl <= y.Length && xl < r.Length && r != x && r != y
    modifies r
    ensures n == |ds| && xl <= n <= xl + 1 && r[..] == Overwrite(old(r[..]), 0, ds)
    ensures Value(ds) == Value(x[..xl]) + Value(y[..yl])
    ensures Normal(x[..xl]) ==> Normal(ds)
  {
    hide Value, Pow, Overwrite, Normal;
    ghost var xs, r0 := x[..xl], r[..];
    assert xs[..yl] == x[0..yl] && xs[yl..] == x[yl..xl] && y[..yl] == y[0..yl];
    ghost var lo, hi;
    var c;
    lo, c := AddDigits(x, 0, y, 0, yl, r, 0);
    var c';
    hi, c' := PropagateCarry(x, yl, xl - yl, c, r, yl);
    OverwriteConcat(r0, 0, lo, hi);
    JoinParts(xs, yl, Value(y[..yl]), lo, hi, c, c');
    ds, n := StoreCarry(r, 0, xl, c', r0, lo + hi);
    SumIsNormal(xs, ds);
  }

  /** The first m digits of ds are its value without leading zeros. */
  ghost predicate Stripped(ds: seq<Digit>, m: nat) {
    1 <= m <= |ds| && Normal(ds[..m]) && AllZero(ds[m..]) && Value(ds[..m]) == Value(ds)
  }

  /** The closing loop of every subtraction: the length without leading zeros, at least one. */
  method Strip(r: array<Digit>, ro: nat, n: nat, ghost ds: seq<Digit>) returns (m: nat)
    requires 1 <= n && ro + n <= r.Length && r[ro..ro + n] == ds
    ensures Stripped(ds, m)
  {
    m := n;
    while m > 1 && r[ro + m - 1] == 0
      invariant 1 <= m <= n
      invariant AllZero(ds[m..])
    {
      assert r[ro + m - 1] == ds[m - 1];
      m := m - 1;
    }
    assert m > 1 ==> r[ro + m - 1] == ds[m - 1];
    ValueDropZeros(ds, m);
  }

  /** The borrow loop of I_sub and D_sub. */
  method PropagateBorrow(x: array<Digit>, xo: nat, xl: nat, borrow: Digit, r: array<Digit>, ro: nat)
    returns (ghost ds: seq<Digit>, c: Digit)
    requires xo + xl <= x.Length && ro + xl <= r.Length && Readable(x, xo, r, ro)
    modifies r
    ensures |ds| == xl && r[..] == Overwrite(old(r[..]), ro, ds)
    ensures Value(ds) - c * Pow(xl) == old(Value(x[xo..xo + xl])) - borrow
  {
    hide Value, Pow, Overwrite;
    ghost var xs, r0 := x[xo..xo + xl], r[..];
    ds := [];
    NoDigits();
    OverwriteStart(r0, ro);
    c := borrow;
    var j := 0;
    while j < xl
      invariant j <= xl && |ds| == j && r[..] == Overwrite(r0, ro, ds)
      invariant x != r ==> x[xo..xo + xl] == xs
      invariant Value(xs[..j]) - borrow == Value(ds) - c * Pow(j)
    {
      OverwriteNext(r0, ro, ds, 0);
      assert x[xo + j] == xs[j];
      var xr := x[xo + j];
      var yr := Wrap(xr - c);
      BorrowDigit(xs, ds, j, borrow, yr, c, Bit(yr > xr));
      OverwriteNext(r0, ro, ds, yr);
      r[ro + j] := yr;
      ds := ds + [yr];
      c := Bit(yr > xr);
      j := j + 1;
    }
    assert xs[..xl] == xs;
  }

  /** The first loop of I_sub. */
  method SubtractDigits(x: array<Digit>, xo: nat, y: array<Digit>, yo: nat, n: nat, r: array<Digit>, ro: nat)
    returns (ghost ds: seq<Digit>, c: Digit)
    requires xo + n <= x.Length && yo + n <= y.Length && ro + n <= r.Length
    requires Readable(x, xo, r, ro) && Readable(y, yo, r, ro)
    modifies r
    ensures |ds| == n && r[..] == Overwrite(old(r[..]), ro, ds)
    ensures Value(ds) - c * Pow(n) == old(Value(x[xo..xo + n])) - old(Value(y[yo..yo + n]))
    ensures c <= 1
  {
    hide Overwrite;
    ghost var xs, ys, r0 := x[xo..xo + n], y[yo..yo + n], r[..];
    ds := [];
    OverwriteStart(r0, ro);
    c := 0;
    var j := 0;
    while j < n
      invariant j <= n && |ds| == j && r[..] == Overwrite(r0, ro, ds)
      invariant x != r ==> x[xo..xo + n] == xs
      invariant y != r ==> y[yo..yo + n] == ys
      invariant Value(xs[..j]) - Value(ys[..j]) == Value(ds) - c * Pow(j)
      invariant c <= 1
    {
      OverwriteNext(r0, ro, ds, 0);
      assert x[xo + j] == xs[j] && y[yo + j] == ys[j];
      var (d, c') := DSubB(x[xo + j], y[yo + j], c);
      DifferenceDigit(xs, ys, ds, j, d, c, c');
      OverwriteNext(r0, ro, ds, d);
      r[ro + j] := d;
      ds := ds + [d];
      c := c';
      j := j + 1;
    }
    assert xs[..n] == xs && ys[..n] == ys;
  }

  /** No borrow is left when the true difference is not negative. */
  lemma NoBorrow(d: int, c: int, p: int)
    requires 0 <= d < p && c >= 0 && d - c * p >= 0
    ensures c == 0
  {
    if c >= 1 { MulMonotone(1, c, p); }
  }

  /** D_sub: a vector minus one digit not above it; the target may be the vector itself. */
  method DSubtract(x: array<Digit>, xo: nat, xl: nat, c: Digit, r: array<Digit>, ro: nat)
    returns (ghost ds: seq<Digit>, n: nat)
    requires 1 <= xl && xo + xl <= x.Length && ro + xl <= r.Length && Readable(x, xo, r, ro)
    requires c <= Value(x[xo..xo + xl])
    modifies r
    ensures |ds| == xl && r[..] == Overwrite(old(r[..]), ro, ds)
    ensures Value(ds) == old(Value(x[xo..xo + xl])) - c
    ensures Stripped(ds, n)
  {
    ghost var r0 := r[..];
    var b;
    ds, b := PropagateBorrow(x, xo, xl, c, r, ro);
    ValueBound(ds);
    NoBorrow(Value(ds), b, Pow(xl));
    OverwriteWindow(r0, ro, ds);
    n := Strip(r, ro, xl, ds);
  }

  lemma JoinBorrows(xs: seq<Digit>, ys: seq<Digit>, lo: seq<Digit>, hi: seq<Digit>, c: Digit, c': Digit)
    requires |ys| == |lo| && |xs| == |lo| + |hi| && Value(xs) >= Value(ys)
    requires Value(lo) - c * Pow(|lo|) == Value(xs[..|lo|]) - Value(ys)
    requires Value(hi) - c' * Pow(|hi|) == Value(xs[|lo|..]) - c
    ensures Value(lo + hi) == Value(xs) - Value(ys)
  {
    hide Pow, Value;
    var v: int, b: int, b': int := Value(ys), c, c';
    assert (-b) * Pow(|lo|) == -(b * Pow(|lo|)) && (-b') * Pow(|hi|) == -(b' * Pow(|hi|));
    JoinParts(xs, |lo|, -v, lo, hi, -b, -b');
    ValueBound(lo + hi);
    assert (-b') * Pow(|xs|) == -(b' * Pow(|xs|));
    NoBorrow(Value(lo + hi), c', Pow(|xs|));
  }

  /** I_sub: the difference of two vectors, the first not below the second;
      the target may be the second vector. */
  method ISub(x: array<Digit>, xl: nat, y: array<Digit>, yl: nat, r: array<Digit>)
    returns (ghost ds: seq<Digit>, n: nat)
    requires 1 <= yl <= xl <= x.Length && yl <= y.Length && xl <= r.Length && r != x
    requires Value(x[..xl]) >= Value(y[..yl])
    modifies r
    ensures |ds| == xl && r[..] == Overwrite(old(r[..]), 0, ds)
    ensures Value(ds) == Value(x[..xl]) - old(Value(y[..yl]))
    ensures Stripped(ds, n)
  {
    hide Value, Overwrite, Pow;
    ghost var xs, ys, r0 := x[..xl], y[..yl], r[..];
    assert xs[..yl] == x[0..yl] && xs[yl..] == x[yl..xl] && ys == y[0..yl];
    ghost var lo, hi;
    var c;
    lo, c := SubtractDigits(x, 0, y, 0, yl, r, 0);
    var c';
    hi, c' := PropagateBorrow(x, yl, xl - yl, c, r, yl);
    OverwriteConcat(r0, 0, lo, hi);
    ds := lo + hi;
    JoinBorrows(xs, ys, lo, hi, c, c');
    OverwriteWindow(r0, 0, ds);
    n := Strip(r, 0, xl, ds);
  }

  /** The loop of Z_sub: zero minus every digit, with borrow. */
  method NegateDigits(y: array<Digit>, yl: nat, r: array<Digit>) returns (ghost ds: seq<Digit>, c: Digit)
    requires yl <= y.Length && yl <= r.Length
    modifies r
    ensures |ds| == yl && r[..] == Overwrite(old(r[..]), 0, ds)
    ensures old(Value(y[..yl])) == c * Pow(yl) - Value(ds) && c <= 1
  {
    ghost var ys, r0 := y[..yl], r[..];
    ds := [];
    c := 0;
    var j := 0;
    while j < yl
      invariant j <= yl && |ds| == j && r[..] == Overwrite(r0, 0, ds)
      invariant y != r ==> y[..yl] == ys
      invariant Value(ys[..j]) == c * Pow(j) - Value(ds)
      invariant c <= 1
    {
      OverwriteNext(r0, 0, ds, 0);
      assert y[j] == ys[j];
      var (d, c') := DSubB(0, y[j], c);
      NegateDigit(ys, ds, j, d, c, c');
      OverwriteNext(r0, 0, ds, d);
      r[j] := d;
      ds := ds + [d];
      c := c';
      j := j + 1;
    }
    assert ys[..yl] == ys;
  }

  lemma NegateDigit(ys: seq<Digit>, rs: seq<Digit>, k: nat, d: Digit, c: Digit, c': Digit)
    requires k == |rs| && k < |ys|
    requires Value(ys[..k]) == c * Pow(k) - Value(rs)
    requires 0 - ys[k] - c == d - B * c'
    ensures Value(ys[..k + 1]) == c' * Pow(k + 1) - Value(rs + [d])
  {
    ValueTake(ys, k);
    ValueSnoc(rs, d);
    BorrowArithmetic(0, ys[k], d, c, c', Pow(k));
  }

  /** Z_sub: the vector negated modulo B^yl, in place or not. */
  method ZSub(y: array<Digit>, yl: nat, r: array<Digit>) returns (ghost ds: seq<Digit>, n: nat)
    requires 1 <= yl <= y.Length && yl <= r.Length
    modifies r
    ensures |ds| == yl && r[..] == Overwrite(old(r[..]), 0, ds)
    ensures Value(ds) == if old(Value(y[..yl])) == 0 then 0 else Pow(yl) - old(Value(y[..yl]))
    ensures Stripped(ds, n)
  {
    ghost var r0 := r[..];
    ValueBound(y[..yl]);
    var c;
    ds, c := NegateDigits(y, yl, r);
    ValueBound(ds);
    OverwriteWindow(r0, 0, ds);
    n := Strip(r, 0, yl, ds);
  }
}
