/** Long division of digit vectors (I_div, I_rem). The remainder may overshoot below zero; it is then kept
    negated, a flag records its sign, and later steps add or subtract quotient digits accordingly. */
module LongDivision {
  import opened Digits
  import opened Vectors
  import opened Multiply
  import opened Divide

  /** x is q*y plus or minus the remainder, depending on the sign flag. */
  ghost predicate Balance(x: int, q: int, y: int, r: int, neg: bool) {
    x == if neg then q * y - r else q * y + r
  }

  lemma BalanceStep(x: int, q: int, y: int, r: int, neg: bool, d: int, p: int, r': int, flip: bool)
    requires Balance(x, q, y, r, neg)
    requires r' == if flip then (d * y) * p - r else r - (d * y) * p
    ensures Balance(x, if neg then q - d * p else q + d * p, y, r', neg != flip)
  {
    assert (d * y) * p == (d * p) * y;
    assert (q - d * p) * y == q * y - (d * p) * y;
    assert (q + d * p) * y == q * y + (d * p) * y;
  }

  /** The test at the end of the loop decides whether the remainder is still at least y. */
  lemma TestDecides(r: seq<Digit>, rl: nat, ys: seq<Digit>, c: int)
    requires rl <= |r| && AllZero(r[rl..]) && Normal(ys) && |ys| > 1
    requires rl < |ys| ==> c == -1
    requires rl > |ys| ==> c == 1
    requires rl == |ys| ==> c == if Value(r[..rl]) < Value(ys) then -1
                                 else if Value(r[..rl]) > Value(ys) then 1 else 0
    ensures c >= 0 ==> Continues(r, rl, ys)
    ensures c < 0 ==> Value(r) < Value(ys) && rl <= |ys|
  {
    hide Value, Pow;
    ShortValue(r, rl);
    if rl < |ys| {
      NormalLowerBound(ys);
      PowMonotone(rl, |ys| - 1);
    }
  }

  /** Removing leading zeros of the final remainder. */
  method TrimRemainder(r: array<Digit>, rl0: nat) returns (rl: nat)
    requires 1 <= rl0 <= r.Length && AllZero(r[rl0..])
    ensures 1 <= rl <= rl0 && Normal(r[..rl]) && AllZero(r[rl..]) && Value(r[..rl]) == Value(r[..])
  {
    rl := rl0;
    while rl > 1 && r[rl - 1] == 0
      invariant 1 <= rl <= rl0 && AllZero(r[rl..])
    {
      assert r[rl - 1..] == [r[rl - 1]] + r[rl..];
      rl := rl - 1;
    }
    ShortValue(r[..], rl);
  }

  /** The end of I_div and I_rem: a remainder on the negative side is replaced by y minus it. */
  method FinishRemainder(r: array<Digit>, rl0: nat, y: array<Digit>, yl: nat, neg: bool)
    returns (rl: nat, fix: bool)
    requires 1 <= yl <= y.Length && yl <= r.Length && rl0 <= yl && r != y
    requires AllZero(r[rl0..]) && Value(r[..]) < Value(y[..yl])
    modifies r
    ensures fix <==> neg && old(Value(r[..])) != 0
    ensures 1 <= rl <= yl && Normal(r[..rl]) && AllZero(r[rl..]) && Value(r[..rl]) == Value(r[..])
    ensures Value(r[..]) == if fix then Value(y[..yl]) - old(Value(r[..])) else old(Value(r[..]))
  {
    hide Value, Pow, Overwrite;
    rl := if rl0 == 0 then 1 else rl0;
    assert rl0 == 0 ==> r[1..] == r[0..][1..];
    rl := TrimRemainder(r, rl);
    ZeroVector(r[..rl]);
    fix := neg && (rl > 1 || r[0] != 0);
    if fix {
      ghost var s, ds := r[..], [];
      ShortValue(s, yl);
      assert s[..rl] == r[..rl];
      ds, rl := ISub(y, yl, r, rl, r);
      OverwriteWindow(s, 0, ds);
      ZerosFrom(s, r[..], 0, ds, rl);
      ShortValue(r[..], rl);
      assert r[..rl] == ds[..rl];
    }
  }

  /** The quotient and remainder read off a balanced end state. */
  lemma BalancedRemainder(x: int, q: int, y: int, r: int, neg: bool, fix: bool, r': int)
    requires Balance(x, q, y, r, neg) && 0 <= r < y
    requires fix <==> neg && r != 0
    requires r' == if fix then y - r else r
    ensures var q' := if fix then q - 1 else q; x == q' * y + r' && 0 <= r' < y
  {
    assert (q - 1) * y == q * y - y;
  }

  /** The remainder vector between two passes of a division: rl digits, rp of them below y's window. */
  ghost predicate RestOk(r: seq<Digit>, rp: int, rl: nat, ys: seq<Digit>, more: bool) {
    rl <= |r| && rp + |ys| == rl && AllZero(r[rl..]) &&
    (more ==> rp >= 0 && Continues(r, rl, ys)) &&
    (!more ==> Value(r) < Value(ys) && rl <= |ys|)
  }

  /** One pass of the loop of I_rem. */
  method RemPass(r: array<Digit>, rp: nat, rl: nat, neg: bool, y: array<Digit>, yl: nat, ghost x: int, ghost q: int)
    returns (rp': int, rl': nat, neg': bool, more: bool, ghost q': int)
    requires 2 <= yl <= y.Length && rl <= r.Length && r != y && Normal(y[..yl])
    requires RestOk(r[..], rp, rl, y[..yl], true) && Balance(x, q, Value(y[..yl]), Value(r[..]), neg)
    modifies r
    ensures RestOk(r[..], rp', rl', y[..yl], more) && Balance(x, q', Value(y[..yl]), Value(r[..]), neg')
    ensures rl' < rl || (rl' == rl && Value(r[..]) < old(Value(r[..])))
  {
    hide Value, Pow, Balance, Stepped, Continues;
    ghost var r0, ys := r[..], y[..yl];
    var d, o, nsz, nnsz, flip := DivStep(r, rp, rl, y, yl);
    SteppedBalance(x, q, r0, neg, rl, ys, d, o, r[..], o + nnsz, flip);
    q' := if neg then q - d * Pow(o) else q + d * Pow(o);
    neg' := if flip then !neg else neg;
    rp' := o - (yl - nnsz);
    rl' := rl - (nsz - nnsz);
    var c := Compare(r, rl', y, yl);
    TestDecides(r[..], rl', ys, c);
    ContinuesLength(r[..], rl', ys);
    more := c >= 0;
  }

  /** I_rem: the remainder of x by y in r, for x not below y and y of at least two digits. */
  method IRem(x: array<Digit>, xl: nat, y: array<Digit>, yl: nat, r: array<Digit>) returns (rl: nat, ghost q: int)
    requires 2 <= yl <= xl <= x.Length && yl <= y.Length && r.Length == xl && r != y
    requires Normal(x[..xl]) && Normal(y[..yl]) && Value(x[..xl]) >= Value(y[..yl])
    modifies r
    ensures 1 <= rl <= yl && Normal(r[..rl])
    ensures old(Value(x[..xl])) == q * Value(y[..yl]) + Value(r[..rl]) && Value(r[..rl]) < Value(y[..yl])
  {
    hide Value, Pow, Balance, RestOk;
    ghost var xs, ys, s := x[..xl], y[..yl], r[..];
    CopyDigits(x, xl, r);
    OverwriteWhole(s, xs);
    var rp: int, neg, more := xl - yl, false, true;
    rl, q := xl, 0;
    StartDivision(xs, ys);
    while more
      invariant rl <= xl && RestOk(r[..], rp, rl, ys, more)
      invariant Balance(Value(xs), q, Value(ys), Value(r[..]), neg)
      decreases rl, Value(r[..])
    {
      RestNonNegative(r[..], rp, rl, ys);
      rp, rl, neg, more, q := RemPass(r, rp, rl, neg, y, yl, Value(xs), q);
    }
    RestDone(r[..], rp, rl, ys);
    ghost var rv := Value(r[..]);
    var fix;
    rl, fix := FinishRemainder(r, rl, y, yl, neg);
    BalancedRemainder(Value(xs), q, Value(ys), rv, neg, fix, Value(r[..]));
    q := if fix then q - 1 else q;
  }

  lemma RestNonNegative(r: seq<Digit>, rp: int, rl: nat, ys: seq<Digit>)
    requires RestOk(r, rp, rl, ys, true)
    ensures rp >= 0
  {
  }

  lemma RestDone(r: seq<Digit>, rp: int, rl: nat, ys: seq<Digit>)
    requires RestOk(r, rp, rl, ys, false)
    ensures rl <= |ys| && rl <= |r| && AllZero(r[rl..]) && Value(r) < Value(ys)
  {
  }

  lemma StartDivision(xs: seq<Digit>, ys: seq<Digit>)
    requires |xs| >= |ys| && Value(xs) >= Value(ys)
    ensures Balance(Value(xs), 0, Value(ys), Value(xs), false)
    ensures RestOk(xs, |xs| - |ys|, |xs|, ys, true)
  {
    assert xs[..|xs|] == xs;
  }

  lemma ContinuesLength(r: seq<Digit>, rl: nat, ys: seq<Digit>)
    requires rl <= |r|
    ensures Continues(r, rl, ys) ==> rl >= |ys|
  {
  }

  lemma SteppedBalance(x: int, q: int, r0: seq<Digit>, neg: bool, rl: nat, ys: seq<Digit>, d: Digit, o: nat,
                       r1: seq<Digit>, rl': nat, flip: bool)
    requires |ys| >= 1 && rl >= 1 && Stepped(r0, rl, ys, d, o, r1, rl', flip)
    requires Balance(x, q, Value(ys), Value(r0), neg)
    ensures Balance(x, if neg then q - d * Pow(o) else q + d * Pow(o), Value(ys), Value(r1), neg != flip)
    ensures rl' <= |r1| && AllZero(r1[rl'..]) && (rl' < rl || (rl' == rl && Value(r1) < Value(r0)))
  {
    hide Value, Pow, Stepped, Balance;
    SteppedMeans(r0, rl, ys, d, o, r1, rl', flip);
    BalanceStep(x, q, Value(ys), Value(r0), neg, d, Pow(o), Value(r1), flip);
  }

  lemma SteppedMeans(r0: seq<Digit>, rl: nat, ys: seq<Digit>, d: Digit, o: nat, r1: seq<Digit>, rl': nat, flip: bool)
    requires |ys| >= 1 && rl >= 1 && Stepped(r0, rl, ys, d, o, r1, rl', flip)
    ensures Value(r1) == if flip then (d * Value(ys)) * Pow(o) - Value(r0) else Value(r0) - (d * Value(ys)) * Pow(o)
    ensures rl' <= |r1| && AllZero(r1[rl'..]) && (rl' < rl || (rl' == rl && Value(r1) < Value(r0)))
  {
    hide Value, Pow;
  }

  /** The quotient vector between two passes: ql digits from offset qp on, all others zero. */
  ghost predicate QuotOk(q: seq<Digit>, qp: int, ql: int) {
    0 <= qp + ql <= |q| && AllZero(q[qp + ql..]) &&
    (forall k :: 0 <= k < |q| && k < qp ==> q[k] == 0)
  }

  /** The quotient vector has started: its leading digit is not zero. */
  ghost predicate Leading(q: seq<Digit>, e: int) {
    1 <= e <= |q| && q[e - 1] != 0
  }

  /** A vector whose digits below o are zero is its upper part times B^o. */
  lemma UpperPart(s: seq<Digit>, o: nat, n: nat)
    requires o + n <= |s| && QuotOk(s, o, n)
    ensures Value(s) == Value(s[o..o + n]) * Pow(o)
  {
    hide Value, Pow;
    WindowValue(s, o, n);
    ValueOfZeros(s[..o]);
    ValueOfZeros(s[o + n..]);
    UpperArithmetic(Value(s[o..o + n]), Pow(o), Pow(o + n));
  }

  lemma UpperArithmetic(v: int, p: int, q: int)
    ensures 0 + p * v + q * 0 == v * p
  {
  }

  /** Adding or removing a quotient digit at offset o. */
  method UpdateQuotient(q: array<Digit>, o: nat, ql: nat, d: Digit, neg: bool) returns (n: nat)
    requires 1 <= ql && o + ql <= q.Length && QuotOk(q[..], o, ql)
    requires Normal(q[o..o + ql])
    requires neg ==> d * Pow(o) < Value(q[..])
    requires !neg ==> 0 < Value(q[..]) + d * Pow(o) < Pow(q.Length)
    modifies q
    ensures Value(q[..]) == if neg then old(Value(q[..])) - d * Pow(o) else old(Value(q[..])) + d * Pow(o)
    ensures 1 <= n && QuotOk(q[..], o, n) && Leading(q[..], o + n)
  {
    hide Value, Pow, Overwrite, QuotOk, Normal, AllZero, Stripped, Leading;
    ghost var s, w, ds := q[..], q[o..o + ql], [];
    UpperPart(s, o, ql);
    if neg {
      CancelBelow(d, Value(w), Pow(o));
      ds, n := DSubtract(q, o, ql, d, q, o);
      StrippedValue(ds, n);
      ghost var e: int := d;
      NegatedProduct(e, Pow(o));
      UpdatedQuotient(s, o, ds, n, w, -e);
    } else {
      if o + ql == q.Length {
        PowAdd(o, ql);
        CancelBelow(Value(w) + d, Pow(ql), Pow(o));
      }
      ds, n := DAdd(q, o, ql, d, q, o);
      WholeVector(ds);
      UpdatedQuotient(s, o, ds, n, w, d);
    }
  }

  lemma StrippedValue(ds: seq<Digit>, n: nat)
    requires Stripped(ds, n)
    ensures 1 <= n <= |ds| && Normal(ds[..n]) && AllZero(ds[n..]) && Value(ds[..n]) == Value(ds)
  {
  }

  lemma WholeVector(ds: seq<Digit>)
    ensures ds[..|ds|] == ds && AllZero(ds[|ds|..])
  {
  }

  lemma CancelBelow(a: int, b: int, p: int)
    requires p >= 1 && a * p < b * p
    ensures a < b
  {
    if a >= b {
      MulMonotone(b, a, p);
    }
  }

  lemma NegatedProduct(e: int, p: int)
    ensures (-e) * p == -(e * p)
  {
  }

  lemma UpdatedQuotient(s: seq<Digit>, o: nat, ds: seq<Digit>, n: nat, w: seq<Digit>, e: int)
    requires o + |w| <= |s| && w == s[o..o + |w|] && QuotOk(s, o, |w|)
    requires |w| <= |ds| && o + |ds| <= |s| && 1 <= n <= |ds|
    requires Value(ds) == Value(w) + e && Normal(ds[..n]) && AllZero(ds[n..])
    requires Value(s) + e * Pow(o) > 0
    ensures var t := Overwrite(s, o, ds);
            Value(t) == Value(s) + e * Pow(o) && QuotOk(t, o, n) && Leading(t, o + n)
  {
    hide Value, Pow, Overwrite, QuotOk;
    var t := Overwrite(s, o, ds);
    UpdatedValue(s, o, ds, w, e);
    NewWindow(s, o, |w|, ds, n);
    LeadingWindow(t, o, n);
  }

  lemma UpdatedValue(s: seq<Digit>, o: nat, ds: seq<Digit>, w: seq<Digit>, e: int)
    requires o + |w| <= |s| && w == s[o..o + |w|] && QuotOk(s, o, |w|)
    requires |w| <= |ds| && o + |ds| <= |s| && Value(ds) == Value(w) + e
    ensures Value(Overwrite(s, o, ds)) == Value(s) + e * Pow(o)
  {
    hide Value, Pow, Overwrite, QuotOk;
    OldWindow(s, o, w, |ds|);
    OverwriteDelta(s, o, ds, e);
  }

  lemma LeadingWindow(t: seq<Digit>, o: nat, n: nat)
    requires 1 <= n && o + n <= |t| && QuotOk(t, o, n) && Normal(t[o..o + n]) && Value(t) > 0
    ensures Leading(t, o + n)
  {
    UpperPart(t, o, n);
    LeadingOfPositive(t[o..o + n], Pow(o));
  }

  lemma OldWindow(s: seq<Digit>, o: nat, w: seq<Digit>, n: nat)
    requires o + |w| <= |s| && w == s[o..o + |w|] && QuotOk(s, o, |w|) && |w| <= n && o + n <= |s|
    ensures Value(s[o..o + n]) == Value(w)
  {
    var w' := s[o..o + n];
    assert w'[..|w|] == w;
    assert AllZero(w'[|w|..]) by {
      forall k | 0 <= k < n - |w| ensures w'[|w|..][k] == 0 {
        assert w'[|w|..][k] == s[o + |w|..][k];
      }
    }
    ValueDropZeros(w', |w|);
  }

  lemma NewWindow(s: seq<Digit>, o: nat, m: nat, ds: seq<Digit>, n: nat)
    requires o + m <= |s| && QuotOk(s, o, m) && m <= |ds| && o + |ds| <= |s| && n <= |ds| && AllZero(ds[n..])
    ensures QuotOk(Overwrite(s, o, ds), o, n)
    ensures Overwrite(s, o, ds)[o..o + n] == ds[..n]
  {
    assert AllZero(s[o + |ds|..]) by {
      assert s[o + |ds|..] == s[o + m..][|ds| - m..];
    }
    ZerosFrom(s, Overwrite(s, o, ds), o, ds, n);
  }

  lemma LeadingOfPositive(s: seq<Digit>, p: int)
    requires Normal(s) && Value(s) * p > 0
    ensures s[|s| - 1] != 0
  {
    if |s| == 1 && s[0] == 0 {
      ValueOfZeros(s);
    }
  }

  lemma LeadingIsPositive(q: seq<Digit>, e: int)
    requires Leading(q, e)
    ensures Value(q) > 0
  {
    if Value(q) == 0 {
      ZeroValueMeansZeros(q);
    }
  }

  /** On the positive side the enlarged quotient still fits its vector of n digits. */
  lemma QuotientFits(x: int, q: int, ys: seq<Digit>, r: int, d: Digit, o: nat, n: nat)
    requires |ys| >= 1 && ys[|ys| - 1] != 0 && q >= 0 && Balance(x, q, Value(ys), r, false)
    requires (d * ys[|ys| - 1]) * Pow(|ys| - 1 + o) <= r && x < Pow(|ys| - 1 + n)
    ensures q + d * Pow(o) < Pow(n)
  {
    hide Value, Pow;
    LeadingDigit(ys);
    PowAdd(|ys| - 1, o);
    PowAdd(|ys| - 1, n);
    FitsArithmetic(x, q, Value(ys), r, d, ys[|ys| - 1], Pow(|ys| - 1), Pow(o), Pow(n));
  }

  lemma FitsArithmetic(x: int, q: int, y: int, r: int, d: int, b: int, t: int, p: int, n: int)
    requires q >= 0 && x == q * y + r && b >= 1 && t >= 1 && p >= 1 && d >= 0
    requires b * t <= y && (d * b) * (t * p) <= r && x < t * n
    ensures q + d * p < n
  {
    MulMonotone(1, b, t);
    MulMonotone(t, y, q);
    MulMonotone(1, b, d);
    assert t * p >= 0 by { MulMonotone(1, t, p); }
    MulMonotone(d, d * b, t * p);
    assert d * (t * p) == (d * p) * t;
    assert (q + d * p) * t == q * t + (d * p) * t;
    CancelBelow(q + d * p, n, t);
  }

  /** On the negative side enough quotient is left to take the digit away. */
  lemma QuotientStays(x: int, q: int, y: int, r: int, flip: bool)
    requires Balance(x, q, y, r, !flip) && y >= 1 && r >= 0 && x >= 1
    requires flip ==> r < x
    ensures q > 0
  {
    if q <= 0 {
      MulMonotone(q, 0, y);
    }
  }

  /** The quotient vector as a pass finds it. */
  ghost predicate QuotReady(q: seq<Digit>, qp: int, ql: int, first: bool) {
    QuotOk(q, qp, ql) && (first ==> Value(q) == 0) && (!first ==> Leading(q, qp + ql))
  }

  lemma LeadingIsNormal(q: seq<Digit>, o: nat, n: int)
    requires 1 <= n && o + n <= |q| && (n == 1 || q[o + n - 1] != 0)
    ensures Normal(q[o..o + n])
  {
  }

  /** The quotient digits from the pass's own offset on. */
  lemma QuotAtOffset(q: seq<Digit>, qp: nat, ql: int, first: bool, o: nat, n: int)
    requires QuotReady(q, qp, ql, first) && o <= qp && qp + ql == o + n && (first ==> n == 1)
    ensures n >= 1 && o + n <= |q| && QuotOk(q, o, n) && Normal(q[o..o + n])
    ensures first || Value(q) > 0
  {
    hide Value, AllZero, Normal;
    if !first {
      LeadingIsPositive(q, qp + ql);
      assert qp + ql - 1 >= qp;
    }
    LeadingIsNormal(q, o, n);
  }

  /** The leading digits say whether the first quotient digit sits at the top place. */
  predicate FirstDigitFits(a1: Digit, a2: Digit, b1: Digit, b2: Digit) {
    b1 < a1 || (b1 == a1 && b2 <= a2)
  }

  /** One pass of the loop of I_div. */
  method DivPass(r: array<Digit>, rp: nat, rl: nat, neg: bool, y: array<Digit>, yl: nat,
                 q: array<Digit>, ql: int, ghost first: bool, ghost x: int)
    returns (rp': int, rl': nat, neg': bool, more: bool, ql': int)
    requires 2 <= yl <= y.Length && rl <= r.Length && r != y && q != r && q != y && Normal(y[..yl])
    requires q.Length == r.Length - yl + 1 && Pow(r.Length - 1) <= x < Pow(r.Length)
    requires RestOk(r[..], rp, rl, y[..yl], true) && Balance(x, Value(q[..]), Value(y[..yl]), Value(r[..]), neg)
    requires QuotReady(q[..], rp, ql, first)
    requires first ==> !neg && r[rl - 1] != 0
    requires first ==> ql == if FirstDigitFits(r[rl - 1], r[rl - 2], y[yl - 1], y[yl - 2]) then 1 else 0
    modifies r, q
    ensures RestOk(r[..], rp', rl', y[..yl], more)
    ensures Balance(x, Value(q[..]), Value(y[..yl]), Value(r[..]), neg')
    ensures QuotReady(q[..], rp', ql', false)
    ensures rl' < rl || (rl' == rl && Value(r[..]) < old(Value(r[..])))
  {
    hide Value, Pow, Balance, Stepped, Continues, QuotOk, QuotReady;
    ghost var r0, ys, q0 := r[..], y[..yl], Value(q[..]);
    var d, o, nsz, nnsz, flip := DivStep(r, rp, rl, y, yl);
    SteppedBalance(x, q0, r0, neg, rl, ys, d, o, r[..], o + nnsz, flip);
    var n := if nsz == yl then ql else ql + 1;
    QuotAtOffset(q[..], rp, ql, first, o, n);
    RoomForDigit(x, q0, r0, neg, rl, ys, d, o, r[..], o + nnsz, flip, q.Length, first);
    n := UpdateQuotient(q, o, n, d, neg);
    neg' := if flip then !neg else neg;
    rp' := o - (yl - nnsz);
    rl' := rl - (nsz - nnsz);
    ql' := n + (yl - nnsz);
    QuotLower(q[..], o, n, rp', ql');
    var c := Compare(r, rl', y, yl);
    TestDecides(r[..], rl', ys, c);
    ContinuesLength(r[..], rl', ys);
    more := c >= 0;
  }

  lemma QuotLower(q: seq<Digit>, o: nat, n: nat, qp: int, ql: int)
    requires QuotOk(q, o, n) && Leading(q, o + n) && qp <= o && qp + ql == o + n
    ensures QuotReady(q, qp, ql, false)
  {
  }

  /** The preconditions of the quotient update, on both sides of zero. */
  lemma RoomForDigit(x: int, q: int, r0: seq<Digit>, neg: bool, rl: nat, ys: seq<Digit>, d: Digit, o: nat,
                     r1: seq<Digit>, rl': nat, flip: bool, n: nat, first: bool)
    requires |ys| >= 2 && Normal(ys) && 1 <= rl <= |r0| && Stepped(r0, rl, ys, d, o, r1, rl', flip)
    requires Balance(x, q, Value(ys), Value(r0), neg)
    requires Balance(x, if neg then q - d * Pow(o) else q + d * Pow(o), Value(ys), Value(r1), neg != flip)
    requires n == |r0| - |ys| + 1 && Pow(|r0| - 1) <= x < Pow(|r0|) && q >= 0
    requires first ==> d >= 1 && !neg
    requires first || q > 0
    ensures neg ==> d * Pow(o) < q
    ensures !neg ==> 0 < q + d * Pow(o) < Pow(n)
  {
    hide Value, Pow, Balance;
    if neg {
      NormalLowerBound(ys);
      PowMonotone(rl - 1, |r0| - 1);
      QuotientStays(x, q - d * Pow(o), Value(ys), Value(r1), flip);
    } else {
      QuotientFits(x, q, ys, Value(r0), d, o, n);
      if first {
        MulMonotone(1, d, Pow(o));
      } else {
        MulMonotone(0, d, Pow(o));
      }
    }
  }

  /** ZERO_DIGITS over a whole vector. */
  method ZeroDigits(q: array<Digit>)
    modifies q
    ensures AllZero(q[..])
  {
    var i := 0;
    while i < q.Length
      invariant 0 <= i <= q.Length && forall k :: 0 <= k < i ==> q[k] == 0
    {
      q[i] := 0;
      i := i + 1;
    }
  }

  /** The end of I_div: the sign of the remainder is settled and the quotient lowered by one if needed. */
  method FinishDivision(r: array<Digit>, rl0: nat, y: array<Digit>, yl: nat, neg: bool, q: array<Digit>, ql0: nat, ghost x: int)
    returns (ql: nat, rl: nat)
    requires 1 <= yl <= y.Length && yl <= r.Length && rl0 <= yl && r != y && q != r && q != y
    requires AllZero(r[rl0..]) && Value(r[..]) < Value(y[..yl])
    requires 1 <= ql0 <= q.Length && Normal(q[..ql0]) && AllZero(q[ql0..]) && Value(q[..ql0]) == Value(q[..]) > 0
    requires Balance(x, Value(q[..]), Value(y[..yl]), Value(r[..]), neg)
    modifies q, r
    ensures 1 <= rl <= yl && 1 <= ql <= q.Length
    ensures Normal(q[..ql]) && Normal(r[..rl]) && Value(r[..rl]) < Value(y[..yl])
    ensures x == Value(q[..ql]) * Value(y[..yl]) + Value(r[..rl])
  {
    hide Value, Pow, Balance;
    ghost var rv, ys := Value(r[..]), y[..yl];
    var fix;
    rl, fix := FinishRemainder(r, rl0, y, yl, neg);
    BalancedRemainder(x, Value(q[..]), Value(ys), rv, neg, fix, Value(r[..]));
    ql := ql0;
    if fix {
      ghost var t, ds := q[..], [];
      assert q[0..ql] == q[..ql];
      ds, ql := DSubtract(q, 0, ql, 1, q, 0);
      ReducedQuotient(t, ds, ql);
    }
  }

  /** I_div: quotient of x by y in q and remainder in r, both without leading zeros,
      for x not below y and y of at least two digits. */
  method IDiv(x: array<Digit>, xl: nat, y: array<Digit>, yl: nat, q: array<Digit>, r: array<Digit>)
    returns (ql: nat, rl: nat)
    requires 2 <= yl <= xl <= x.Length && yl <= y.Length && r.Length == xl && q.Length == xl - yl + 1
    requires r != y && q != r && q != y && q != x
    requires Normal(x[..xl]) && Normal(y[..yl]) && Value(x[..xl]) >= Value(y[..yl])
    modifies q, r
    ensures 1 <= rl <= yl && 1 <= ql <= q.Length
    ensures Normal(q[..ql]) && Normal(r[..rl]) && Value(r[..rl]) < Value(y[..yl])
    ensures old(Value(x[..xl])) == Value(q[..ql]) * Value(y[..yl]) + Value(r[..rl])
  {
    hide Value, Pow, Balance, RestOk, QuotReady;
    ghost var xs, ys, s := x[..xl], y[..yl], r[..];
    CopyDigits(x, xl, r);
    OverwriteWhole(s, xs);
    ZeroDigits(q);
    StartDivision(xs, ys);
    ValueBound(xs);
    NormalLowerBound(xs);
    var rp: int, neg, more := xl - yl, false, true;
    rl := xl;
    var n: int := if FirstDigitFits(r[xl - 1], r[xl - 2], y[yl - 1], y[yl - 2]) then 1 else 0;
    StartQuotient(q[..], rp, n);
    rp, rl, neg, more, n := DivPass(r, rp, rl, neg, y, yl, q, n, true, Value(xs));
    while more
      invariant rl <= xl && RestOk(r[..], rp, rl, ys, more)
      invariant Balance(Value(xs), Value(q[..]), Value(ys), Value(r[..]), neg)
      invariant QuotReady(q[..], rp, n, false)
      decreases rl, Value(r[..])
    {
      RestNonNegative(r[..], rp, rl, ys);
      rp, rl, neg, more, n := DivPass(r, rp, rl, neg, y, yl, q, n, false, Value(xs));
    }
    RestDone(r[..], rp, rl, ys);
    QuotDone(q[..], rp, n);
    ql, rl := FinishDivision(r, rl, y, yl, neg, q, n + rp, Value(xs));
  }

  /** I_rem leaves the digits that I_div leaves as remainder. */
  method RemainderAgreesWithDivision(x: array<Digit>, xl: nat, y: array<Digit>, yl: nat)
    returns (quotient: seq<Digit>, divided: seq<Digit>, remainder: seq<Digit>)
    requires 2 <= yl <= xl <= x.Length && yl <= y.Length
    requires Normal(x[..xl]) && Normal(y[..yl]) && Value(x[..xl]) >= Value(y[..yl])
    ensures divided == remainder && Normal(divided) && Normal(quotient)
    ensures Value(x[..xl]) == Value(quotient) * Value(y[..yl]) + Value(divided) && Value(divided) < Value(y[..yl])
  {
    hide Value, Pow;
    var q, r, s := new Digit[xl - yl + 1](_ => 0), new Digit[xl](_ => 0), new Digit[xl](_ => 0);
    var ql, rl := IDiv(x, xl, y, yl, q, r);
    var sl;
    ghost var k;
    sl, k := IRem(x, xl, y, yl, s);
    quotient, divided, remainder := q[..ql], r[..rl], s[..sl];
    ghost var v, w := Value(x[..xl]), Value(y[..yl]);
    RemainderIsMod(v, Value(quotient), w, Value(divided));
    RemainderIsMod(v, k, w, Value(remainder));
    NormalUnique(divided, remainder);
  }

  lemma StartQuotient(q: seq<Digit>, qp: nat, ql: int)
    requires AllZero(q) && |q| == qp + 1 && 0 <= ql <= 1
    ensures QuotReady(q, qp, ql, true) && Value(q) == 0
  {
    ValueOfZeros(q);
  }

  lemma QuotDone(q: seq<Digit>, qp: int, ql: int)
    requires QuotReady(q, qp, ql, false)
    ensures 1 <= qp + ql <= |q| && Normal(q[..qp + ql]) && AllZero(q[qp + ql..])
    ensures Value(q[..qp + ql]) == Value(q) > 0
  {
    hide Value;
    LeadingIsPositive(q, qp + ql);
    ValueDropZeros(q, qp + ql);
  }

  lemma ReducedQuotient(t: seq<Digit>, ds: seq<Digit>, n: nat)
    requires |ds| <= |t| && AllZero(t[|ds|..]) && Stripped(ds, n) && Value(ds) == Value(t[..|ds|]) - 1
    ensures var u := Overwrite(t, 0, ds);
            1 <= n <= |u| && Normal(u[..n]) && Value(u[..n]) == Value(t) - 1
  {
    hide Value, Pow, Overwrite, AllZero, Normal;
    ValueDropZeros(t, |ds|);
    StrippedValue(ds, n);
    OverwritePrefix(t, ds, n);
  }
}
