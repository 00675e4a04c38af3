/** Division of a digit vector by a single digit (D_div, D_rem), from the leading digit down. */
module ShortDivision {
  import opened Digits
  import opened Words
  import opened WordDivision
  import opened Vectors

  /** The leading digits of x down to place i, divided by d: quotient digits ws and remainder rem. */
  ghost predicate Divided(xs: seq<Digit>, i: nat, d: Digit, ws: seq<Digit>, rem: Digit) {
    i <= |xs| && rem < d && Value(xs[i..]) == Value(ws) * d + rem
  }

  lemma DividedNext(xs: seq<Digit>, i: nat, d: Digit, ws: seq<Digit>, rem: Digit, q: Digit, rem': Digit)
    requires 1 <= i && Divided(xs, i, d, ws, rem)
    requires rem * B + xs[i - 1] == q * d + rem' && rem' < d
    ensures Divided(xs, i - 1, d, [q] + ws, rem')
  {
    assert xs[i - 1..] == [xs[i - 1]] + xs[i..];
    assert xs[i - 1..][1..] == xs[i..] && ([q] + ws)[1..] == ws;
    assert Value([q] + ws) == q + B * Value(ws);
    NextArithmetic(Value(ws), d, q);
  }

  lemma NextArithmetic(v: int, d: int, q: int)
    ensures (q + B * v) * d == q * d + B * (v * d)
  {
  }

  lemma OverwritePrevious(s: seq<Digit>, o: nat, ds: seq<Digit>, d: Digit)
    requires 1 <= o && o + |ds| <= |s|
    ensures Overwrite(s, o, ds)[o - 1 := d] == Overwrite(s, o - 1, [d] + ds)
    ensures Overwrite(s, o, ds)[..o] == s[..o]
  {
  }

  /** One quotient digit of D_div: DDIV, then the remainder recomputed from the low product digit. */
  method DivideDigit(a1: Digit, a0: Digit, d: Digit) returns (q: Digit, rem: Digit)
    requires a1 < d
    ensures a1 * B + a0 == q * d + rem && rem < d
  {
    var t;
    q, t := DDivRem(a1, a0, d);
    var b1, b0 := DMulC(d, q, 0);
    var (rem', b) := DSub(a0, b0);
    rem := rem';
    LowDigitRemainder(a1, a0, b1, b0, t, rem, b);
  }

  lemma LowDigitRemainder(a1: Digit, a0: Digit, b1: Digit, b0: Digit, t: Digit, rem: Digit, b: Digit)
    requires a1 * B + a0 == b1 * B + b0 + t && a0 - b0 == rem - B * b && b <= 1
    ensures rem == t
  {
  }

  /** How many quotient digits there are: one less than in x if the leading digit a1 is below d. */
  ghost predicate Leads(xl: nat, qsz: nat, i: nat, a1: Digit, d: Digit, ws: seq<Digit>, rem: Digit) {
    && i < xl && i <= qsz <= xl && |ws| == qsz - i
    && (qsz == xl || (d > a1 && qsz == xl - 1 && xl > 1))
    && (qsz == xl ==> ws[qsz - i - 1] >= 1)
    && (qsz == xl - 1 && i < qsz && a1 != 0 ==> ws[qsz - i - 1] >= 1)
    && (qsz == xl - 1 && i == qsz ==> rem == a1)
  }

  lemma LeadsNext(xl: nat, qsz: nat, i: nat, a1: Digit, d: Digit, ws: seq<Digit>, rem: Digit, t: Digit, rem': Digit)
    requires 1 <= i && Leads(xl, qsz, i, a1, d, ws, rem) && (rem != 0 ==> t >= 1)
    ensures Leads(xl, qsz, i - 1, a1, d, [t] + ws, rem')
  {
  }

  /** D_div: quotient into q, which may be the vector x itself, and the remainder digit. */
  method DDiv(x: array<Digit>, xl: nat, d: Digit, q: array<Digit>) returns (ghost ws: seq<Digit>, qsz: nat, rem: Digit)
    requires 1 <= xl <= x.Length && xl <= q.Length && d != 0
    modifies q
    ensures 1 <= qsz == |ws| <= xl && q[..] == Overwrite(old(q[..]), 0, ws)
    ensures old(Value(x[..xl])) == Value(ws) * d + rem && rem < d
    ensures old(Normal(x[..xl])) ==> Normal(ws)
    ensures qsz < xl ==> d > old(x[xl - 1])
  {
    hide Value, Divided, Overwrite, Normal;
    ghost var xs, q0 := x[..xl], q[..];
    var a1 := x[xl - 1];
    var i := xl - 1;
    DividedTop(xs, d);
    OverwriteStart(q0, i);
    if d > a1 {
      if xl == 1 {
        q[0] := 0;
        OverwriteStart(q0, 0);
        OverwriteNext(q0, 0, [], 0);
        assert [] + [0] == [0];
        DividedSmall(xs, d);
        return [0], 1, a1;
      }
      qsz, ws, rem := xl - 1, [], a1;
    } else {
      var t;
      t, rem := DivideDigit(0, a1, d);
      DividedFirst(xs, d, t, rem);
      OverwriteStart(q0, xl);
      OverwritePrevious(q0, xl, [], t);
      assert [t] + [] == [t];
      q[i] := t;
      qsz, ws := xl, [t];
    }
    while i > 0
      invariant 0 <= i && Leads(xl, qsz, i, a1, d, ws, rem) && q[..] == Overwrite(q0, i, ws)
      invariant x != q ==> x[..xl] == xs
      invariant Divided(xs, i, d, ws, rem) && rem < d
    {
      hide Leads;
      OverwritePrevious(q0, i, ws, 0);
      assert x[i - 1] == xs[i - 1] by { assert x == q ==> x[i - 1] == q[..][..i][i - 1]; }
      var t, rem' := DivideDigit(rem, x[i - 1], d);
      DividedNext(xs, i, d, ws, rem, t, rem');
      LeadingQuotient(rem, xs[i - 1], d, t, rem');
      LeadsNext(xl, qsz, i, a1, d, ws, rem, t, rem');
      OverwritePrevious(q0, i, ws, t);
      q[i - 1] := t;
      ws, rem := [t] + ws, rem';
      i := i - 1;
    }
    DividedAll(xs, d, ws, rem);
    NormalQuotient(xs, qsz, d, ws, rem);
  }

  lemma NormalQuotient(xs: seq<Digit>, qsz: nat, d: Digit, ws: seq<Digit>, rem: Digit)
    requires |xs| >= 1 && Leads(|xs|, qsz, 0, xs[|xs| - 1], d, ws, rem)
    ensures Normal(xs) ==> Normal(ws)
  {
  }

  lemma LeadingQuotient(a1: Digit, a0: Digit, d: Digit, q: Digit, rem: Digit)
    requires a1 * B + a0 == q * d + rem && rem < d
    ensures a1 != 0 ==> q >= 1
  {
    assert q < 1 ==> q * d == 0;
  }

  lemma DividedTop(xs: seq<Digit>, d: Digit)
    requires |xs| >= 1
    ensures xs[|xs| - 1] < d ==> Divided(xs, |xs| - 1, d, [], xs[|xs| - 1])
  {
    var n := |xs| - 1;
    assert xs[n..] == [xs[n]] && Value(xs[n..]) == xs[n] + B * Value([]);
  }

  lemma DividedSmall(xs: seq<Digit>, d: Digit)
    requires |xs| == 1
    ensures Value(xs) == Value([0]) * d + xs[0] && Normal([0])
  {
    assert xs[1..] == [] && Value([0]) == 0;
  }

  lemma DividedFirst(xs: seq<Digit>, d: Digit, t: Digit, rem: Digit)
    requires |xs| >= 1 && xs[|xs| - 1] == t * d + rem && rem < d <= xs[|xs| - 1]
    ensures Divided(xs, |xs| - 1, d, [t], rem) && t >= 1
  {
    var n := |xs| - 1;
    assert xs[n..] == [xs[n]] && Value(xs[n..]) == xs[n] && Value([t]) == t;
    assert t == 0 ==> t * d == 0;
  }

  lemma DividedAll(xs: seq<Digit>, d: Digit, ws: seq<Digit>, rem: Digit)
    requires Divided(xs, 0, d, ws, rem)
    ensures Value(xs) == Value(ws) * d + rem
  {
    assert xs[0..] == xs;
  }

  /** D_rem: the remainder alone. */
  method DRemainder(x: array<Digit>, xl: nat, d: Digit) returns (rem: Digit)
    requires 1 <= xl <= x.Length && d != 0
    ensures rem < d && exists k: int :: Value(x[..xl]) == k * d + rem
  {
    ghost var xs, k := x[..xl], 0;
    rem := 0;
    var i := xl;
    while i > 0
      invariant 0 <= i <= xl && rem < d
      invariant Value(xs[i..]) == k * d + rem
    {
      ghost var before := rem;
      rem := DRem(rem, x[i - 1], d);
      ghost var q: int :| before * B + xs[i - 1] == q * d + rem;
      assert xs[i - 1..][1..] == xs[i..];
      NextArithmetic(k, d, q);
      k := q + B * k;
      i := i - 1;
    }
    assert xs[0..] == xs;
  }
}
