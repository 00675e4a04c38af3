/** Signed integers as terms: a small word, or sign and digit vector. Every arithmetic result is
    brought into the one canonical form by big_norm. */
module Integers {
  import opened Digits
  import opened Vectors
  import opened Multiply
  import opened ShortDivision
  import opened LongDivision

  /** SMALL_BITS is 60. */
  const MAX_SMALL: int := 0x7FF_FFFF_FFFF_FFFF
  const MIN_SMALL: int := -0x800_0000_0000_0000
  const BIG_ARITY_MAX: int := 0x7_FFFF

  /** TooBig is the NIL with which big_norm reports that no header can hold the length. */
  datatype Term = Small(v: int) | Big(neg: bool, ds: seq<Digit>) | TooBig

  predicate IsUSmall(neg: bool, d: Digit) {
    if neg then d <= MAX_SMALL + 1 else d <= MAX_SMALL
  }

  function Signed(neg: bool, v: int): int {
    if neg then -v else v
  }

  ghost function IntOf(t: Term): int
    requires !t.TooBig?
  {
    match t
    case Small(v) => v
    case Big(neg, ds) => Signed(neg, Value(ds))
  }

  /** Small exactly when it fits a small, otherwise without a leading zero digit. */
  ghost predicate Canonical(t: Term) {
    match t
    case Small(v) => MIN_SMALL <= v <= MAX_SMALL
    case Big(neg, ds) => Normal(ds) && |ds| <= BIG_ARITY_MAX && !(|ds| == 1 && IsUSmall(neg, ds[0]))
    case TooBig => true
  }

  /** t is the canonical term of n, or the report that n needs too many digits. */
  ghost predicate Represents(t: Term, n: int) {
    Canonical(t) && if t.TooBig? then n >= Pow(BIG_ARITY_MAX) || -n >= Pow(BIG_ARITY_MAX) else IntOf(t) == n
  }

  lemma OneDigit(s: seq<Digit>)
    requires |s| == 1
    ensures Value(s) == s[0]
  {
    assert s[1..] == [];
  }

  /** A canonical bignum is outside the range of the smalls. */
  lemma BigIsNotSmall(neg: bool, ds: seq<Digit>)
    requires Canonical(Big(neg, ds))
    ensures Signed(neg, Value(ds)) < MIN_SMALL || Signed(neg, Value(ds)) > MAX_SMALL
  {
    if |ds| == 1 {
      OneDigit(ds);
    } else {
      NormalLowerBound(ds);
      PowMonotone(1, |ds| - 1);
    }
  }

  /** Equal integers have equal terms: comparing terms compares integers. */
  lemma RepresentationIsUnique(s: Term, t: Term, n: int)
    requires Represents(s, n) && Represents(t, n) && !s.TooBig? && !t.TooBig?
    ensures s == t
  {
    match (s, t) {
      case (Small(_), Small(_)) =>
      case (Big(neg, ds), Small(_)) => BigIsNotSmall(neg, ds);
      case (Small(_), Big(neg, ds)) => BigIsNotSmall(neg, ds);
      case (Big(neg, ds), Big(neg', ds')) =>
        BigIsNotSmall(neg, ds);
        BigIsNotSmall(neg', ds');
        NormalUnique(ds, ds');
    }
  }

  /** A term exists unless the integer needs more digits than a header can count. */
  lemma TooBigIsExact(t: Term, n: int)
    requires Represents(t, n)
    ensures t.TooBig? <==> n >= Pow(BIG_ARITY_MAX) || -n >= Pow(BIG_ARITY_MAX)
  {
    hide Pow;
    if t.Big? {
      ValueBound(t.ds);
      PowMonotone(|t.ds|, BIG_ARITY_MAX);
    } else if t.Small? {
      SmallBelow();
    }
  }

  lemma SmallBelow()
    ensures MAX_SMALL < Pow(BIG_ARITY_MAX) && -MIN_SMALL < Pow(BIG_ARITY_MAX)
  {
    assert Pow(1) == B;
    PowMonotone(1, BIG_ARITY_MAX);
  }

  /** big_norm: the term of sign and digits. */
  method BigNorm(r: array<Digit>, xl: nat, neg: bool) returns (t: Term)
    requires 1 <= xl <= r.Length && Normal(r[..xl])
    ensures Represents(t, Signed(neg, Value(r[..xl])))
  {
    hide Pow;
    if xl == 1 {
      OneDigit(r[..1]);
      if IsUSmall(neg, r[0]) {
        return Small(Signed(neg, r[0]));
      }
    }
    if xl > BIG_ARITY_MAX {
      NormalLowerBound(r[..xl]);
      PowMonotone(BIG_ARITY_MAX, xl - 1);
      return TooBig;
    }
    return Big(neg, r[..xl]);
  }

  /** I_add followed by big_norm. */
  method NormSum(x: array<Digit>, xl: nat, y: array<Digit>, yl: nat, neg: bool, r: array<Digit>) returns (t: Term)
    requires 1 <= yl <= xl <= x.Length && yl <= y.Length && xl < r.Length && r != x && r != y && Normal(x[..xl])
    modifies r
    ensures Represents(t, Signed(neg, Value(x[..xl]) + Value(y[..yl])))
  {
    hide Value, Represents, Overwrite;
    ghost var s, ds := r[..], [];
    var n;
    ds, n := IAdd(x, xl, y, yl, r);
    OverwritePrefix(s, ds, n);
    t := BigNorm(r, n, neg);
  }

  /** I_sub followed by big_norm. */
  method NormDifference(x: array<Digit>, xl: nat, y: array<Digit>, yl: nat, neg: bool, r: array<Digit>) returns (t: Term)
    requires 1 <= yl <= xl <= x.Length && yl <= y.Length && xl <= r.Length && r != x && r != y
    requires Value(x[..xl]) >= Value(y[..yl])
    modifies r
    ensures Represents(t, Signed(neg, Value(x[..xl]) - Value(y[..yl])))
  {
    hide Value, Represents, Overwrite;
    ghost var s, ds := r[..], [];
    var n;
    ds, n := ISub(x, xl, y, yl, r);
    OverwritePrefix(s, ds, n);
    t := BigNorm(r, n, neg);
  }

  /** B_plus_minus: the signed sum of two vectors. */
  method BPlusMinus(x: array<Digit>, xl: nat, xneg: bool, y: array<Digit>, yl: nat, yneg: bool, r: array<Digit>)
    returns (t: Term)
    requires 1 <= xl <= x.Length && 1 <= yl <= y.Length && xl < r.Length && yl < r.Length && r != x && r != y
    requires Normal(x[..xl]) && Normal(y[..yl])
    modifies r
    ensures Represents(t, Signed(xneg, Value(x[..xl])) + Signed(yneg, Value(y[..yl])))
  {
    hide Value, Represents;
    if xneg == yneg {
      if xl > yl {
        t := NormSum(x, xl, y, yl, xneg, r);
      } else {
        t := NormSum(y, yl, x, xl, xneg, r);
      }
    } else {
      var c := Compare(x, xl, y, yl);
      CompareNormal(x[..xl], y[..yl], c);
      if c == 0 {
        RepresentsZero();
        t := Small(0);
      } else if c > 0 {
        t := NormDifference(x, xl, y, yl, xneg, r);
      } else {
        t := NormDifference(y, yl, x, xl, yneg, r);
      }
    }
  }

  lemma RepresentsZero()
    ensures Represents(Small(0), 0)
  {
  }

  /** I_comp on vectors without leading zeros compares the numbers. */
  lemma CompareNormal(xs: seq<Digit>, ys: seq<Digit>, c: int)
    requires Normal(xs) && Normal(ys)
    requires |xs| < |ys| ==> c == -1
    requires |xs| > |ys| ==> c == 1
    requires |xs| == |ys| ==> c == if Value(xs) < Value(ys) then -1 else if Value(xs) > Value(ys) then 1 else 0
    ensures c == 0 <==> Value(xs) == Value(ys)
    ensures c > 0 <==> Value(xs) > Value(ys)
    ensures c > 0 ==> |xs| >= |ys|
    ensures c < 0 ==> |ys| >= |xs|
  {
    hide Value;
    if |xs| < |ys| {
      LongerIsGreater(ys, xs);
    } else if |xs| > |ys| {
      LongerIsGreater(xs, ys);
    }
  }

  method BigPlus(x: array<Digit>, xl: nat, xneg: bool, y: array<Digit>, yl: nat, yneg: bool, r: array<Digit>)
    returns (t: Term)
    requires 1 <= xl <= x.Length && 1 <= yl <= y.Length && xl < r.Length && yl < r.Length && r != x && r != y
    requires Normal(x[..xl]) && Normal(y[..yl])
    modifies r
    ensures Represents(t, Signed(xneg, Value(x[..xl])) + Signed(yneg, Value(y[..yl])))
  {
    t := BPlusMinus(x, xl, xneg, y, yl, yneg, r);
  }

  method BigMinus(x: array<Digit>, xl: nat, xneg: bool, y: array<Digit>, yl: nat, yneg: bool, r: array<Digit>)
    returns (t: Term)
    requires 1 <= xl <= x.Length && 1 <= yl <= y.Length && xl < r.Length && yl < r.Length && r != x && r != y
    requires Normal(x[..xl]) && Normal(y[..yl])
    modifies r
    ensures Represents(t, Signed(xneg, Value(x[..xl])) - Signed(yneg, Value(y[..yl])))
  {
    hide Represents, Value;
    t := BPlusMinus(x, xl, xneg, y, yl, !yneg, r);
  }

  /** ZERO_DIGITS over the first n digits. */
  method ZeroPrefix(r: array<Digit>, n: nat)
    requires n <= r.Length
    modifies r
    ensures AllZero(r[..n])
  {
    var i := 0;
    while i < n
      invariant 0 <= i <= n && forall k :: 0 <= k < i ==> r[k] == 0
    {
      r[i] := 0;
      i := i + 1;
    }
  }

  /** The digit vector of the product, by whichever of the three routes big_times takes. */
  method ProductDigits(x: array<Digit>, xl: nat, y: array<Digit>, yl: nat, r: array<Digit>) returns (n: nat)
    requires 1 <= xl <= x.Length && 1 <= yl <= y.Length && xl + yl <= r.Length && r != x && r != y
    requires Normal(x[..xl]) && Normal(y[..yl]) && (x == y ==> xl == yl)
    modifies r
    ensures 1 <= n <= r.Length && Normal(r[..n]) && Value(r[..n]) == Value(x[..xl]) * Value(y[..yl])
  {
    hide Value, Overwrite;
    ghost var ds := [];
    if yl == 1 {
      ghost var s := r[..];
      OneDigit(y[..1]);
      ds, n := DMul(x, xl, y[0], r);
      OverwritePrefix(s, ds, n);
    } else if xl == 1 {
      ghost var s := r[..];
      OneDigit(x[..1]);
      ds, n := DMul(y, yl, x[0], r);
      OverwritePrefix(s, ds, n);
    } else if x == y {
      SeveralDigitsNotZero(x[..xl]);
      ZeroPrefix(r, xl + 1);
      ghost var s := r[..];
      ds, n := ISqr(x, 0, xl, r);
      OverwritePrefix(s, ds, n);
    } else {
      SeveralDigitsNotZero(x[..xl]);
      SeveralDigitsNotZero(y[..yl]);
      n := LongProduct(x, xl, y, yl, r);
    }
  }

  /** The two calls of I_mul in big_times: the longer operand drives the outer loop. */
  method LongProduct(x: array<Digit>, xl: nat, y: array<Digit>, yl: nat, r: array<Digit>) returns (n: nat)
    requires 2 <= xl <= x.Length && 2 <= yl <= y.Length && xl + yl <= r.Length && r != x && r != y
    requires Normal(x[..xl]) && Normal(y[..yl]) && Value(x[..xl]) != 0 && Value(y[..yl]) != 0
    modifies r
    ensures 1 <= n <= r.Length && Normal(r[..n]) && Value(r[..n]) == Value(x[..xl]) * Value(y[..yl])
  {
    hide Value, Overwrite;
    ghost var ds := [];
    if xl >= yl {
      ZeroPrefix(r, xl);
      ghost var s := r[..];
      assert r[..yl] == r[..xl][..yl];
      ds, n := IMul(x, xl, y, yl, r);
      OverwritePrefix(s, ds, n);
    } else {
      ZeroPrefix(r, yl);
      ghost var s := r[..];
      assert r[..xl] == r[..yl][..xl];
      ds, n := IMul(y, yl, x, xl, r);
      OverwritePrefix(s, ds, n);
    }
  }

  lemma SeveralDigitsNotZero(s: seq<Digit>)
    requires Normal(s) && |s| > 1
    ensures Value(s) != 0
  {
    NormalLowerBound(s);
  }

  /** big_times: the exact signed product. */
  method BigTimes(x: array<Digit>, xl: nat, xneg: bool, y: array<Digit>, yl: nat, yneg: bool, r: array<Digit>)
    returns (t: Term)
    requires 1 <= xl <= x.Length && 1 <= yl <= y.Length && xl + yl <= r.Length && r != x && r != y
    requires Normal(x[..xl]) && Normal(y[..yl]) && (x == y ==> xl == yl)
    modifies r
    ensures Represents(t, Signed(xneg, Value(x[..xl])) * Signed(yneg, Value(y[..yl])))
  {
    hide Value, Represents;
    var n := ProductDigits(x, xl, y, yl, r);
    t := BigNorm(r, n, xneg != yneg);
    SignedProduct(xneg, Value(x[..xl]), yneg, Value(y[..yl]));
  }

  lemma SignedProduct(xneg: bool, x: int, yneg: bool, y: int)
    ensures Signed(xneg != yneg, x * y) == Signed(xneg, x) * Signed(yneg, y)
  {
  }

  /** big_div: the quotient truncated towards zero, for a dividend not below the divisor in size. */
  method BigDiv(x: array<Digit>, xl: nat, xneg: bool, y: array<Digit>, yl: nat, yneg: bool,
                q: array<Digit>, rem: array<Digit>) returns (t: Term)
    requires 1 <= yl <= xl <= x.Length && yl <= y.Length && rem.Length == xl
    requires q.Length == if yl == 1 then xl else xl - yl + 1
    requires rem != y && rem != x && q != rem && q != y && q != x
    requires Normal(x[..xl]) && Normal(y[..yl]) && Value(x[..xl]) >= Value(y[..yl]) > 0
    modifies q, rem
    ensures Represents(t, Signed(xneg != yneg, Value(x[..xl]) / Value(y[..yl])))
  {
    hide Value, Represents, Overwrite;
    ghost var xv, yv := Value(x[..xl]), Value(y[..yl]);
    var n;
    if yl == 1 {
      OneDigit(y[..1]);
      ghost var s, ws := q[..], [];
      var d;
      ws, n, d := DDiv(x, xl, y[0], q);
      OverwritePrefix(s, ws, n);
      RemainderIsMod(xv, Value(ws), yv, d);
    } else {
      var rl;
      n, rl := IDiv(x, xl, y, yl, q, rem);
      RemainderIsMod(xv, Value(q[..n]), yv, Value(rem[..rl]));
    }
    t := BigNorm(q, n, xneg != yneg);
  }

  /** big_rem: the remainder with the sign of the dividend. */
  method BigRem(x: array<Digit>, xl: nat, xneg: bool, y: array<Digit>, yl: nat, r: array<Digit>) returns (t: Term)
    requires 1 <= yl <= xl <= x.Length && yl <= y.Length && r.Length == xl && r != y && r != x
    requires Normal(x[..xl]) && Normal(y[..yl]) && Value(x[..xl]) >= Value(y[..yl]) > 0
    modifies r
    ensures Represents(t, Signed(xneg, Value(x[..xl]) % Value(y[..yl])))
  {
    hide Value, Represents;
    ghost var xv, yv := Value(x[..xl]), Value(y[..yl]);
    if yl == 1 {
      OneDigit(y[..1]);
      var rem := DRemainder(x, xl, y[0]);
      ghost var k: int :| xv == k * y[0] + rem;
      RemainderIsMod(xv, k, yv, rem);
      t := RemainderTerm(rem, xneg);
    } else {
      var rl;
      ghost var k;
      rl, k := IRem(x, xl, y, yl, r);
      RemainderIsMod(xv, k, yv, Value(r[..rl]));
      t := BigNorm(r, rl, xneg);
    }
  }

  /** The single-digit branch of big_rem makes its term itself. */
  method RemainderTerm(rem: Digit, neg: bool) returns (t: Term)
    ensures Represents(t, Signed(neg, rem))
  {
    if IsUSmall(neg, rem) {
      return Small(Signed(neg, rem));
    }
    OneDigit([rem]);
    return Big(neg, [rem]);
  }

  /** Quotient and remainder of the signed integers fit together as Erlang's div and rem do. */
  lemma SignedDivision(xneg: bool, x: int, yneg: bool, y: int)
    requires x >= 0 && y > 0
    ensures Signed(xneg, x) == Signed(xneg != yneg, x / y) * Signed(yneg, y) + Signed(xneg, x % y)
    ensures -y < Signed(xneg, x % y) < y
  {
    SignedProduct(xneg != yneg, x / y, yneg, y);
    assert x == (x / y) * y + x % y;
  }
}
