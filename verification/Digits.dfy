/** Little-endian digit vectors in base 2^64 and the natural numbers they denote. */
module Digits {

  /** D_EXP is 64: one digit is one machine word. */
  const B: int := 0x1_0000_0000_0000_0000
  const D_MASK: int := 0xFFFF_FFFF_FFFF_FFFF

  type Digit = d: int | 0 <= d < B

  /** The number a digit vector stands for, least significant digit first. */
  function Value(s: seq<Digit>): nat {
    if s == [] then 0 else s[0] + B * Value(s[1..])
  }

  /** B to the power k, the weight of digit k. */
  function Pow(k: nat): (p: int)
    ensures p >= 1
  {
    if k == 0 then 1 else B * Pow(k - 1)
  }

  /** No leading zero digit, except that zero itself is one zero digit. */
  predicate Normal(s: seq<Digit>) {
    |s| >= 1 && (|s| > 1 ==> s[|s| - 1] != 0)
  }

  predicate AllZero(s: seq<Digit>) {
    forall k :: 0 <= k < |s| ==> s[k] == 0
  }

  lemma {:induction false} ValueSnoc(s: seq<Digit>, d: Digit)
    ensures Value(s + [d]) == Value(s) + d * Pow(|s|)
  {
    if s == [] {
      assert Value([d][1..]) == 0;
    } else {
      assert (s + [d])[1..] == s[1..] + [d];
      ValueSnoc(s[1..], d);
      assert (s + [d])[0] == s[0];
    }
  }

  /** One more digit of s: the shape used by loops that walk upwards. */
  lemma ValueTake(s: seq<Digit>, i: nat)
    requires i < |s|
    ensures Value(s[..i + 1]) == Value(s[..i]) + s[i] * Pow(i)
  {
    assert s[..i + 1] == s[..i] + [s[i]];
    ValueSnoc(s[..i], s[i]);
  }

  lemma {:induction false} ValueSplit(s: seq<Digit>, t: seq<Digit>)
    ensures Value(s + t) == Value(s) + Pow(|s|) * Value(t)
  {
    if s == [] {
      assert s + t == t;
    } else {
      assert (s + t)[1..] == s[1..] + t;
      ValueSplit(s[1..], t);
      assert (B * Pow(|s| - 1)) * Value(t) == B * (Pow(|s| - 1) * Value(t));
    }
  }

  lemma NextPow(k: nat)
    ensures Pow(k + 1) == B * Pow(k)
  {
  }

  lemma {:induction false} PowAdd(i: nat, j: nat)
    ensures Pow(i + j) == Pow(i) * Pow(j)
  {
    if i != 0 {
      PowAdd(i - 1, j);
      assert B * (Pow(i - 1) * Pow(j)) == (B * Pow(i - 1)) * Pow(j);
    }
  }

  lemma {:induction false} PowMonotone(i: nat, j: nat)
    requires i <= j
    ensures Pow(i) <= Pow(j)
    ensures i < j ==> B * Pow(i) <= Pow(j)
  {
    if i < j {
      PowMonotone(i, j - 1);
    }
  }

  lemma {:induction false} ValueBound(s: seq<Digit>)
    ensures Value(s) < Pow(|s|)
  {
    if s != [] {
      ValueBound(s[1..]);
    }
  }

  lemma {:induction false} ValueOfZeros(s: seq<Digit>)
    requires AllZero(s)
    ensures Value(s) == 0
  {
    if s != [] {
      ValueOfZeros(s[1..]);
    }
  }

  lemma {:induction false} ZeroValueMeansZeros(s: seq<Digit>)
    requires Value(s) == 0
    ensures AllZero(s)
  {
    if s != [] {
      ZeroValueMeansZeros(s[1..]);
      forall k | 0 <= k < |s| ensures s[k] == 0 {
        if k > 0 { assert s[k] == s[1..][k - 1]; }
      }
    }
  }

  /** Dropping leading zero digits keeps the value. */
  lemma ValueDropZeros(s: seq<Digit>, n: nat)
    requires n <= |s| && AllZero(s[n..])
    ensures Value(s) == Value(s[..n])
  {
    assert s == s[..n] + s[n..];
    ValueSplit(s[..n], s[n..]);
    ValueOfZeros(s[n..]);
  }

  /** The leading digit bounds the value from both sides. */
  lemma LeadingDigit(s: seq<Digit>)
    requires |s| >= 1
    ensures s[|s| - 1] * Pow(|s| - 1) <= Value(s) < (s[|s| - 1] + 1) * Pow(|s| - 1)
  {
    hide Value, Pow;
    var n := |s| - 1;
    ValueTake(s, n);
    assert s[..n + 1] == s;
    ValueBound(s[..n]);
    OneMore(s[n], Pow(n));
  }

  lemma OneMore(d: int, p: int)
    ensures (d + 1) * p == d * p + p
  {
  }

  lemma NormalLowerBound(s: seq<Digit>)
    requires Normal(s) && |s| > 1
    ensures Value(s) >= Pow(|s| - 1)
  {
    LeadingDigit(s);
    MulAtLeast(s[|s| - 1], Pow(|s| - 1));
  }

  lemma ZeroVector(s: seq<Digit>)
    requires Normal(s)
    ensures Value(s) == 0 <==> |s| == 1 && s[0] == 0
  {
    if |s| > 1 {
      NormalLowerBound(s);
    } else {
      assert s == [s[0]] && Value(s[1..]) == 0;
    }
  }

  lemma MulAtLeast(d: int, p: int)
    requires d >= 1 && p >= 0
    ensures d * p >= p
  {
  }

  lemma MulMonotone(a: int, b: int, p: int)
    requires a <= b && p >= 0
    ensures a * p <= b * p
  {
  }

  lemma DivFact(x: int, d: int)
    requires x >= 0 && d > 0
    ensures x / d >= 0 && 0 <= (x / d) * d <= x < (x / d) * d + d
  {
    assert x == d * (x / d) + x % d;
    assert d * (x / d) == (x / d) * d;
    if x / d < 0 { MulMonotone(x / d, -1, d); assert false; }
    MulMonotone(0, x / d, d);
  }

  lemma ModUnique(x: int, k: int, r: int)
    requires x == k * B + r && 0 <= r < B
    ensures x % B == r
  {
  }

  /** Quotient and remainder are unique. */
  lemma RemainderIsMod(x: int, q: int, y: int, r: int)
    requires x == q * y + r && 0 <= r < y
    ensures x / y == q && x % y == r
  {
    var q', r' := x / y, x % y;
    assert x == y * q' + r';
    assert y * q' == q' * y;
    if q' < q {
      MulMonotone(q' + 1, q, y);
      assert false;
    } else if q' > q {
      MulMonotone(q + 1, q', y);
      assert false;
    }
  }

  /** Equal-length vectors are determined by their value. */
  lemma {:induction false} ValueInjective(s: seq<Digit>, t: seq<Digit>)
    requires |s| == |t| && Value(s) == Value(t)
    ensures s == t
  {
    if s != [] {
      assert s[0] == t[0] && Value(s[1..]) == Value(t[1..]);
      ValueInjective(s[1..], t[1..]);
      assert s == [s[0]] + s[1..] && t == [t[0]] + t[1..];
    }
  }

  /** Every natural number has exactly one normal digit vector. */
  lemma NormalUnique(s: seq<Digit>, t: seq<Digit>)
    requires Normal(s) && Normal(t) && Value(s) == Value(t)
    ensures s == t
  {
    if |s| == |t| {
      ValueInjective(s, t);
    } else if |s| < |t| {
      LongerIsGreater(t, s);
    } else {
      LongerIsGreater(s, t);
    }
  }

  lemma LongerIsGreater(s: seq<Digit>, t: seq<Digit>)
    requires Normal(s) && |t| < |s| && |s| > 1
    ensures Value(t) < Value(s)
  {
    ValueBound(t);
    NormalLowerBound(s);
    PowMonotone(|t|, |s| - 1);
  }

  lemma SmallerLeadingDigit(s: seq<Digit>, t: seq<Digit>)
    requires |s| == |t| >= 1 && s[|s| - 1] < t[|t| - 1]
    ensures Value(s) < Value(t)
  {
    LeadingDigit(s);
    LeadingDigit(t);
    MulMonotone(s[|s| - 1] + 1, t[|t| - 1], Pow(|s| - 1));
  }

  /** The first position from the top where two vectors differ decides. */
  lemma {:induction false} TopDifferenceDecides(s: seq<Digit>, t: seq<Digit>, k: nat)
    requires |s| == |t| && k < |s| && s[k] < t[k]
    requires forall j :: k < j < |s| ==> s[j] == t[j]
    ensures Value(s) < Value(t)
    decreases |s| - k
  {
    var n := |s| - 1;
    if k == n {
      SmallerLeadingDigit(s, t);
    } else {
      TopDifferenceDecides(s[..n], t[..n], k);
      ValueTake(s, n);
      ValueTake(t, n);
      assert s[..n + 1] == s && t[..n + 1] == t;
    }
  }
}
