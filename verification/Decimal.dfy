/**
 * Decimal text of integers (erts/emulator/beam/big.c): write_big divides off
 * seventeen decimal digits at a time, big_decimal_estimate sizes the buffer
 * without dividing, and erts_chars_to_integer in base ten reads the text back in
 * chunks of seventeen digits.
 */
module Decimal {
  import opened Wrappers
  import opened Digits
  import opened Vectors
  import opened Multiply
  import opened ShortDivision
  import opened Integers
  import opened Sequences
  import Bits
  import Words

  /** digits_per_Sint and largest_pow_of_base for base ten. */
  const CHUNK: nat := 17
  const CHUNK_POWER: Digit := 100_000_000_000_000_000

  /** Powers of any base; those of two are Pow2. */
  function Power(b: nat, e: nat): nat {
    if e == 0 then 1 else b * Power(b, e - 1)
  }

  // ---------- decimal digits, least significant first ----------

  /** The significant digits; none for zero. */
  function Significant(n: nat): seq<nat> {
    if n == 0 then [] else [n % 10] + Significant(n / 10)
  }

  /** The lowest `k` digits, zeros included. */
  function Lowest(n: nat, k: nat): seq<nat> {
    if k == 0 then [] else [n % 10] + Lowest(n / 10, k - 1)
  }

  function Char(d: nat): char
    requires d < 10
  {
    '0' + d as char
  }

  function Chars(ds: seq<nat>): seq<char>
    requires forall i :: 0 <= i < |ds| ==> ds[i] < 10
  {
    seq(|ds|, i requires 0 <= i < |ds| => Char(ds[i]))
  }

  lemma {:induction false} SignificantDigits(n: nat)
    ensures forall i :: 0 <= i < |Significant(n)| ==> Significant(n)[i] < 10
  {
    if n > 0 {
      SignificantDigits(n / 10);
    }
  }

  lemma {:induction false} LowestDigits(n: nat, k: nat)
    ensures |Lowest(n, k)| == k
    ensures forall i :: 0 <= i < k ==> Lowest(n, k)[i] < 10
  {
    if k > 0 {
      LowestDigits(n / 10, k - 1);
    }
  }

  lemma PowerPositive(b: nat, e: nat)
    requires b > 0
    ensures Power(b, e) >= 1
  {
  }

  /** Dividing off `k` digits splits the text. */
  lemma {:induction false} ChunkSplits(q: nat, r: nat, k: nat)
    requires q > 0 && r < Power(10, k)
    ensures Significant(q * Power(10, k) + r) == Lowest(r, k) + Significant(q)
    decreases k
  {
    if k == 0 {
      assert [] + Significant(q) == Significant(q);
    } else {
      var n := q * Power(10, k) + r;
      ChunkStep(q, Power(10, k - 1), r);
      ChunkSplits(q, r / 10, k - 1);
      assert [r % 10] + (Lowest(r / 10, k - 1) + Significant(q)) == Lowest(r, k) + Significant(q);
    }
  }

  lemma ChunkStep(q: nat, p: nat, r: nat)
    requires q > 0 && r < 10 * p
    ensures (q * (10 * p) + r) / 10 == q * p + r / 10
    ensures (q * (10 * p) + r) % 10 == r % 10
    ensures q * (10 * p) + r > 0
  {
    assert q * (10 * p) == 10 * (q * p);
    assert q * p >= p by { MulAtLeast(q, p); }
  }

  lemma ChunkIsPower()
    ensures Power(10, CHUNK) == CHUNK_POWER
  {
    assert Power(10, 8) == 100_000_000;
    assert Power(10, 12) == 10 * 10 * 10 * 10 * Power(10, 8);
    assert Power(10, 17) == 10 * 10 * 10 * 10 * 10 * Power(10, 12);
  }

  // ---------- write_big ----------

  /** The characters in the order write_big hands them out: digits from the low end, the sign last. */
  function Text(neg: bool, n: nat): seq<char> {
    SignificantDigits(n);
    (if n == 0 then "0" else Chars(Significant(n))) + (if neg then "-" else "")
  }

  /** The loop that writes a number without leading zeros. */
  method WriteDigits(n: Digit) returns (out: seq<char>)
    ensures (SignificantDigits(n); out == Chars(Significant(n)))
  {
    SignificantDigits(n);
    out := [];
    var rem := n;
    while rem != 0
      invariant 0 <= rem
      invariant (SignificantDigits(rem); out + Chars(Significant(rem)) == Chars(Significant(n)))
      decreases rem
    {
      SignificantDigits(rem);
      SignificantDigits(rem / 10);
      assert Chars(Significant(rem)) == [Char(rem % 10)] + Chars(Significant(rem / 10));
      out := out + [Char(rem % 10)];
      rem := rem / 10;
    }
  }

  /** The text of the lowest `k` digits. */
  function LowText(n: nat, k: nat): seq<char> {
    LowestDigits(n, k);
    Chars(Lowest(n, k))
  }

  lemma LowTextStep(n: nat, k: nat)
    requires k > 0
    ensures LowText(n, k) == [Char(n % 10)] + LowText(n / 10, k - 1)
  {
    LowestDigits(n, k);
    LowestDigits(n / 10, k - 1);
  }

  /** The loop that writes exactly `k` digits. */
  method WriteChunk(n: Digit, k: nat) returns (out: seq<char>)
    ensures out == LowText(n, k)
  {
    out := [];
    var rem, i := n, k;
    while i > 0
      invariant 0 <= i <= k
      invariant out + LowText(rem, i) == LowText(n, k)
    {
      LowTextStep(rem, i);
      out := out + [Char(rem % 10)];
      rem, i := rem / 10, i - 1;
    }
  }

  /** The text of a non-zero number. */
  function DigitText(n: nat): seq<char> {
    SignificantDigits(n);
    Chars(Significant(n))
  }

  /** One division by the chunk power: the remainder is the low chunk of the text. */
  lemma ChunkText(q: nat, r: nat)
    requires r < CHUNK_POWER
    ensures q > 0 ==> DigitText(q * CHUNK_POWER + r) == LowText(r, CHUNK) + DigitText(q)
  {
    if q > 0 {
      ChunkIsPower();
      ChunkSplits(q, r, CHUNK);
      SignificantDigits(q);
      LowestDigits(r, CHUNK);
      SignificantDigits(q * CHUNK_POWER + r);
    }
  }

  /** The main loop of write_big, on its copy of the digits. */
  method WriteChunks(tmp: array<Digit>, xl: nat) returns (out: seq<char>)
    requires 1 <= xl <= tmp.Length && Normal(tmp[..xl]) && Value(tmp[..xl]) > 0
    modifies tmp
    ensures out == DigitText(old(Value(tmp[..xl])))
  {
    hide Value, DigitText, LowText, Overwrite;
    out := [];
    ghost var n := Value(tmp[..xl]);
    var tmpl := xl;
    while true
      invariant 1 <= tmpl <= tmp.Length && Normal(tmp[..tmpl]) && Value(tmp[..tmpl]) > 0
      invariant out + DigitText(Value(tmp[..tmpl])) == DigitText(n)
      decreases Value(tmp[..tmpl])
    {
      ghost var before, s := Value(tmp[..tmpl]), tmp[..];
      ghost var ws;
      var rem;
      ws, tmpl, rem := DDiv(tmp, tmpl, CHUNK_POWER, tmp);
      OverwritePrefix(s, ws, tmpl);
      ZeroVector(ws);
      ChunkText(Value(ws), rem);
      if tmpl == 1 && tmp[0] == 0 {
        var last := WriteDigits(rem);
        LastChunk(rem, last);
        out := out + last;
        return;
      }
      Shrinks(Value(ws), rem);
      var chunk := WriteChunk(rem, CHUNK);
      out := out + chunk;
    }
  }

  lemma LastChunk(n: nat, text: seq<char>)
    requires (SignificantDigits(n); text == Chars(Significant(n)))
    ensures text == DigitText(n)
  {
  }

  lemma Shrinks(q: nat, r: nat)
    requires q > 0
    ensures q < q * CHUNK_POWER + r
  {
  }

  /** write_big. */
  method WriteBig(x: array<Digit>, xl: nat, neg: bool) returns (out: seq<char>)
    requires 1 <= xl <= x.Length && Normal(x[..xl])
    ensures out == Text(neg, Value(x[..xl]))
  {
    if xl == 1 && x[0] < CHUNK_POWER {
      OneDigit(x[..1]);
      if x[0] == 0 {
        out := "0";
      } else {
        out := WriteDigits(x[0]);
      }
    } else {
      NotZero(x[..xl]);
      var tmp := new Digit[xl](_ => 0);
      CopyDigits(x, xl, tmp);
      assert tmp[..xl] == x[..xl];
      out := WriteChunks(tmp, xl);
    }
    if neg {
      out := out + "-";
    }
  }

  lemma NotZero(s: seq<Digit>)
    requires Normal(s) && (|s| > 1 || s[0] >= CHUNK_POWER)
    ensures Value(s) > 0
  {
    ZeroVector(s);
  }

  // ---------- big_decimal_estimate ----------

  lemma {:induction false} PowerAdd(b: nat, i: nat, j: nat)
    ensures Power(b, i + j) == Power(b, i) * Power(b, j)
  {
    if i > 0 {
      PowerAdd(b, i - 1, j);
      Bits.MulAssoc(b, Power(b, i - 1), Power(b, j));
    }
  }

  lemma {:induction false} PowerOfPower(b: nat, m: nat, n: nat)
    ensures Power(Power(b, m), n) == Power(b, m * n)
    decreases n
  {
    if n > 0 {
      PowerOfPower(b, m, n - 1);
      assert m * n == m + m * (n - 1);
      PowerAdd(b, m, m * (n - 1));
    }
  }

  lemma PowerMonotone(b: nat, i: nat, j: nat)
    requires b > 0 && i <= j
    ensures Power(b, i) <= Power(b, j)
  {
    hide Power;
    PowerAdd(b, i, j - i);
    PowerPositive(b, j - i);
    MulAtLeast(Power(b, j - i), Power(b, i));
  }

  lemma {:induction false} LargerBase(a: nat, c: nat, n: nat)
    requires a <= c
    ensures Power(a, n) <= Power(c, n)
    ensures a < c && n > 0 ==> Power(a, n) < Power(c, n)
  {
    if n > 0 {
      LargerBase(a, c, n - 1);
      MulMonotone(Power(a, n - 1), Power(c, n - 1), a);
      if a < c {
        PowerPositive(c, n - 1);
        StrictProduct(a, c, Power(a, n - 1), Power(c, n - 1));
      }
    }
  }

  lemma StrictProduct(a: nat, c: nat, p: nat, q: nat)
    requires a < c && p <= q
    ensures q > 0 ==> a * p < c * q
  {
    if q > 0 {
      MulMonotone(p, q, a);
      assert c * q == a * q + (c - a) * q;
      MulAtLeast(c - a, q);
    }
  }

  lemma SmallPowers()
    ensures Power(2, 15) == 0x8000 && Power(2, 16) == 0x1_0000 && Power(10, 7) == 10_000_000
  {
    assert Power(2, 8) == 256;
    PowerAdd(2, 7, 8);
    PowerAdd(2, 8, 8);
    PowerAdd(10, 3, 4);
  }

  /** The fact behind the constants 28 and 93. */
  lemma TwoToThe93()
    ensures Power(2, 93) < Power(10, 28)
  {
    SmallPowers();
    hide Power;
    PowerAdd(2, 15, 16);
    PowerAdd(2, 31, 31);
    PowerAdd(2, 62, 31);
    PowerAdd(10, 7, 7);
    PowerAdd(10, 14, 14);
  }

  lemma {:induction false} TwoPowers(k: nat)
    ensures Power(2, k) == Bits.Pow2(k)
  {
    if k > 0 {
      TwoPowers(k - 1);
    }
  }

  /** `bits` bits never need more than bits * 28 / 93 + 1 decimal digits. */
  lemma EstimateSuffices(bits: nat)
    ensures Bits.Pow2(bits) <= Power(10, bits * 28 / 93 + 1)
  {
    hide Power;
    TwoPowers(bits);
    var k := bits * 28 / 93 + 1;
    if Power(10, k) < Power(2, bits) {
      LargerBase(Power(10, k), Power(2, bits), 28);
      PowerOfPower(10, k, 28);
      PowerOfPower(2, bits, 28);
      PowerMonotone(2, bits * 28, 93 * k);
      PowerOfPower(2, 93, k);
      TwoToThe93();
      LargerBase(Power(2, 93), Power(10, 28), k);
      PowerOfPower(10, 28, k);
    }
  }

  lemma {:induction false} SignificantLength(n: nat, k: nat)
    requires n < Power(10, k)
    ensures |Significant(n)| <= k
    decreases k
  {
    if n > 0 {
      SignificantLength(n / 10, k - 1);
    }
  }

  /** The bit length of a digit, counted by shifting it out. */
  method BitLength(d0: Digit) returns (c: nat)
    ensures d0 < Bits.Pow2(c) && (d0 > 0 ==> c > 0 && Bits.Pow2(c - 1) <= d0) && (d0 == 0 ==> c == 0)
  {
    var d := d0;
    c := 0;
    while d != 0
      invariant 0 <= d && d * Bits.Pow2(c) <= d0 < (d + 1) * Bits.Pow2(c)
      invariant d0 == 0 ==> c == 0
      invariant d == 0 && d0 > 0 ==> c > 0 && Bits.Pow2(c - 1) <= d0
      decreases d
    {
      ShiftOnce(d, Bits.Pow2(c), d0);
      d := d / 2;
      c := c + 1;
    }
  }

  lemma ShiftOnce(d: nat, p: nat, d0: nat)
    requires d > 0 && d * p <= d0 < (d + 1) * p
    ensures (d / 2) * (2 * p) <= d0 < (d / 2 + 1) * (2 * p)
    ensures p <= d0
  {
    assert (d / 2) * (2 * p) == (d / 2 * 2) * p;
    assert (d / 2 + 1) * (2 * p) == (d / 2 * 2 + 2) * p;
    MulMonotone(d / 2 * 2, d, p);
    MulMonotone(d + 1, d / 2 * 2 + 2, p);
    MulAtLeast(d, p);
  }

  /** I_lg: the position of the highest bit, -1 for zero. */
  method ILg(x: array<Digit>, xl: nat) returns (lg: int)
    requires 1 <= xl <= x.Length && Normal(x[..xl])
    ensures lg >= -1 && Value(x[..xl]) < Bits.Pow2(lg + 1)
    ensures Value(x[..xl]) > 0 ==> lg >= 0 && Bits.Pow2(lg) <= Value(x[..xl])
    ensures Value(x[..xl]) == 0 ==> lg == -1
  {
    var c := BitLength(x[xl - 1]);
    lg := (xl - 1) * 64 + c - 1;
    ZeroVector(x[..xl]);
    LeadingBits(x[..xl], c);
  }

  lemma LeadingBits(s: seq<Digit>, c: nat)
    requires Normal(s)
    requires var d := s[|s| - 1]; d < Bits.Pow2(c) && (d > 0 ==> c > 0 && Bits.Pow2(c - 1) <= d) && (d == 0 ==> c == 0)
    ensures Value(s) < Bits.Pow2((|s| - 1) * 64 + c)
    ensures s[|s| - 1] > 0 ==> Bits.Pow2((|s| - 1) * 64 + c - 1) <= Value(s)
  {
    hide Bits.Pow2, Pow, Value;
    var n := |s| - 1;
    LeadingDigit(s);
    Words.WordPowers(n);
    Bits.Pow2Add(n * 64, c);
    if s[n] > 0 {
      Bits.Pow2Add(n * 64, c - 1);
      Scaled(Bits.Pow2(c - 1), s[n], Bits.Pow2(c), Pow(n), Value(s));
    } else {
      Scaled(0, s[n], Bits.Pow2(c), Pow(n), Value(s));
    }
  }

  lemma Scaled(low: nat, d: nat, high: nat, p: nat, v: nat)
    requires low <= d < high && d * p <= v < (d + 1) * p
    ensures p * low <= v < p * high
  {
    MulMonotone(low, d, p);
    MulMonotone(d + 1, high, p);
  }

  /** big_decimal_estimate: room for the digits, the sign and a terminator. */
  method DecimalEstimate(x: array<Digit>, xl: nat, neg: bool) returns (size: nat, ghost bits: nat)
    requires 1 <= xl <= x.Length && Normal(x[..xl])
    ensures |Text(neg, Value(x[..xl]))| <= size - 1
    ensures Value(x[..xl]) < Bits.Pow2(bits) && (bits > 0 ==> Bits.Pow2(bits - 1) <= Value(x[..xl]))
    ensures size == bits * 28 / 93 + 2 + if neg then 1 else 0
  {
    var lg := ILg(x, xl);
    bits := lg + 1;
    var lg10 := (lg + 1) * 28 / 93 + 1;
    TextFits(neg, Value(x[..xl]), lg + 1);
    if neg {
      lg10 := lg10 + 1;
    }
    size := lg10 + 1;
  }

  lemma TextFits(neg: bool, n: nat, bits: nat)
    requires n < Bits.Pow2(bits)
    ensures |Text(neg, n)| <= bits * 28 / 93 + 1 + (if neg then 1 else 0)
  {
    hide Power, Bits.Pow2;
    EstimateSuffices(bits);
    SignificantLength(n, bits * 28 / 93 + 1);
  }

  // ---------- erts_chars_to_integer in base ten ----------

  predicate IsDigit(c: char) {
    '0' <= c <= '9'
  }

  predicate AllDigits(s: seq<char>) {
    forall i :: 0 <= i < |s| ==> IsDigit(s[i])
  }

  function DigitOf(c: char): nat
    requires IsDigit(c)
  {
    c as int - '0' as int
  }

  /** The number a run of digits denotes, most significant digit first. */
  function Horner(s: seq<char>): nat
    requires AllDigits(s)
  {
    if s == [] then 0 else 10 * Horner(s[..|s| - 1]) + DigitOf(s[|s| - 1])
  }

  datatype Parsed = Number(n: int) | Invalid

  function ParseUnsigned(s: seq<char>, neg: bool): Parsed {
    if s != [] && AllDigits(s) then Number(Signed(neg, Horner(s))) else Invalid
  }

  /** The integers that decimal text stands for: an optional sign and at least one digit. */
  function Parse(text: seq<char>): Parsed {
    if text == [] then Invalid
    else if text[0] == '-' then ParseUnsigned(text[1..], true)
    else if text[0] == '+' then ParseUnsigned(text[1..], false)
    else ParseUnsigned(text, false)
  }

  /** Decimal text, told apart by its sign: a run of digits alone, behind a plus, or behind a minus. */
  ghost predicate Denotes(text: seq<char>, n: int) {
    exists s: seq<char> :: SignedRun(text, s, n)
  }

  predicate SignedRun(text: seq<char>, s: seq<char>, n: int) {
    && s != [] && AllDigits(s)
    && (((text == s || text == ['+'] + s) && n == Horner(s)) || (text == ['-'] + s && n == 0 - Horner(s)))
  }

  /** A plus changes nothing and a minus negates. */
  lemma Signs(s: seq<char>)
    requires s != [] && AllDigits(s)
    ensures Parse(s) == Number(Horner(s))
    ensures Parse(['+'] + s) == Parse(s)
    ensures Parse(['-'] + s) == Number(0 - Parse(s).n)
  {
    hide Horner;
    assert (['+'] + s)[1..] == s && (['-'] + s)[1..] == s;
    assert IsDigit(s[0]);
  }

  /** Parsing finds the integer that the text denotes, and finds none exactly if it denotes none. */
  lemma ParseIsDenotes(text: seq<char>, n: int)
    ensures Parse(text) == Number(n) <==> Denotes(text, n)
  {
    hide Horner;
    if Denotes(text, n) {
      var s :| SignedRun(text, s, n);
      Signs(s);
    }
    if Parse(text) == Number(n) {
      var s := if text[0] == '-' || text[0] == '+' then text[1..] else text;
      assert text == s || text == [text[0]] + s;
      assert SignedRun(text, s, n);
    }
  }

  /** Chunked evaluation: a run is its front shifted by the length of its back. */
  lemma {:induction false} HornerConcat(s: seq<char>, t: seq<char>)
    requires AllDigits(s) && AllDigits(t)
    ensures AllDigits(s + t) && Horner(s + t) == Horner(s) * Power(10, |t|) + Horner(t)
    decreases |t|
  {
    if t == [] {
      assert s + t == s;
    } else {
      var n := |t| - 1;
      HornerConcat(s, t[..n]);
      assert (s + t)[..|s + t| - 1] == s + t[..n];
      TenTimes(Horner(s), Power(10, n));
    }
  }

  lemma TenTimes(h: nat, p: nat)
    ensures 10 * (h * p) == h * (10 * p)
  {
  }

  lemma {:induction false} HornerBound(s: seq<char>)
    requires AllDigits(s)
    ensures Horner(s) < Power(10, |s|)
  {
    if s != [] {
      HornerBound(s[..|s| - 1]);
    }
  }

  lemma HornerZeros(s: seq<char>)
    requires s != [] && s[0] == '0'
    ensures AllDigits(s) <==> AllDigits(s[1..])
    ensures AllDigits(s) ==> Horner(s) == Horner(s[1..])
  {
    assert s == ['0'] + s[1..];
    if AllDigits(s[1..]) {
      assert ['0'][..0] == [] && Horner(['0']) == 0;
      HornerConcat(['0'], s[1..]);
    }
  }

  /** The loop that reads `k` digits into a word. */
  method ReadChunk(s: seq<char>, from: nat, k: nat) returns (ok: bool, m: nat)
    requires from + k <= |s|
    ensures ok <==> AllDigits(s[from..from + k])
    ensures ok ==> m == Horner(s[from..from + k]) < Power(10, k)
  {
    hide Power;
    m := 0;
    var i := 0;
    while i < k
      invariant 0 <= i <= k && AllDigits(s[from..from + i]) && m == Horner(s[from..from + i])
    {
      var b := s[from + i];
      if b < '0' || b > '9' {
        assert s[from..from + k][i] == b;
        return false, 0;
      }
      assert s[from..from + (i + 1)] == s[from..from + i] + [b];
      m := 10 * m + DigitOf(b);
      i := i + 1;
    }
    HornerBound(s[from..from + k]);
    ok := true;
  }

  /** The digits read so far, as a vector: the number is below B to the number of chunks. */
  ghost predicate Accumulated(r: seq<Digit>, k: nat, s: seq<char>, from: nat)
    requires from <= |s| && AllDigits(s[..from])
  {
    Normal(r) && Value(r) == Horner(s[..from]) && Value(r) < Pow(k) && |r| <= k
  }

  lemma ShortVector(r: seq<Digit>, k: nat)
    requires Normal(r) && Value(r) < Pow(k) && k >= 1
    ensures |r| <= k
  {
    hide Value, Pow;
    if |r| > k {
      PowMonotone(k, |r| - 1);
      NormalLowerBound(r);
    }
  }

  lemma NextChunk(v: nat, m: nat, p: nat)
    requires v < p && m < CHUNK_POWER
    ensures CHUNK_POWER * v + m < B * p
  {
  }

  /** The accumulated number after one more chunk. */
  lemma ChunkAccumulates(old': seq<Digit>, r: seq<Digit>, k: nat, s: seq<char>, from: nat, m: nat)
    requires k >= 1 && from + CHUNK <= |s| && AllDigits(s[..from]) && AllDigits(s[from..from + CHUNK])
    requires Accumulated(old', k, s, from)
    requires m == Horner(s[from..from + CHUNK]) < CHUNK_POWER
    requires Normal(r) && Value(r) == CHUNK_POWER * Value(old') + m
    ensures AllDigits(s[..from + CHUNK]) && Accumulated(r, k + 1, s, from + CHUNK)
  {
    hide Value, Power, Horner;
    assert s[..from + CHUNK] == s[..from] + s[from..from + CHUNK];
    HornerConcat(s[..from], s[from..from + CHUNK]);
    ChunkIsPower();
    NextChunk(Value(old'), m, Pow(k));
    ShortVector(r, k + 1);
  }

  /** big_times_small by the chunk power, then big_plus_small, in place. */
  method TimesPlus(r: array<Digit>, n: nat, m: Digit) returns (n': nat)
    requires 1 <= n && n + 1 < r.Length && Normal(r[..n])
    modifies r
    ensures 1 <= n' <= n + 2 && n' <= r.Length && Normal(r[..n'])
    ensures Value(r[..n']) == CHUNK_POWER * old(Value(r[..n])) + m
  {
    hide Value, Overwrite;
    ghost var s0 := r[..];
    ghost var ds;
    var n1;
    ds, n1 := DMul(r, n, CHUNK_POWER, r);
    OverwritePrefix(s0, ds, n1);
    ghost var s1 := r[..];
    ghost var es;
    es, n' := DAdd(r, 0, n1, m, r, 0);
    OverwritePrefix(s1, es, n');
  }

  /** The short form: fewer than seventeen digits make a small. */
  method ReadSmall(s: seq<char>, neg: bool) returns (r: Option<Term>)
    requires 0 < |s| < CHUNK
    ensures r.Some? <==> AllDigits(s)
    ensures r.Some? ==> Represents(r.value, Signed(neg, Horner(s)))
  {
    hide Horner;
    assert s[0..0 + |s|] == s;
    var ok, m := ReadChunk(s, 0, |s|);
    if !ok {
      return None;
    }
    PowerMonotone(10, |s|, 16);
    SixteenDigits();
    r := Some(Small(Signed(neg, m)));
  }

  lemma SixteenDigits()
    ensures Power(10, 16) <= MAX_SMALL
  {
    SmallPowers();
    hide Power;
    PowerAdd(10, 7, 7);
    PowerAdd(10, 14, 2);
    assert Power(10, 2) == 100 by { TwoDigits(); }
  }

  lemma TwoDigits()
    ensures Power(10, 2) == 100
  {
  }

  /** The long form: a first chunk of one to seventeen digits, then whole chunks. */
  method ReadBig(s: seq<char>, neg: bool) returns (r: Option<Term>)
    requires |s| >= CHUNK
    ensures r.Some? <==> AllDigits(s)
    ensures r.Some? ==> Represents(r.value, Signed(neg, Horner(s)))
  {
    hide Horner, Value, Pow, Represents;
    var i := if |s| % CHUNK == 0 then CHUNK else |s| % CHUNK;
    var ok, m := ReadChunk(s, 0, i);
    assert s[0..0 + i] == s[..i];
    if !ok {
      assert !AllDigits(s[..i]);
      return None;
    }
    FirstChunk(s, i, m);
    var left := (|s| - i) / CHUNK;
    ChunkCount(|s|, i);
    var hp := new Digit[left + 3](_ => 0);
    hp[0] := m;
    assert hp[..1] == [m];
    var n;
    ok, n := ReadChunks(hp, s, i, left);
    if !ok {
      return None;
    }
    assert s[..|s|] == s;
    var t := BigNorm(hp, n, neg);
    r := Some(t);
  }

  lemma ChunkCount(size: nat, i: nat)
    requires i <= size && i == if size % CHUNK == 0 then CHUNK else size % CHUNK
    ensures size == i + CHUNK * ((size - i) / CHUNK)
  {
  }

  /** The loop over the whole chunks. */
  method ReadChunks(hp: array<Digit>, s: seq<char>, from: nat, chunks: nat) returns (ok: bool, n: nat)
    requires |s| == from + CHUNK * chunks && hp.Length == chunks + 3
    requires AllDigits(s[..from]) && Accumulated(hp[..1], 1, s, from)
    modifies hp
    ensures ok <==> AllDigits(s)
    ensures ok ==> 1 <= n <= hp.Length && Normal(hp[..n]) && Value(hp[..n]) == Horner(s)
  {
    hide Horner, Value, Pow, AllDigits;
    var i, left, k := from, chunks, 1;
    n := 1;
    while left > 0
      invariant |s| == i + CHUNK * left && k + left == chunks + 1 && AllDigits(s[..i])
      invariant 1 <= n <= k && Accumulated(hp[..n], k, s, i)
    {
      var m;
      ok, m := ReadChunk(s, i, CHUNK);
      if !ok {
        NotAllDigits(s, i, i + CHUNK);
        return false, n;
      }
      ChunkIsPower();
      ghost var before := hp[..n];
      n := TimesPlus(hp, n, m);
      ChunkAccumulates(before, hp[..n], k, s, i, m);
      i, k, left := i + CHUNK, k + 1, left - 1;
    }
    assert s[..i] == s;
    ok := true;
  }

  lemma NotAllDigits(s: seq<char>, i: nat, j: nat)
    requires i <= j <= |s| && !AllDigits(s[i..j])
    ensures !AllDigits(s)
  {
    var k :| 0 <= k < |s[i..j]| && !IsDigit(s[i..j][k]);
    assert s[i + k] == s[i..j][k];
  }

  lemma FirstChunk(s: seq<char>, i: nat, m: nat)
    requires 1 <= i <= CHUNK && i <= |s| && AllDigits(s[..i]) && m == Horner(s[..i]) < Power(10, i)
    ensures m < CHUNK_POWER
    ensures Accumulated([m], 1, s, i)
  {
    hide Horner;
    PowerMonotone(10, i, CHUNK);
    ChunkIsPower();
    OneDigit([m]);
    assert Pow(1) == B * Pow(0);
  }

  /** The integers whose digits a bignum header can count. */
  ghost predicate HasTerm(n: int) {
    -Pow(BIG_ARITY_MAX) < n < Pow(BIG_ARITY_MAX)
  }

  /** erts_chars_to_integer. */
  method CharsToInteger(text: seq<char>) returns (r: Option<Term>)
    requires Parse(text).Number? ==> HasTerm(Parse(text).n)
    ensures r.Some? <==> Parse(text).Number?
    ensures r.Some? ==> Represents(r.value, Parse(text).n) && !r.value.TooBig?
    ensures r.Some? <==> exists n :: Denotes(text, n)
    ensures forall n :: Denotes(text, n) ==> r.Some? && Represents(r.value, n)
  {
    hide Denotes, Parse;
    r := ReadText(text);
    forall n {
      ParseIsDenotes(text, n);
    }
    assert Parse(text).Number? ==> Denotes(text, Parse(text).n);
    if r.Some? {
      TooBigIsExact(r.value, Parse(text).n);
    }
  }

  method ReadText(text: seq<char>) returns (r: Option<Term>)
    ensures r.Some? <==> Parse(text).Number?
    ensures r.Some? ==> Represents(r.value, Parse(text).n)
  {
    hide Horner, Represents;
    if |text| == 0 {
      return None;
    }
    var neg := text[0] == '-';
    var start := if neg || text[0] == '+' then 1 else 0;
    var s := text[start..];
    assert text[0..] == text;
    if |s| == 0 {
      return None;
    }
    ghost var whole := s;
    while s[0] == '0'
      invariant |s| > 0
      invariant AllDigits(s) <==> AllDigits(whole)
      invariant AllDigits(s) ==> Horner(s) == Horner(whole)
      decreases |s|
    {
      HornerZeros(s);
      s := s[1..];
      if |s| == 0 {
        NoDigits(s);
        RepresentsZero();
        return Some(Small(0));
      }
    }
    if |s| < CHUNK {
      r := ReadSmall(s, neg);
    } else {
      r := ReadBig(s, neg);
    }
  }

  lemma NoDigits(s: seq<char>)
    requires s == []
    ensures AllDigits(s) && Horner(s) == 0
  {
  }

  // ---------- the round trip ----------

  /** The digits of a number, read from the high end, evaluate to the number. */
  lemma {:induction false} DigitsEvaluate(n: nat)
    ensures var s := Reversed(DigitText(n)); AllDigits(s) && Horner(s) == n && (n > 0 ==> |s| > 0)
  {
    if n > 0 {
      DigitsEvaluate(n / 10);
      SignificantDigits(n);
      SignificantDigits(n / 10);
      var t := DigitText(n);
      assert t[1..] == DigitText(n / 10);
      var s := Reversed(t[1..]) + [t[0]];
      assert s[..|s| - 1] == Reversed(t[1..]);
    }
  }

  /** The high end of a text is no zero, except for the text of zero. */
  lemma {:induction false} NoLeadingZero(n: nat)
    requires n > 0
    ensures DigitText(n) != [] && DigitText(n)[|DigitText(n)| - 1] != '0'
  {
    SignificantDigits(n);
    if n < 10 {
      assert Significant(n) == [n] by { assert n / 10 == 0 && n % 10 == n; }
    } else {
      NoLeadingZero(n / 10);
      SignificantDigits(n / 10);
      assert DigitText(n) == [Char(n % 10)] + DigitText(n / 10);
    }
  }

  /** Reading what write_big wrote gives the same integer. */
  lemma TextRoundTrip(neg: bool, n: nat)
    ensures Parse(Reversed(Text(neg, n))) == Number(Signed(neg, n))
  {
    var digits := if n == 0 then "0" else DigitText(n);
    DigitsEvaluate(n);
    if n == 0 {
      assert Reversed("0") == "0" && "0"[..0] == "";
    }
    var s := Reversed(digits);
    assert s != [] && AllDigits(s) && Horner(s) == n;
    if neg {
      assert Text(neg, n) == digits + ['-'];
      ReversedSnoc(digits, '-');
      assert (['-'] + s)[1..] == s;
    } else {
      assert Text(neg, n) == digits;
    }
  }

  /** Printing an integer and reading the text back gives the term of that integer. */
  method PrintThenRead(x: array<Digit>, xl: nat, neg: bool, ghost t: Term) returns (r: Option<Term>)
    requires 1 <= xl <= x.Length && Normal(x[..xl])
    requires !t.TooBig? && Represents(t, Signed(neg, Value(x[..xl])))
    ensures r == Some(t)
  {
    hide Value, Text, Represents, Parse, Pow;
    var out := WriteBig(x, xl, neg);
    ghost var n := Signed(neg, Value(x[..xl]));
    TextRoundTrip(neg, Value(x[..xl]));
    TooBigIsExact(t, n);
    r := CharsToInteger(Reversed(out));
    RepresentationIsUnique(r.value, t, n);
  }
}
