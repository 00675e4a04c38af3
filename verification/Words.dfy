/** The single-digit macros of the bignum kernel, with machine-word wrap-around written out. */
module Words {
  import opened Digits
  import opened Bits

  /** H_EXP is D_EXP / 2: a half digit holds 32 bits. */
  const H: int := 0x1_0000_0000

  function Wrap(x: int): (r: Digit) {
    x % B
  }

  /** C's value of a comparison. */
  function Bit(b: bool): (r: Digit) {
    if b then 1 else 0
  }

  /** Sum and carry of DSUM. */
  function DSum(a: Digit, b: Digit): (r: (Digit, Digit))
    ensures a + b == r.0 + B * r.1 && r.1 <= 1
  {
    var s := Wrap(b + a);
    (s, Bit(s < b))
  }

  /** Sum and carry of DSUMc, for any incoming carry word. */
  function DSumC(a: Digit, b: Digit, c: Digit): (r: (Digit, Digit))
    ensures a + b + c == r.0 + B * r.1 && r.1 <= 2
    ensures c <= 1 ==> r.1 <= 1
  {
    var xr := Wrap(a + c);
    var s := Wrap(b + xr);
    (s, Bit(xr < c) + Bit(s < b))
  }

  /** Difference and borrow of DSUB. */
  function DSub(a: Digit, b: Digit): (r: (Digit, Digit))
    ensures a - b == r.0 - B * r.1 && r.1 <= 1
  {
    var d := Wrap(a - b);
    (d, Bit(d > a))
  }

  /** Difference and borrow of DSUBb, for any incoming borrow word. */
  function DSubB(a: Digit, b: Digit, c: Digit): (r: (Digit, Digit))
    ensures a - b - c == r.0 - B * r.1 && r.1 <= 2
    ensures c <= 1 ==> r.1 <= 1
  {
    var yr := Wrap(b + c);
    var d := Wrap(a - yr);
    (d, Bit(yr < c) + Bit(d > a))
  }

  const LO_MASK: int := 0xFFFF_FFFF
  const HI_MASK: int := 0xFFFF_FFFF_0000_0000

  /** The masks of half digits, as arithmetic on the two halves. */
  lemma HalfMasks(x: Digit)
    ensures And(x, LO_MASK) == x % H
    ensures And(x, HI_MASK) == x / H * H
  {
    hide And, Pow2;
    WordSizes();
    var x0, x1 := x % H, x / H;
    assert x == x0 + Pow2(32) * x1;
    AndSplit(32, x0, x1, LO_MASK, 0);
    AndOnes(32, x0);
    AndNeutral(x1);
    AndHighMask(32, x0, x1, LO_MASK);
    AndOnes(32, x1);
  }

  /** High and low half combined with a bitwise or. */
  lemma JoinHalves(hi: int, lo: int)
    requires 0 <= lo < H
    ensures Or(hi * H, lo) == hi * H + lo
  {
    WordSizes();
    OrIsPlus(32, hi, lo);
  }

  /** B squared. */
  const BB: int := 0x1_0000_0000_0000_0000_0000_0000_0000_0000

  lemma ProductBound(a: Digit, b: Digit)
    ensures 0 <= a * b <= BB - 2 * B + 1
  {
    MulMonotone(a, D_MASK, b);
    assert D_MASK * b <= BB - 2 * B + 1;
  }

  lemma HalfProductBound(x: int, y: int)
    requires 0 <= x < H && 0 <= y < H
    ensures 0 <= x * y <= B - 2 * H + 1
  {
    MulMonotone(x, LO_MASK, y);
    assert LO_MASK * y <= B - 2 * H + 1;
  }

  lemma ProductOfHalves(a0: int, a1: int, b0: int, b1: int)
    ensures (a0 + H * a1) * (b0 + H * b1) == a0 * b0 + H * (a0 * b1) + H * (a1 * b0) + B * (a1 * b1)
  {
  }

  /** DMULc without a double-digit type: a*b + d1 from four half-digit products. */
  method DMulC(a: Digit, b: Digit, d1: Digit) returns (hi: Digit, lo: Digit)
    ensures hi * B + lo == a * b + d1
  {
    var a0, a1, b0, b1 := a % H, a / H, b % H, b / H;
    HalfProductBound(a0, b0);
    HalfProductBound(a0, b1);
    HalfProductBound(a1, b0);
    HalfProductBound(a1, b1);
    ProductOfHalves(a0, a1, b0, b1);
    assert a0 + H * a1 == a && b0 + H * b1 == b;
    ProductBound(a, b);
    hi, lo := AddColumns(a0 * b0, a0 * b1, a1 * b0, a1 * b1, d1);
  }

  /** The adding-up part of DMULc: three columns of half-digit products and the incoming word. */
  method AddColumns(a0b0: Digit, a0b1: Digit, a1b0: Digit, a1b1: Digit, d1: Digit)
    returns (hi: Digit, lo: Digit)
    requires a0b0 + H * a0b1 + H * a1b0 + B * a1b1 + d1 <= BB - B
    ensures hi * B + lo == a0b0 + H * a0b1 + H * a1b0 + B * a1b1 + d1
  {
    var (p0, c0) := DSum(a0b0, d1);
    var (t1, t2) := DSum(Wrap(c0 * H), p0 / H);
    var (u1, cu) := DSum(t1, a0b1);
    var (v1, cv) := DSum(u1, a1b0);
    var (p1, cw) := DSum(v1, Wrap(a1b1 * H));
    var k: Digit := t2 + cu + cv + cw;
    ShiftHalf(c0);
    ShiftHalf(a1b1);
    CarriesCollected(a0b0 + d1, a0b1, a1b0, a1b1, p0, c0, t1, t2, u1, cu, v1, cv, p1, cw);
    hi, lo := JoinColumns(a1b1, p0, p1, k);
  }

  /** The joining part of DMULc: the carry count k lands in the high half of the high digit. */
  method JoinColumns(a1b1: Digit, p0: Digit, p1: Digit, k: Digit) returns (hi: Digit, lo: Digit)
    requires k <= 4 && p0 % H + H * (p1 + B * (k + a1b1 / H)) <= BB - B
    ensures hi * B + lo == p0 % H + H * (p1 + B * (k + a1b1 / H))
  {
    hide Wrap, And, Or, DSum;
    ShiftHalf(k);
    ShiftHalf(p1);
    var p2 := DSum(a1b1, Wrap(k * H)).0;
    HalvesAssembled(p0 % H + H * (p1 + B * (k + a1b1 / H)), a1b1, p0, p1, k);
    assert p2 == a1b1 + k * H;
    JoinMasked(p2, p1, p0);
    hi := Or(And(p2, HI_MASK), p1 / H);
    lo := Or(Wrap(p1 * H), And(p0, LO_MASK));
  }

  lemma JoinMasked(p2: Digit, p1: Digit, p0: Digit)
    ensures Or(And(p2, HI_MASK), p1 / H) == p2 / H * H + p1 / H
    ensures Or(p1 % H * H, And(p0, LO_MASK)) == p1 % H * H + p0 % H
  {
    HalfMasks(p2);
    HalfMasks(p0);
    JoinHalves(p2 / H, p1 / H);
    JoinHalves(p1 % H, p0 % H);
  }

  /** Adding up the four carries of the middle column. */
  lemma CarriesCollected(s0: int, a0b1: int, a1b0: int, a1b1: int, p0: int, c0: int, t1: int, t2: int,
                         u1: int, cu: int, v1: int, cv: int, p1: int, cw: int)
    requires s0 == p0 + B * c0
    requires c0 % H * H + p0 / H == t1 + B * t2 && 0 <= c0 <= 1
    requires t1 + a0b1 == u1 + B * cu
    requires u1 + a1b0 == v1 + B * cv
    requires v1 + a1b1 % H * H == p1 + B * cw
    ensures s0 + H * a0b1 + H * a1b0 + B * a1b1 == p0 % H + H * (p1 + B * (t2 + cu + cv + cw + a1b1 / H))
  {
    assert p0 == p0 / H * H + p0 % H;
    assert a1b1 == a1b1 / H * H + a1b1 % H;
  }

  /** The carries collected by DMulC give both result digits without loss. */
  lemma HalvesAssembled(t: int, e: int, p0: int, p1: int, k: int)
    requires 0 <= t <= BB - B && 0 <= e && 0 <= k && 0 <= p1
    requires t == p0 % H + H * (p1 + B * (k + e / H))
    ensures 0 <= e + k * H < B
    ensures ((e + k * H) / H * H + p1 / H) * B + (p1 % H * H + p0 % H) == t
  {
    assert p1 == p1 / H * H + p1 % H;
    assert k + e / H < H;
    assert (e + k * H) / H == k + e / H;
  }

  lemma ShiftHalf(x: Digit)
    ensures Wrap(x * H) == x % H * H
  {
    assert x * H == x % H * H + B * (x / H);
  }

  /** A digit is 64 bits. */
  lemma {:induction false} WordPowers(k: nat)
    ensures Pow(k) == Pow2(64 * k)
  {
    if k > 0 {
      WordPowers(k - 1);
      WordSizes();
      hide Pow2;
      Pow2Add(64, 64 * (k - 1));
    }
  }
}
