/** Infinite two's-complement bitwise operations on integers, and how they act on low-order blocks. */
module Bits {

  function Pow2(k: nat): (p: int)
    ensures p >= 1
  {
    if k == 0 then 1 else 2 * Pow2(k - 1)
  }

  /** Bit i of the two's-complement expansion of a. */
  predicate TestBit(a: int, i: nat)
    decreases i
  {
    if i == 0 then a % 2 == 1 else TestBit(a / 2, i - 1)
  }

  function Abs(a: int): nat {
    if a < 0 then -a else a
  }

  /** Conjunction of the two lowest bits. */
  function LowAnd(a: int, b: int): int {
    if a % 2 == 1 && b % 2 == 1 then 1 else 0
  }

  function And(a: int, b: int): int
    decreases Abs(a) + Abs(b)
  {
    if a == 0 || b == 0 then 0
    else if a == -1 then b
    else if b == -1 then a
    else LowAnd(a, b) + 2 * And(a / 2, b / 2)
  }

  function Not(a: int): int {
    -1 - a
  }

  function Or(a: int, b: int): int {
    Not(And(Not(a), Not(b)))
  }

  lemma AndNeutral(a: int)
    ensures And(a, 0) == 0 && And(a, -1) == a && And(-1, a) == a
  {
  }

  lemma AndUnfold(a: int, b: int)
    ensures And(a, b) == LowAnd(a, b) + 2 * And(a / 2, b / 2)
  {
    assert b == -1 ==> And(a / 2, b / 2) == a / 2;
  }

  /** And is the bitwise conjunction of the infinite expansions. */
  lemma {:induction false} AndIsBitwise(a: int, b: int, i: nat)
    ensures TestBit(And(a, b), i) <==> TestBit(a, i) && TestBit(b, i)
    decreases i
  {
    hide And;
    AndUnfold(a, b);
    assert And(a, b) % 2 == LowAnd(a, b) && And(a, b) / 2 == And(a / 2, b / 2);
    if i > 0 {
      AndIsBitwise(a / 2, b / 2, i - 1);
    }
  }

  lemma {:induction false} NotIsBitwise(a: int, i: nat)
    ensures TestBit(Not(a), i) <==> !TestBit(a, i)
    decreases i
  {
    assert Not(a) / 2 == Not(a / 2);
    if i > 0 {
      NotIsBitwise(a / 2, i - 1);
    }
  }

  /** Or is the bitwise disjunction of the infinite expansions. */
  lemma OrIsBitwise(a: int, b: int, i: nat)
    ensures TestBit(Or(a, b), i) <==> TestBit(a, i) || TestBit(b, i)
  {
    NotIsBitwise(And(Not(a), Not(b)), i);
    AndIsBitwise(Not(a), Not(b), i);
    NotIsBitwise(a, i);
    NotIsBitwise(b, i);
  }

  lemma {:induction false} AndCommutes(a: int, b: int)
    ensures And(a, b) == And(b, a)
    decreases Abs(a) + Abs(b)
  {
    if a != 0 && b != 0 && a != -1 && b != -1 {
      AndCommutes(a / 2, b / 2);
    }
  }

  /** And works block by block: the low k bits and the rest do not interact. */
  lemma {:induction false} AndSplit(k: nat, a0: int, a1: int, b0: int, b1: int)
    requires 0 <= a0 < Pow2(k) && 0 <= b0 < Pow2(k)
    ensures And(a0 + Pow2(k) * a1, b0 + Pow2(k) * b1) == And(a0, b0) + Pow2(k) * And(a1, b1)
    ensures 0 <= And(a0, b0) < Pow2(k)
    decreases k
  {
    if k == 0 {
      assert a0 == 0 && b0 == 0;
    } else {
      AndSplit(k - 1, a0 / 2, a1, b0 / 2, b1);
      AndSplitStep(Pow2(k - 1), a0, a1, b0, b1);
    }
  }

  lemma AndSplitStep(m: int, a0: int, a1: int, b0: int, b1: int)
    requires 0 <= a0 < 2 * m && 0 <= b0 < 2 * m
    requires And(a0 / 2 + m * a1, b0 / 2 + m * b1) == And(a0 / 2, b0 / 2) + m * And(a1, b1)
    requires 0 <= And(a0 / 2, b0 / 2) < m
    ensures And(a0 + (2 * m) * a1, b0 + (2 * m) * b1) == And(a0, b0) + (2 * m) * And(a1, b1)
    ensures 0 <= And(a0, b0) < 2 * m
  {
    hide And;
    HalveBlock(a0, a1, m);
    HalveBlock(b0, b1, m);
    AndUnfold(a0 + (2 * m) * a1, b0 + (2 * m) * b1);
    AndUnfold(a0, b0);
    MulAssoc(2, m, And(a1, b1));
  }

  lemma MulAssoc(a: int, b: int, c: int)
    ensures a * (b * c) == (a * b) * c
  {
  }

  lemma HalveBlock(a0: int, a1: int, m: int)
    requires 0 <= a0 < 2 * m
    ensures (a0 + (2 * m) * a1) / 2 == a0 / 2 + m * a1
    ensures (a0 + (2 * m) * a1) % 2 == a0 % 2
    ensures 0 <= a0 / 2 < m
  {
    MulAssoc(2, m, a1);
  }

  /** A block of ones is neutral. */
  lemma {:induction false} AndOnes(k: nat, a: int)
    requires 0 <= a < Pow2(k)
    ensures And(a, Pow2(k) - 1) == a
  {
    if k > 0 {
      AndOnes(k - 1, a / 2);
      AndUnfold(a, Pow2(k) - 1);
      assert (Pow2(k) - 1) / 2 == Pow2(k - 1) - 1 && (Pow2(k) - 1) % 2 == 1;
    }
  }

  /** Masking off the low k bits. */
  lemma AndHighMask(k: nat, a0: int, a1: int, m1: int)
    requires 0 <= a0 < Pow2(k)
    ensures And(a0 + Pow2(k) * a1, Pow2(k) * m1) == Pow2(k) * And(a1, m1)
  {
    AndSplit(k, a0, a1, 0, m1);
  }

  /** Or of a shifted value with a value below the shift is addition. */
  lemma OrIsPlus(k: nat, a: int, b: int)
    requires 0 <= b < Pow2(k)
    ensures Or(Pow2(k) * a, b) == Pow2(k) * a + b
  {
    hide And, Pow2;
    var m := Pow2(k);
    NotBlock(m, a, 0);
    NotBlock(m, 0, b);
    AndSplit(k, m - 1, Not(a), m - 1 - b, -1);
    AndCommutes(m - 1, m - 1 - b);
    AndOnes(k, m - 1 - b);
    AndNeutral(Not(a));
  }

  lemma NotBlock(m: int, a: int, b: int)
    ensures Not(m * a + b) == (m - 1 - b) + m * Not(a)
  {
  }

  lemma {:induction false} Pow2Add(i: nat, j: nat)
    ensures Pow2(i + j) == Pow2(i) * Pow2(j)
  {
    if i > 0 {
      Pow2Add(i - 1, j);
      MulAssoc(2, Pow2(i - 1), Pow2(j));
    }
  }

  lemma SmallPow2()
    ensures Pow2(0) == 1 && Pow2(1) == 2 && Pow2(2) == 4 && Pow2(4) == 16
  {
  }

  lemma WordSizes()
    ensures Pow2(32) == 0x1_0000_0000
    ensures Pow2(64) == 0x1_0000_0000_0000_0000
  {
    hide Pow2;
    SmallPow2();
    Pow2Add(4, 4);
    Pow2Add(8, 8);
    Pow2Add(16, 16);
    Pow2Add(32, 32);
  }
}
