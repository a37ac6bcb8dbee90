/** 32-bit words and the bitwise operators the kernel applies to them.
    A word is a natural number below 2^32; `|` and `&` are defined bit by bit. */
module Bits {

  import DivMod

  const WORD := 0x1_0000_0000
  const PAGE_SIZE := 4096
  const PAGE_MASK: Word := 0xfffff000

  type Word = w: int | 0 <= w < WORD

  function Pow2(k: nat): (p: nat)
    ensures p > 0
  {
    if k == 0 then 1 else 2 * Pow2(k - 1)
  }

  lemma Pow2Values()
    ensures Pow2(12) == PAGE_SIZE && Pow2(20) == 0x100000 && Pow2(32) == WORD
  {
    assert Pow2(4) == 16;
    assert Pow2(8) == 0x100;
    assert Pow2(12) == 0x1000;
    assert Pow2(16) == 0x10000;
    assert Pow2(20) == 0x100000;
    assert Pow2(24) == 0x1000000;
    assert Pow2(28) == 0x10000000;
  }

  function Or(a: nat, b: nat): nat
    decreases a + b
  {
    if a == 0 && b == 0 then 0
    else 2 * Or(a / 2, b / 2) + (if a % 2 == 1 || b % 2 == 1 then 1 else 0)
  }

  function And(a: nat, b: nat): nat
    decreases a
  {
    if a == 0 then 0
    else 2 * And(a / 2, b / 2) + (if a % 2 == 1 && b % 2 == 1 then 1 else 0)
  }

  /** Bit `k + 1` of a number is bit `k` of its half. */
  lemma NextBit(a: nat, k: nat)
    ensures a / Pow2(k + 1) == a / 2 / Pow2(k)
  {
    HalfTwice(a, Pow2(k));
  }

  lemma HalfTwice(a: nat, p: nat)
    requires p > 0
    ensures a / (2 * p) == a / 2 / p
  {
    var q, r := a / 2 / p, a / 2 % p;
    assert a / 2 == q * p + r;
    assert a == q * (2 * p) + (2 * r + a % 2);
    DivMod.DivUnique(a, 2 * p, q, 2 * r + a % 2);
  }

  lemma OrHalf(a: nat, b: nat)
    ensures Or(a, b) / 2 == Or(a / 2, b / 2)
    ensures Or(a, b) % 2 == if a % 2 == 1 || b % 2 == 1 then 1 else 0
  {
  }

  lemma AndHalf(a: nat, b: nat)
    ensures And(a, b) / 2 == And(a / 2, b / 2)
    ensures And(a, b) % 2 == if a % 2 == 1 && b % 2 == 1 then 1 else 0
  {
  }

  /** OR and AND are what they are in every bit. */
  lemma {:induction false} BitsOfOr(a: nat, b: nat, k: nat)
    ensures Or(a, b) / Pow2(k) % 2 == if a / Pow2(k) % 2 == 1 || b / Pow2(k) % 2 == 1 then 1 else 0
    decreases k
  {
    OrHalf(a, b);
    if k > 0 {
      NextBit(Or(a, b), k - 1);
      NextBit(a, k - 1);
      NextBit(b, k - 1);
      BitsOfOr(a / 2, b / 2, k - 1);
    }
  }

  lemma {:induction false} BitsOfAnd(a: nat, b: nat, k: nat)
    ensures And(a, b) / Pow2(k) % 2 == if a / Pow2(k) % 2 == 1 && b / Pow2(k) % 2 == 1 then 1 else 0
    decreases k
  {
    AndHalf(a, b);
    if k > 0 {
      NextBit(And(a, b), k - 1);
      NextBit(a, k - 1);
      NextBit(b, k - 1);
      BitsOfAnd(a / 2, b / 2, k - 1);
    }
  }

  lemma {:induction false} AndZero(x: nat)
    ensures And(x, 0) == 0
  {
    if x > 0 { AndZero(x / 2); }
  }

  lemma AndOne(x: nat)
    ensures And(x, 1) == x % 2
  {
    assert And(x / 2, 0) == 0 by { AndZero(x / 2); }
  }

  lemma {:induction false} OrZero(a: nat)
    ensures Or(a, 0) == a
  {
    if a > 0 { OrZero(a / 2); }
  }

  /** OR-ing two `k`-bit values gives a `k`-bit value. */
  lemma {:induction false} OrBound(a: nat, b: nat, k: nat)
    requires a < Pow2(k) && b < Pow2(k)
    ensures Or(a, b) < Pow2(k)
  {
    if k > 0 { OrBound(a / 2, b / 2, k - 1); }
  }

  /** OR-ing a `k`-bit value leaves all higher bits alone. */
  lemma {:induction false} OrLow(h: nat, f: nat, g: nat, k: nat)
    requires f < Pow2(k) && g < Pow2(k)
    ensures Or(h * Pow2(k) + f, g) == h * Pow2(k) + Or(f, g)
  {
    if k == 0 {
      OrZero(h);
    } else {
      var p := Pow2(k - 1);
      var a := h * Pow2(k) + f;
      assert h * Pow2(k) == 2 * (h * p);
      assert a / 2 == h * p + f / 2 && a % 2 == f % 2;
      OrLow(h, f / 2, g / 2, k - 1);
    }
  }

  /** AND with a value whose low `k` bits are clear ignores the low `k` bits. */
  lemma {:induction false} AndHigh(h: nat, l: nat, m: nat, k: nat)
    requires l < Pow2(k)
    ensures And(h * Pow2(k) + l, m * Pow2(k)) == And(h, m) * Pow2(k)
  {
    if k > 0 {
      var p := Pow2(k - 1);
      AndHigh(h, l / 2, m, k - 1);
      AndHighStep(h, l, m, p);
    }
  }

  lemma AndHighStep(h: nat, l: nat, m: nat, p: nat)
    requires And(h * p + l / 2, m * p) == And(h, m) * p
    ensures And(h * (2 * p) + l, m * (2 * p)) == And(h, m) * (2 * p)
  {
    Double(h, p);
    Double(m, p);
    Double(And(h, m), p);
    AndShift(h * p + l / 2, l % 2, m * p);
  }

  lemma Double(x: nat, p: nat)
    ensures x * (2 * p) == 2 * (x * p)
  {
  }

  lemma AndShift(x: nat, bit: nat, y: nat)
    requires bit < 2
    ensures And(2 * x + bit, 2 * y) == 2 * And(x, y)
  {
    var a, b := 2 * x + bit, 2 * y;
    if a > 0 {
      assert And(a, b) == 2 * And(a / 2, b / 2) by {
        assert b % 2 == 0;
      }
      assert a / 2 == x && b / 2 == y;
    }
  }

  /** AND with a power of two picks one bit. */
  lemma {:induction false} AndPow2(a: nat, k: nat)
    ensures And(a, Pow2(k)) == if a / Pow2(k) % 2 == 1 then Pow2(k) else 0
    decreases k
  {
    if k == 0 {
      AndOne(a);
    } else {
      NextBit(a, k - 1);
      AndShift(a / 2, a % 2, Pow2(k - 1));
      AndPow2(a / 2, k - 1);
    }
  }

  lemma {:induction false} AndOnes(h: nat, k: nat)
    requires h < Pow2(k)
    ensures And(h, Pow2(k) - 1) == h
  {
    if k > 0 { AndOnes(h / 2, k - 1); }
  }

  lemma AndHighPage(h: nat, l: nat, m: nat)
    requires l < PAGE_SIZE
    ensures And(h * 4096 + l, m * 4096) == And(h, m) * 4096
  {
    Pow2Values();
    AndHigh(h, l, m, 12);
  }

  lemma OrLowPage(h: nat, f: nat, g: nat)
    requires f < PAGE_SIZE && g < PAGE_SIZE
    ensures Or(h * 4096 + f, g) == h * 4096 + Or(f, g)
  {
    Pow2Values();
    OrLow(h, f, g, 12);
  }

  lemma AndFrame(h: nat)
    requires h < 0x100000
    ensures And(h, 0xfffff) == h
  {
    Pow2Values();
    AndOnes(h, 20);
  }

  lemma MaskOff(h: nat, l: nat)
    requires h < 0x100000 && l < PAGE_SIZE
    ensures And(h * 4096 + l, PAGE_MASK) == h * 4096
  {
    AndHighPage(h, l, 0xfffff);
    AndFrame(h);
  }

  /** Masking with 0xfffff000 drops the offset inside the page. */
  lemma MaskPage(w: Word)
    ensures And(w, PAGE_MASK) == w - w % PAGE_SIZE
  {
    var h, l := w / 4096, w % 4096;
    assert w == h * 4096 + l;
    MaskOff(h, l);
  }

  lemma {:induction false} OrZeroLeft(a: nat)
    ensures Or(0, a) == a
  {
    if a > 0 { OrZeroLeft(a / 2); }
  }

  lemma OrPage(h: nat, f: nat)
    requires f < PAGE_SIZE
    ensures Or(h * 4096, f) == h * 4096 + f
  {
    OrLowPage(h, 0, f);
    OrZeroLeft(f);
  }

  /** A 4096-aligned address survives OR-ing in flag bits. */
  lemma OrFlags(a: Word, f: nat)
    requires a % PAGE_SIZE == 0 && f < PAGE_SIZE
    ensures Or(a, f) == a + f && a + f < WORD
  {
    assert a == a / 4096 * 4096;
    OrPage(a / 4096, f);
  }

  lemma OrFlagBits(f: nat, g: nat)
    requires f < PAGE_SIZE && g < PAGE_SIZE
    ensures Or(f, g) < PAGE_SIZE
  {
    Pow2Values();
    OrBound(f, g, 12);
  }

  lemma OrPageTwice(h: nat, f: nat, g: nat)
    requires f < PAGE_SIZE && g < PAGE_SIZE
    ensures Or(Or(h * 4096, f), g) == h * 4096 + Or(f, g)
  {
    OrPage(h, f);
    OrLowPage(h, f, g);
  }

  /** Masking recovers an aligned address from under its flags. */
  lemma FlagsMaskOff(a: Word, f: nat, g: nat)
    requires a % PAGE_SIZE == 0 && f < PAGE_SIZE && g < PAGE_SIZE
    ensures Or(Or(a, f), g) < WORD
    ensures And(Or(Or(a, f), g), PAGE_MASK) == a
  {
    var h := a / 4096;
    assert a == h * 4096;
    OrFlagBits(f, g);
    OrPageTwice(h, f, g);
    MaskOff(h, Or(f, g));
  }

  lemma OrWord(a: Word, b: Word)
    ensures Or(a, b) < WORD
  {
    Pow2Values();
    OrBound(a, b, 32);
  }
}
