/** Quotient and remainder by a divisor that is not a constant. */
module DivMod {

  /** `x / size`, counted out. */
  function Quot(x: nat, size: nat): (q: nat)
    requires size > 0
    decreases x
  {
    if x < size then 0 else 1 + Quot(x - size, size)
  }

  /** `x % size`, counted out. */
  function Rem(x: nat, size: nat): (r: nat)
    requires size > 0
    ensures r < size
    decreases x
  {
    if x < size then x else Rem(x - size, size)
  }

  /** They are the machine's division. */
  lemma {:induction false} QuotIsDivision(x: nat, size: nat)
    requires size > 0
    ensures Quot(x, size) == x / size && Rem(x, size) == x % size
    decreases x
  {
    QuotSplits(x, size);
    DivUnique(x, size, Quot(x, size), Rem(x, size));
  }

  lemma {:induction false} QuotSplits(x: nat, size: nat)
    requires size > 0
    ensures x == Quot(x, size) * size + Rem(x, size)
    decreases x
  {
    if x >= size {
      QuotSplits(x - size, size);
      var q := Quot(x - size, size);
      assert (1 + q) * size == size + q * size;
    }
  }

  /** `n * size`, counted out. */
  function Times(size: nat, n: nat): nat {
    if n == 0 then 0 else Times(size, n - 1) + size
  }

  lemma {:induction false} TimesIsProduct(size: nat, n: nat)
    ensures Times(size, n) == n * size
  {
    if n > 0 {
      TimesIsProduct(size, n - 1);
      assert (n - 1) * size + size == n * size;
    }
  }

  lemma {:induction false} TimesAdd(size: nat, a: nat, b: nat)
    ensures Times(size, a + b) == Times(size, a) + Times(size, b)
  {
    if b > 0 { TimesAdd(size, a, b - 1); }
  }

  lemma {:induction false} TimesGrow(size: nat, i: nat, n: nat)
    requires i <= n
    ensures Times(size, i) <= Times(size, n)
    ensures size > 0 && i < n ==> Times(size, i) + size <= Times(size, n)
  {
    if i < n { TimesGrow(size, i, n - 1); }
  }

  /** Every number is its quotient times the divisor, and its remainder; in one way only. */
  lemma {:induction false} QuotTimes(x: nat, size: nat)
    requires size > 0
    ensures x == Times(size, Quot(x, size)) + Rem(x, size)
    decreases x
  {
    if x >= size { QuotTimes(x - size, size); }
  }

  lemma {:induction false} QuotOfTimes(size: nat, q: nat, r: nat)
    requires r < size
    ensures Quot(Times(size, q) + r, size) == q && Rem(Times(size, q) + r, size) == r
  {
    if q > 0 {
      QuotOfTimes(size, q - 1, r);
      NextChunk(Times(size, q - 1) + r, size);
    }
  }

  lemma MulGap(d: int, size: nat)
    requires size > 0
    ensures d >= 1 ==> d * size >= size
    ensures d <= -1 ==> d * size <= 0 - size
  {
    if d >= 1 { assert (d - 1) * size >= 0; }
    if d <= -1 { assert (-1 - d) * size >= 0; }
  }

  lemma QuotUnique(p: int, a: nat, q: int, r: nat, size: nat)
    requires p * size + a == q * size + r && a < size && r < size
    ensures p == q && a == r
  {
    MulGap(p - q, size);
    assert (p - q) * size == p * size - q * size;
  }

  /** Quotient and remainder are determined. */
  lemma DivUnique(x: nat, size: nat, q: nat, r: nat)
    requires x == q * size + r && r < size
    ensures x / size == q && x % size == r
  {
    QuotUnique(x / size, x % size, q, r, size);
  }

  /** One divisor further: the next quotient, the same remainder. */
  lemma NextChunk(x: nat, size: nat)
    requires size > 0
    ensures Quot(x + size, size) == Quot(x, size) + 1 && Rem(x + size, size) == Rem(x, size)
  {
  }
}
