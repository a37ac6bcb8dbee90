/** Printing of numbers: long division bit by bit, and the digit loops around it. */
module Numbers {
  import opened Bits
  import opened DivMod

  const U64 := 0x1_0000_0000_0000_0000
  const NUL := '\0'
  const LOWER := "0123456789abcdef"
  const UPPER := "0123456789ABCDEF"

  // ---- Long division ----

  /** n >> k */
  function Shr(n: nat, k: nat): (r: nat)
    ensures r <= n
  {
    if k == 0 then n else Shr(n, k - 1) / 2
  }

  /** r << 1 in 64 bits */
  function Shl64(r: nat): nat {
    2 * r % U64
  }

  lemma {:induction false} ShrBound(n: nat, k: nat, w: nat)
    requires k <= w && n < Pow2(w)
    ensures Shr(n, k) < Pow2(w - k)
  {
    if k > 0 { ShrBound(n, k - 1, w); }
  }

  lemma U64IsPow2()
    ensures Pow2(64) == U64
  {
    Pow2Values();
    assert Pow2(40) == 0x100_0000_0000;
    assert Pow2(48) == 0x1_0000_0000_0000;
    assert Pow2(56) == 0x100_0000_0000_0000;
  }

  lemma OrBit(r: nat, bit: nat)
    requires bit < 2
    ensures Or(2 * r, bit) == 2 * r + bit
  {
    OrZero(r);
  }

  /** x << k, unbounded */
  function Shl(x: nat, k: nat): nat {
    if k == 0 then x else 2 * Shl(x, k - 1)
  }

  /** One more quotient bit, below the ones already there. */
  lemma {:induction false} OrNextBit(x: nat, i: nat)
    ensures Or(Shl(2 * x, i), Pow2(i)) == Shl(2 * x + 1, i)
    ensures Shl(x, i + 1) == Shl(2 * x, i)
  {
    if i == 0 { OrBit(x, 1); } else { OrNextBit(x, i - 1); }
  }

  lemma {:induction false} ShlZero(k: nat)
    ensures Shl(0, k) == 0
  {
    if k > 0 { ShlZero(k - 1); }
  }

  lemma {:induction false} QuotientSmall(q: nat, d: nat)
    requires d > 0
    ensures q <= Times(d, q)
  {
    if q > 0 { QuotientSmall(q - 1, d); }
  }

  /** The bits from `i` on have been divided: `quotient` stands for the bits set in `q`. */
  ghost predicate Divided(n: nat, d: nat, i: nat, quotient: nat, q: nat, r: nat) {
    && q == Shl(quotient, i)
    && Shr(n, i) == Times(d, quotient) + r
    && if d > 0 then r < d else i <= 64 && quotient + 1 == Pow2(64 - i)
  }

  /** r = (r << 1) | ((n >> i) & 1), where `bits` is n >> i. */
  method BringDown(bits: nat, r: nat) returns (r': nat)
    requires 2 * r <= bits < U64
    ensures r' == 2 * r + bits % 2
  {
    AndOne(bits);
    r' := Shl64(r);
    if bits % 2 == 0 { OrBit(r, 0); } else { OrBit(r, 1); }
    r' := Or(r', And(bits, 1));
  }

  /** One pass of the loop of udivmod64. */
  method DivideBit(n: nat, d: nat, i: nat, ghost quotient: nat, q: nat, r: nat)
    returns (ghost quotient': nat, q': nat, r': nat)
    requires n < U64 && i < 64 && Divided(n, d, i + 1, quotient, q, r)
    ensures Divided(n, d, i, quotient', q', r')
  {
    TimesAdd(d, quotient, quotient);
    OrNextBit(quotient, i);
    r' := BringDown(Shr(n, i), r);
    q', quotient' := q, 2 * quotient;
    if r' >= d {
      r' := r' - d;
      q' := Or(q, Pow2(i));
      quotient' := quotient' + 1;
    }
  }

  /** The loop of udivmod64. */
  method DivideBits(n: nat, d: nat) returns (q: nat, r: nat)
    requires n < U64
    ensures Divided(n, d, 0, q, q, r)
  {
    q, r := 0, 0;
    var i := 63;
    U64IsPow2();
    ShrBound(n, 64, 64);
    ShlZero(64);
    ghost var quotient: nat := 0;
    while i >= 0
      invariant -1 <= i <= 63 && Divided(n, d, i + 1, quotient, q, r)
    {
      quotient, q, r := DivideBit(n, d, i, quotient, q, r);
      i := i - 1;
    }
  }

  /** udivmod64: quotient and remainder, for every 64-bit dividend and 32-bit divisor. The
      code divides by zero too: all quotient bits are then set. */
  method UDivMod64(n: nat, d: Word) returns (q: nat, rem: Word)
    requires n < U64
    ensures d > 0 ==> n == q * d + rem && rem < d && q <= n
    ensures d == 0 ==> q == U64 - 1 && rem == n % WORD
  {
    var r: nat;
    q, r := DivideBits(n, d);
    U64IsPow2();
    TimesIsProduct(d, q);
    if d > 0 { QuotientSmall(q, d); }
    rem := r % WORD;
  }

  // ---- Numerals ----

  /** The digit tables of print_ull and print_uint. */
  function Table(upper: bool): string {
    if upper then UPPER else LOWER
  }

  predicate IsBase(base: nat) {
    base == 8 || base == 10 || base == 16
  }

  /** What a character counts for as a digit. */
  function DigitValue(c: char): (v: nat) {
    if '0' <= c <= '9' then c as int - '0' as int
    else if 'a' <= c <= 'f' then c as int - 'a' as int + 10
    else if 'A' <= c <= 'F' then c as int - 'A' as int + 10
    else 0
  }

  /** The number a text of digits stands for. */
  function Value(s: string, base: nat): nat
    requires IsBase(base)
  {
    if s == "" then 0 else Times(base, Value(s[..|s| - 1], base)) + DigitValue(s[|s| - 1])
  }

  /** A digit of the table for this base. */
  predicate IsDigit(c: char, base: nat, upper: bool) {
    DigitValue(c) < base && DigitValue(c) < 16 && Table(upper)[DigitValue(c)] == c
  }

  /** Digits only, at least one, and no leading zero. */
  predicate IsNumeral(s: string, base: nat, upper: bool) {
    && s != "" && (s[0] == '0' ==> |s| == 1)
    && forall k :: 0 <= k < |s| ==> IsDigit(s[k], base, upper)
  }

  /** The digits of a base in characters. */
  lemma DigitsAre(c: char, base: nat, upper: bool)
    requires IsBase(base)
    ensures IsDigit(c, base, upper) <==>
      if base == 16 then '0' <= c <= '9' || (if upper then 'A' <= c <= 'F' else 'a' <= c <= 'f')
      else 48 <= c as int < 48 + base
  {
    if DigitValue(c) < 16 { TableDigits(DigitValue(c), upper); }
  }

  /** The numeral of `val`. */
  function Numeral(val: nat, base: nat, upper: bool): (s: string)
    requires IsBase(base)
    decreases val
  {
    DigitStep(val, base);
    var last := [Table(upper)[Rem(val, base)]];
    if val < base then last else Numeral(Quot(val, base), base, upper) + last
  }

  lemma ZeroNumeral(base: nat, upper: bool)
    requires IsBase(base)
    ensures Numeral(0, base, upper) == ['0']
  {
    DigitStep(0, base);
  }

  lemma TableDigits(d: nat, upper: bool)
    requires d < 16
    ensures DigitValue(Table(upper)[d]) == d && (Table(upper)[d] == '0' <==> d == 0)
    ensures Table(upper)[d] == (if d < 10 then '0' as int + d else (if upper then 'A' else 'a') as int + d - 10) as char
  {
  }

  /** A numeral is a digit, or a digit behind a numeral that is not zero. */
  lemma NumeralSnoc(s: string, c: char, base: nat, upper: bool)
    ensures IsNumeral(s + [c], base, upper) <==>
      IsDigit(c, base, upper) && (s == "" || (IsNumeral(s, base, upper) && s[0] != '0'))
  {
    var t := s + [c];
    assert t[|s|] == c;
    assert forall k :: 0 <= k < |s| ==> t[k] == s[k];
  }

  /** Splitting off the last digit. */
  lemma DigitStep(val: nat, base: nat)
    requires IsBase(base)
    ensures val == Times(base, Quot(val, base)) + Rem(val, base)
    ensures val >= base ==> 0 < Quot(val, base) < val
  {
    QuotTimes(val, base);
    TimesAtLeast(base, Quot(val, base));
  }

  lemma {:induction false} TimesAtLeast(base: nat, v: nat)
    requires IsBase(base)
    ensures Times(base, v) >= 8 * v
  {
    if v > 0 { TimesAtLeast(base, v - 1); }
  }

  /** Numerals read back as the number they print. */
  lemma {:induction false} NumeralReadsBack(val: nat, base: nat, upper: bool)
    requires IsBase(base)
    ensures Value(Numeral(val, base, upper), base) == val
    decreases val
  {
    DigitStep(val, base);
    TableDigits(Rem(val, base), upper);
    var c := Table(upper)[Rem(val, base)];
    if val >= base {
      var front := Numeral(Quot(val, base), base, upper);
      NumeralReadsBack(Quot(val, base), base, upper);
      ValueSnoc(front, c, base);
    } else {
      ValueSnoc("", c, base);
      assert "" + [c] == [c];
    }
  }

  /** Numerals are well formed. */
  lemma {:induction false} NumeralForm(val: nat, base: nat, upper: bool)
    requires IsBase(base)
    ensures IsNumeral(Numeral(val, base, upper), base, upper)
    ensures Numeral(val, base, upper)[0] == '0' <==> val == 0
    decreases val
  {
    DigitStep(val, base);
    TableDigits(Rem(val, base), upper);
    var c := Table(upper)[Rem(val, base)];
    if val >= base {
      NumeralForm(Quot(val, base), base, upper);
      NumeralSnoc(Numeral(Quot(val, base), base, upper), c, base, upper);
    }
  }

  lemma ValueSnoc(s: string, c: char, base: nat)
    requires IsBase(base)
    ensures Value(s + [c], base) == Times(base, Value(s, base)) + DigitValue(c)
    ensures Value(s + [c], base) == Value(s, base) * base + DigitValue(c)
  {
    TimesIsProduct(base, Value(s, base));
    assert (s + [c])[..|s|] == s;
  }

  lemma LastDigit(v: nat, d: nat, base: nat)
    requires IsBase(base) && d < base
    ensures Quot(Times(base, v) + d, base) == v && Rem(Times(base, v) + d, base) == d
    ensures v > 0 ==> Times(base, v) + d >= base
  {
    QuotOfTimes(base, v, d);
  }

  lemma NumeralOfDigits(front: string, v: nat, d: nat, val: nat, base: nat, upper: bool)
    requires IsBase(base) && d < base && val == Times(base, v) + d
    requires if v == 0 then front == "" else front == Numeral(v, base, upper)
    ensures Numeral(val, base, upper) == front + [Table(upper)[d]]
  {
    LastDigit(v, d, base);
  }

  /** There is no other numeral of the same value. */
  lemma {:induction false} NumeralUnique(s: string, base: nat, upper: bool)
    requires IsBase(base) && IsNumeral(s, base, upper)
    ensures Numeral(Value(s, base), base, upper) == s
    decreases |s|
  {
    var front, c := s[..|s| - 1], s[|s| - 1];
    assert s == front + [c];
    NumeralSnoc(front, c, base, upper);
    if front != "" {
      NumeralUnique(front, base, upper);
      NotZero(front, Value(front, base), base, upper);
    }
    ValueSnoc(front, c, base);
    NumeralOfDigits(front, Value(front, base), DigitValue(c), Value(s, base), base, upper);
  }

  lemma NotZero(s: string, v: nat, base: nat, upper: bool)
    requires IsBase(base) && s == Numeral(v, base, upper) && s != "" && s[0] != '0'
    ensures v != 0
  {
    NumeralForm(v, base, upper);
  }

  /** `base` to the power `k`. */
  function Limit(base: nat, k: nat): (p: nat)
    requires IsBase(base)
  {
    if k == 0 then 1 else Times(base, Limit(base, k - 1))
  }

  /** A numeral has at most `k` digits exactly when its value is below that power. */
  lemma {:induction false} NumeralLength(val: nat, base: nat, upper: bool, k: nat)
    requires IsBase(base) && k > 0
    ensures |Numeral(val, base, upper)| <= k <==> val < Limit(base, k)
    decreases k
  {
    DigitStep(val, base);
    LimitIsPositive(base, k - 1);
    if k == 1 {
      assert Limit(base, 1) == Times(base, 0) + base;
    } else if val >= base {
      NumeralLength(Quot(val, base), base, upper, k - 1);
      BelowTimes(base, Quot(val, base), Rem(val, base), Limit(base, k - 1));
    }
  }

  lemma BelowTimes(base: nat, q: nat, r: nat, limit: nat)
    requires r < base
    ensures Times(base, q) + r < Times(base, limit) <==> q < limit
  {
    if q < limit { TimesGrow(base, q, limit); } else { TimesGrow(base, limit, q); }
  }

  lemma {:induction false} LimitIsPositive(base: nat, k: nat)
    requires IsBase(base)
    ensures Limit(base, k) >= Pow2(3 * k) > 0
  {
    if k > 0 {
      LimitIsPositive(base, k - 1);
      TimesAtLeast(base, Limit(base, k - 1));
      assert Pow2(3 * k - 1) == 2 * Pow2(3 * k - 2);
    }
  }

  /** What a number and its quotient and remainder by the base have to do with each other. */
  lemma DigitOut(v: nat, q: nat, r: nat, base: nat, upper: bool)
    requires IsBase(base) && v > 0 && v == q * base + r && r < base
    ensures Numeral(v, base, upper) == Front(q, base, upper) + [Table(upper)[r]]
    ensures q < v
  {
    TimesIsProduct(base, q);
    NumeralOfDigits(Front(q, base, upper), q, r, v, base, upper);
  }

  /** The digits still to be printed; none for zero. */
  function Front(v: nat, base: nat, upper: bool): string
    requires IsBase(base)
  {
    if v == 0 then "" else Numeral(v, base, upper)
  }

  /** The text is the numeral of `val`: digits without a leading zero that evaluate to it.
      There is exactly one such text. */
  predicate Spells(text: string, val: nat, base: nat, upper: bool)
    requires IsBase(base)
  {
    IsNumeral(text, base, upper) && Value(text, base) == val
  }

  lemma SpelledOnce(text: string, val: nat, base: nat, upper: bool)
    requires IsBase(base)
    ensures Spells(text, val, base, upper) <==> text == Numeral(val, base, upper)
  {
    NumeralForm(val, base, upper);
    NumeralReadsBack(val, base, upper);
    if IsNumeral(text, base, upper) { NumeralUnique(text, base, upper); }
  }

  // ---- The digit loops ----

  /** buf[--loc] = c, seen from the end of the buffer. */
  method PutBefore(buf: array<char>, loc: nat, end: nat, c: char, ghost front: string)
    requires 0 < loc <= end < buf.Length
    modifies buf
    ensures front + buf[loc - 1..end] == (front + [c]) + old(buf[loc..end])
    ensures buf[loc - 1..end] == [c] + old(buf[loc..end]) && buf[end] == old(buf[end])
  {
    ghost var done := buf[loc..end];
    buf[loc - 1] := c;
    assert buf[loc - 1..end] == [c] + done;
  }

  /** The division of print_ull and the digit it prints. */
  method UllDigit(v: nat, base: Word, upper: bool) returns (q: nat, c: char)
    requires 0 < v < U64 && IsBase(base)
    ensures q < v && Numeral(v, base, upper) == Front(q, base, upper) + [c]
  {
    var rem;
    q, rem := UDivMod64(v, base);
    DigitOut(v, q, rem, base, upper);
    c := Table(upper)[rem];
  }

  /** print_ull: the buffer is filled from its end; 22 of its 24 characters are enough. */
  method PrintUll(val: nat, base: Word, upper: bool) returns (text: string)
    requires val < U64 && IsBase(base)
    ensures text == Numeral(val, base, upper) && |text| <= 22
  {
    UllLength(val, base, upper);
    var buf := new char[24];
    var loc: nat := 23;
    buf[23] := NUL;
    if val == 0 {
      loc := loc - 1;
      buf[loc] := '0';
      assert buf[loc..23] == ['0'];
      ZeroNumeral(base, upper);
      return buf[loc..23];
    }
    var v := val;
    while v != 0
      invariant loc <= 23 && 0 <= v < U64
      invariant Numeral(val, base, upper) == Front(v, base, upper) + buf[loc..23]
    {
      var c;
      v, c := UllDigit(v, base, upper);
      PutBefore(buf, loc, 23, c, Front(v, base, upper));
      loc := loc - 1;
    }
    text := buf[loc..23];
  }

  lemma UllLength(val: nat, base: nat, upper: bool)
    requires val < U64 && IsBase(base)
    ensures 0 < |Numeral(val, base, upper)| <= 22
  {
    NumeralLength(val, base, upper, 22);
    LimitIsPositive(base, 22);
    U64IsPow2();
    assert Pow2(66) == 2 * Pow2(65);
  }

  /** The division of print_uint and the digit it prints. */
  method UintDigit(v: Word, base: Word, upper: bool) returns (q: Word, c: char)
    requires 0 < v && IsBase(base)
    ensures q < v && Numeral(v, base, upper) == Front(q, base, upper) + [c]
  {
    DigitStep(v, base);
    QuotIsDivision(v, base);
    TimesIsProduct(base, Quot(v, base));
    DigitOut(v, Quot(v, base), Rem(v, base), base, upper);
    c := Table(upper)[v % base];
    q := v / base;
  }

  /** print_uint: 11 of its 16 characters are enough. */
  method PrintUint(val: Word, base: Word, upper: bool) returns (text: string)
    requires IsBase(base)
    ensures text == Numeral(val, base, upper) && |text| <= 11
  {
    UintLength(val, base, upper);
    var buf := new char[16];
    var loc: nat := 15;
    buf[15] := NUL;
    if val == 0 {
      loc := loc - 1;
      buf[loc] := '0';
      assert buf[loc..15] == ['0'];
      ZeroNumeral(base, upper);
      return buf[loc..15];
    }
    var v: Word := val;
    while v != 0
      invariant loc <= 15
      invariant Numeral(val, base, upper) == Front(v, base, upper) + buf[loc..15]
    {
      var c;
      v, c := UintDigit(v, base, upper);
      PutBefore(buf, loc, 15, c, Front(v, base, upper));
      loc := loc - 1;
    }
    text := buf[loc..15];
  }

  lemma UintLength(val: Word, base: nat, upper: bool)
    requires IsBase(base)
    ensures 0 < |Numeral(val, base, upper)| <= 11
  {
    NumeralLength(val, base, upper, 11);
    LimitIsPositive(base, 11);
    Pow2Values();
    assert Pow2(33) == 2 * Pow2(32);
  }

  // ---- Signed numbers ----

  /** Decimal text with a minus sign in front of negative numbers. */
  function Signed(i: int): (s: string) {
    if i < 0 then "-" + Numeral(-i, 10, false) else Numeral(i, 10, false)
  }

  function SignedValue(s: string): int {
    if s != "" && s[0] == '-' then 0 - Value(s[1..], 10) else Value(s, 10)
  }

  lemma SignedReadsBack(i: int)
    ensures SignedValue(Signed(i)) == i
    ensures i < 0 <==> Signed(i)[0] == '-'
  {
    var size := if i < 0 then -i else i;
    NumeralReadsBack(size, 10, false);
    NumeralForm(size, 10, false);
    var digits := Numeral(size, 10, false);
    assert IsDigit(digits[0], 10, false);
    assert ("-" + digits)[1..] == digits;
  }

  /** print_ll: no 64-bit number overflows on the way to its magnitude. */
  method PrintLl(val: int) returns (text: string)
    requires -U64 / 2 <= val < U64 / 2
    ensures text == Signed(val)
  {
    text := "";
    var uval: nat;
    if val < 0 {
      text := "-";
      assert 0 <= -(val + 1) < U64 / 2;
      uval := -(val + 1) + 1;
    } else {
      uval := val;
    }
    var digits := PrintUll(uval, 10, false);
    text := text + digits;
  }

  /** C division, which rounds towards zero. */
  function TruncDiv(a: int, b: nat): int
    requires b > 0
  {
    if a >= 0 then a / b else -(-a / b)
  }

  function TruncMod(a: int, b: nat): int
    requires b > 0
  {
    if a >= 0 then a % b else -(-a % b)
  }

  /** itoa: works on the negated number, so that the lowest 32-bit integer fits too, and
      fills its static buffer from the end. */
  method Itoa(text: array<char>, i: int) returns (loc: nat)
    requires text.Length == 12 && -WORD / 2 <= i < WORD / 2
    modifies text
    ensures loc <= 11 && text[loc..11] == Signed(i) && text[11] == NUL
  {
    text[11] := NUL;
    var neg := true;
    var v := i;
    if i >= 0 {
      neg := false;
      v := -i;
    }
    ghost var front := (n: nat) => Front(n, 10, false);
    ItoaLength(-v);
    loc := ItoaDigits(text, v, front);
    if loc == 11 {
      PutBefore(text, loc, 11, '0', "");
      loc := loc - 1;
    }
    ghost var digits := text[loc..11];
    if neg {
      PutBefore(text, loc, 11, '-', "");
      loc := loc - 1;
    }
    SignedIs(i, digits, text[loc..11]);
  }

  lemma SignedIs(i: int, digits: string, s: string)
    requires digits == if i == 0 then "0" else Front(if i < 0 then -i else i, 10, false)
    requires s == if i < 0 then ['-'] + digits else digits
    ensures s == Signed(i)
  {
    if i == 0 { assert Numeral(0, 10, false) == "0"; }
  }

  /** `front` is the decimal digits of its argument, none for zero. */
  ghost predicate IsFront(front: nat -> string) {
    forall n: nat {:trigger Front(n, 10, false)} :: front(n) == Front(n, 10, false)
  }

  /** The digit loop of itoa. */
  method ItoaDigits(text: array<char>, i: int, ghost front: nat -> string) returns (loc: nat)
    requires text.Length == 12 && -WORD / 2 <= i <= 0 && IsFront(front)
    requires front(0) == "" && |front(-i)| <= 10 && (i < 0 ==> front(-i) != "")
    modifies text
    ensures 1 <= loc <= 11 && text[loc..11] == front(-i) && text[11] == old(text[11])
    ensures loc == 11 <==> i == 0
  {
    loc := 11;
    var v := i;
    while v != 0
      invariant i <= v <= 0 && loc <= 11 && text[11] == old(text[11])
      invariant front(-i) == front(-v) + text[loc..11]
      decreases -v
    {
      var c;
      v, c := ItoaDigit(v, front);
      PutBefore(text, loc, 11, c, front(-v));
      loc := loc - 1;
    }
  }

  /** '0' - i % 10 and i / 10. */
  method ItoaDigit(v: int, ghost front: nat -> string) returns (q: int, c: char)
    requires v < 0 && IsFront(front)
    ensures v < q <= 0 && front(-v) == front(-q) + [c]
  {
    TruncDigit(v);
    c := ('0' as int - TruncMod(v, 10)) as char;
    q := TruncDiv(v, 10);
    assert front(-v) == Front(-v, 10, false) && front(-q) == Front(-q, 10, false);
  }

  /** The digit itoa prints for a negated number. */
  lemma TruncDigit(v: int)
    requires v < 0
    ensures -9 <= TruncMod(v, 10) <= 0 && v < TruncDiv(v, 10) <= 0
    ensures Numeral(-v, 10, false) ==
      Front(-TruncDiv(v, 10), 10, false) + [('0' as int - TruncMod(v, 10)) as char]
  {
    var q, r := -v / 10, -v % 10;
    DigitOut(-v, q, r, 10, false);
    TableDigits(r, false);
  }

  lemma ItoaLength(size: nat)
    requires size <= WORD / 2
    ensures |Front(size, 10, false)| <= 10
    ensures size > 0 ==> Front(size, 10, false) != ""
  {
    forall k: nat | k < 10 ensures Limit(10, k + 1) == 10 * Limit(10, k) {
      TimesIsProduct(10, Limit(10, k));
    }
    assert Limit(10, 0) == 1;
    assert Limit(10, 1) == 10 && Limit(10, 2) == 100;
    assert Limit(10, 3) == 1000 && Limit(10, 4) == 10000;
    assert Limit(10, 5) == 100000 && Limit(10, 6) == 1000000;
    assert Limit(10, 7) == 10000000 && Limit(10, 8) == 100000000;
    assert Limit(10, 9) == 1000000000 && Limit(10, 10) == 10000000000;
    NumeralLength(size, 10, false, 10);
  }
}
