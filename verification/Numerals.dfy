/** Numerals in base 2 to 36: the text of a number, the number of a text, and
    the fact that they undo each other. */
module Numerals {
  import opened Machine
  import opened Bits

  predicate IsBase(base: int) { 2 <= base <= 36 }

  // '0' to '9', then 'a' to 'z'
  function DigitChar(d: nat): char
    requires d < 36
  {
    if d < 10 then '0' + d as char else 'a' + (d - 10) as char
  }

  // The value of a digit character of either case, or -1.
  function DigitValue(c: char): int {
    if '0' <= c <= '9' then c as int - '0' as int
    else if 'a' <= c <= 'z' then c as int - 'a' as int + 10
    else if 'A' <= c <= 'Z' then c as int - 'A' as int + 10
    else -1
  }

  predicate IsDigit(c: char, base: int) { 0 <= DigitValue(c) < base }

  lemma DigitCharValue(d: nat)
    requires d < 36
    ensures DigitValue(DigitChar(d)) == d && DigitChar(d) != '\0'
  {
  }

  // Appending one digit position.
  function Shift(v: nat, base: nat): nat { v * base }

  lemma {:induction false} TwiceAtMost(q: nat, base: nat)
    requires base >= 2
    ensures 2 * q <= Shift(q, base)
  {
    if q > 0 {
      TwiceAtMost(q - 1, base);
      assert Shift(q, base) == Shift(q - 1, base) + base;
    }
  }

  lemma DivMod(v: nat, base: nat)
    requires base > 0
    ensures v == Shift(v / base, base) + v % base && v % base < base
  {
  }

  lemma QuotientSmaller(v: nat, base: nat)
    requires base >= 2 && v >= base
    ensures 0 < v / base < v
  {
    DivMod(v, base);
    TwiceAtMost(v / base, base);
    assert Shift(0, base) == 0;
  }

  /** The text of v, most significant digit first. */
  function Digits(v: nat, base: nat): (s: string)
    requires IsBase(base)
    ensures s != [] && forall i :: 0 <= i < |s| ==> IsDigit(s[i], base)
    decreases v
  {
    if v < base then [DigitChar(v)]
    else
      QuotientSmaller(v, base);
      Digits(v / base, base) + [DigitChar(v % base)]
  }

  /** The number a text of digits stands for. */
  function ValueOf(s: string, base: nat): nat
    requires forall i :: 0 <= i < |s| ==> IsDigit(s[i], base)
  {
    if s == [] then 0
    else
      assert IsDigit(s[|s| - 1], base);
      Shift(ValueOf(s[..|s| - 1], base), base) + DigitValue(s[|s| - 1])
  }

  /** Printing and reading back. */
  lemma {:induction false} DigitsRoundTrip(v: nat, base: nat)
    requires IsBase(base)
    ensures ValueOf(Digits(v, base), base) == v
    decreases v
  {
    var s := Digits(v, base);
    if v < base {
      assert s[..0] == [];
      assert Shift(0, base) == 0;
    } else {
      QuotientSmaller(v, base);
      DigitsRoundTrip(v / base, base);
      DivMod(v, base);
      DigitCharValue(v % base);
      assert s[..|s| - 1] == Digits(v / base, base);
    }
  }

  // Only zero starts with the digit 0.
  lemma {:induction false} LeadingDigit(v: nat, base: nat)
    requires IsBase(base)
    ensures Digits(v, base)[0] == '0' <==> v == 0
    ensures v == 0 ==> Digits(v, base) == "0"
    decreases v
  {
    if v >= base {
      QuotientSmaller(v, base);
      LeadingDigit(v / base, base);
    }
  }

  lemma QuotientHalves(v: nat, base: nat)
    requires base >= 2
    ensures v / base <= v / 2
  {
    DivMod(v, base);
    TwiceAtMost(v / base, base);
  }

  // At most one digit for each bit.
  lemma {:induction false} DigitsPerBit(v: nat, base: nat, k: nat)
    requires IsBase(base) && k > 0 && v < Pow2(k)
    ensures |Digits(v, base)| <= k
    decreases k
  {
    if v >= base {
      QuotientHalves(v, base);
      QuotientSmaller(v, base);
      assert k > 1 by { assert Pow2(1) == 2 * Pow2(0); }
      DigitsPerBit(v / base, base, k - 1);
    }
  }

  function Pow10(k: nat): nat {
    if k == 0 then 1 else 10 * Pow10(k - 1)
  }

  lemma {:induction false} DecimalDigits(v: nat, k: nat)
    requires k > 0 && v < Pow10(k)
    ensures |Digits(v, 10)| <= k
    decreases k
  {
    if v >= 10 {
      assert k > 1 by { assert Pow10(1) == 10 * Pow10(0); }
      DecimalDigits(v / 10, k - 1);
    }
  }

  /** A 64-bit number has at most 64 digits in any base and at most 20 in
      base 10. */
  lemma WordDigits(v: nat, base: nat)
    requires IsBase(base) && v < TWO64
    ensures |Digits(v, base)| <= 64
    ensures base == 10 ==> |Digits(v, base)| <= 20
  {
    PowerTable();
    DigitsPerBit(v, base, 64);
    if base == 10 {
      assert Pow10(8) == 100000000;
      assert Pow10(14) == 100000000000000;
      assert Pow10(20) == 100000000000000000000;
      DecimalDigits(v, 20);
    }
  }

  // ------------------------------------------------------------ the characters

  /** The codes of the digits printed: '0' to '9' are 48 to 57, 'a' to 'z' 97
      to 122. */
  lemma DigitCharMeaning(d: nat)
    requires d < 36
    ensures DigitChar(d) as int == if d < 10 then 48 + d else 87 + d
  {
  }

  /** The codes of the digits read: lower and upper case letters alike. */
  lemma DigitValueMeaning(c: char)
    ensures 48 <= c as int <= 57 ==> DigitValue(c) == c as int - 48
    ensures 97 <= c as int <= 122 ==> DigitValue(c) == c as int - 87
    ensures 65 <= c as int <= 90 ==> DigitValue(c) == c as int - 55
    ensures DigitValue(c) < 0 <==> !(48 <= c as int <= 57 || 97 <= c as int <= 122 || 65 <= c as int <= 90)
  {
  }

  /** Upper and lower case digits have the same value. */
  lemma {:induction false} CaseDoesNotMatter(s: string, t: string, base: nat)
    requires |s| == |t| && forall i :: 0 <= i < |s| ==> IsDigit(s[i], base) && DigitValue(t[i]) == DigitValue(s[i])
    ensures forall i :: 0 <= i < |t| ==> IsDigit(t[i], base)
    ensures ValueOf(t, base) == ValueOf(s, base)
  {
    if s != [] {
      CaseDoesNotMatter(s[..|s| - 1], t[..|s| - 1], base);
    }
  }

  // A digit as it is printed: no upper case.
  predicate IsPrinted(c: char) { '0' <= c <= '9' || 'a' <= c <= 'z' }

  lemma {:induction false} DigitsArePrinted(v: nat, base: nat, i: nat)
    requires IsBase(base) && i < |Digits(v, base)|
    ensures var c := Digits(v, base)[i]; '0' <= c <= '9' || 'a' <= c <= 'z'
    decreases v
  {
    if v >= base {
      QuotientSmaller(v, base);
      if i < |Digits(v / base, base)| {
        DigitsArePrinted(v / base, base, i);
      }
    }
  }

  lemma {:induction false} PositiveValue(s: string, base: nat)
    requires s != [] && s[0] != '0' && IsBase(base) && forall i :: 0 <= i < |s| ==> IsDigit(s[i], base)
    ensures ValueOf(s, base) > 0
  {
    if |s| == 1 {
      assert s[..0] == [];
    } else {
      PositiveValue(s[..|s| - 1], base);
      TwiceAtMost(ValueOf(s[..|s| - 1], base), base);
    }
  }

  lemma QuotientOfShift(q: nat, base: nat, d: nat)
    requires d < base
    ensures (Shift(q, base) + d) / base == q && (Shift(q, base) + d) % base == d
  {
    DivModUnique(Shift(q, base) + d, base, q, d);
  }

  lemma SameDigit(c: char, base: nat)
    requires IsBase(base) && IsDigit(c, base) && IsPrinted(c)
    ensures DigitChar(DigitValue(c)) == c
  {
  }

  /** The text of a number is the only one: digits without upper case and
      without a leading zero that have its value. */
  lemma {:induction false} DigitsUnique(s: string, base: nat)
    requires IsBase(base) && s != [] && forall i :: 0 <= i < |s| ==> IsDigit(s[i], base) && IsPrinted(s[i])
    requires s[0] == '0' ==> |s| == 1
    ensures s == Digits(ValueOf(s, base), base)
    decreases |s|
  {
    var (t, c) := (s[..|s| - 1], s[|s| - 1]);
    assert IsDigit(c, base) && IsPrinted(c);
    SameDigit(c, base);
    hide DigitChar;
    assert s == t + [c];
    if t == [] {
      assert Shift(0, base) == 0;
    } else {
      DigitsUnique(t, base);
      PositiveValue(t, base);
      QuotientOfShift(ValueOf(t, base), base, DigitValue(c));
      TwiceAtMost(ValueOf(t, base), base);
      ShiftAtLeast(ValueOf(t, base), base);
    }
  }

  lemma ShiftAtLeast(v: nat, base: nat)
    requires v > 0
    ensures Shift(v, base) >= base
  {
    assert v * base == base + (v - 1) * base;
  }

  /** The text of a signed number: a minus sign and the absolute value. */
  function IntText(v: int, base: nat): string
    requires IsBase(base)
  {
    if v < 0 then ['-'] + Digits(-v, base) else Digits(v, base)
  }
}
