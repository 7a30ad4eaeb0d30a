/** The number parsers and the number printer of the kernel's stdlib. Strings
    are sequences of characters that end with a NUL; a pointer into a string is
    an index. */
module Stdlib {
  import opened Machine
  import opened Bits
  import opened Numerals

  predicate IsCString(s: string) { s != [] && s[|s| - 1] == '\0' }

  predicate IsSpace(c: char) {
    c == ' ' || c == '\t' || c == '\n' || c == '\r' || c == '\U{0C}' || c == '\U{0B}'
  }

  // The first index from p on that is not white space.
  ghost function SkipSpace(s: string, p: nat): (r: nat)
    requires IsCString(s) && p < |s|
    ensures p <= r < |s| && !IsSpace(s[r]) && forall i :: p <= i < r ==> IsSpace(s[i])
    decreases |s| - p
  {
    if IsSpace(s[p]) then SkipSpace(s, p + 1) else p
  }

  // The first index from p on that is not a digit in the base.
  ghost function SkipDigits(s: string, p: nat, base: int): (r: nat)
    requires IsCString(s) && p < |s|
    ensures p <= r < |s| && !IsDigit(s[r], base) && forall i :: p <= i < r ==> IsDigit(s[i], base)
    decreases |s| - p
  {
    if IsDigit(s[p], base) then SkipDigits(s, p + 1, base) else p
  }

  predicate IsX(c: char) { c == 'x' || c == 'X' }

  // The base and the index after an optional base prefix.
  ghost function Prefix(s: string, p: nat, base: int): (r: (int, nat))
    requires IsCString(s) && p < |s|
    ensures p <= r.1 < |s|
  {
    if base == 0 then
      if s[p] == '0' then (if IsX(s[p + 1]) then (16, p + 2) else (8, p + 1)) else (10, p)
    else if base == 16 && s[p] == '0' && IsX(s[p + 1]) then (16, p + 2)
    else (base, p)
  }

  // What a parser reads: a sign, and the digits s[start..end] in a base.
  datatype Reading = Reading(negative: bool, base: int, start: nat, end: nat)

  ghost function Read(s: string, base: int): (r: Reading)
    requires IsCString(s)
    ensures r.start <= r.end < |s| && forall i :: r.start <= i < r.end ==> IsDigit(s[i], r.base)
  {
    var p := SkipSpace(s, 0);
    var q := if s[p] == '-' || s[p] == '+' then p + 1 else p;
    var (b, start) := Prefix(s, q, base);
    Reading(s[p] == '-', b, start, SkipDigits(s, start, b))
  }

  // The number the digits stand for, without the sign.
  ghost function Magnitude(s: string, r: Reading): nat
    requires r.start <= r.end <= |s| && forall i :: r.start <= i < r.end ==> IsDigit(s[i], r.base)
  {
    if r.base < 0 then 0 else Between(s, r.start, r.end, r.base)
  }

  ghost function Signed(negative: bool, n: nat): int { if negative then -(n as int) else n }

  // ------------------------------------------------------------ loops

  method SkipWhite(s: string) returns (p: nat)
    requires IsCString(s)
    ensures p == SkipSpace(s, 0)
  {
    p := 0;
    while s[p] == ' ' || s[p] == '\t' || s[p] == '\n' || s[p] == '\r' || s[p] == '\U{0C}' || s[p] == '\U{0B}'
      invariant p < |s| && SkipSpace(s, 0) == SkipSpace(s, p)
      decreases |s| - p
    {
      p := p + 1;
    }
  }

  method ReadSign(s: string, p: nat) returns (negative: bool, q: nat)
    requires IsCString(s) && p < |s|
    ensures negative == (s[p] == '-') && q == if s[p] == '-' || s[p] == '+' then p + 1 else p
    ensures q < |s|
  {
    negative, q := false, p;
    if s[p] == '-' {
      negative, q := true, p + 1;
    } else if s[p] == '+' {
      q := p + 1;
    }
  }

  method ReadPrefix(s: string, p: nat, base: int) returns (b: int, q: nat)
    requires IsCString(s) && p < |s|
    ensures (b, q) == Prefix(s, p, base) && q < |s|
  {
    b, q := base, p;
    if base == 0 {
      if s[p] == '0' {
        if s[p + 1] == 'x' || s[p + 1] == 'X' {
          b, q := 16, p + 2;
        } else {
          b, q := 8, p + 1;
        }
      } else {
        b := 10;
      }
    } else if base == 16 {
      if s[p] == '0' && (s[p + 1] == 'x' || s[p + 1] == 'X') {
        q := p + 2;
      }
    }
  }

  // The digit a parser sees at *nptr; false where its loop breaks.
  method ReadDigit(c: char, base: int) returns (ok: bool, digit: int)
    ensures ok == IsDigit(c, base) && (ok ==> digit == DigitValue(c))
  {
    if '0' <= c <= '9' {
      digit := c as int - '0' as int;
    } else if 'a' <= c <= 'z' {
      digit := c as int - 'a' as int + 10;
    } else if 'A' <= c <= 'Z' {
      digit := c as int - 'A' as int + 10;
    } else {
      return false, 0;
    }
    ok := digit < base;
  }

  lemma ModMultiple(k: nat, d: nat, y: nat)
    requires d > 0
    ensures (k * d + y) % d == y % d
  {
    var q := y / d;
    assert k * d + y == (k + q) * d + y % d;
    DivModUnique(k * d + y, d, k + q, y % d);
  }

  // Accumulating a digit commutes with reduction mod 2^64.
  lemma ModStep(x: nat, base: nat, digit: nat)
    ensures (x % TWO64 * base + digit) % TWO64 == (Shift(x, base) + digit) % TWO64
  {
    var (q, r) := (x / TWO64, x % TWO64);
    assert x == q * TWO64 + r;
    assert Shift(x, base) == (q * base) * TWO64 + r * base;
    ModMultiple(q * base, TWO64, r * base + digit);
  }

  // The number the digits s[start..end] stand for.
  ghost function Between(s: string, start: nat, end: nat, base: nat): nat
    requires start <= end <= |s| && forall i :: start <= i < end ==> IsDigit(s[i], base)
  {
    ValueOf(s[start..end], base)
  }

  lemma DecimalDigit(c: char)
    ensures IsDigit(c, 10) <==> '0' <= c <= '9'
    ensures '0' <= c <= '9' ==> DigitValue(c) == c as int - '0' as int
  {
  }

  lemma ValueStep(s: string, start: nat, p: nat, base: nat)
    requires start <= p < |s| && forall i :: start <= i <= p ==> IsDigit(s[i], base)
    ensures Between(s, start, p + 1, base) == Shift(Between(s, start, p, base), base) + DigitValue(s[p])
  {
    assert s[start..p + 1][..p - start] == s[start..p];
  }

  // The digit loop of strtoul and strtoull, on unsigned 64-bit numbers.
  method ReadDigits(s: string, start: nat, base: int) returns (result: Word, end: nat)
    requires IsCString(s) && start < |s|
    ensures end == SkipDigits(s, start, base)
    ensures result == if base < 0 then 0 else Between(s, start, end, base) % TWO64
  {
    result, end := 0, start;
    while s[end] != '\0'
      invariant start <= end < |s| && SkipDigits(s, start, base) == SkipDigits(s, end, base)
      invariant forall i :: start <= i < end ==> IsDigit(s[i], base)
      invariant result == if base < 0 then 0 else Between(s, start, end, base) % TWO64
      decreases |s| - end
    {
      var ok, digit := ReadDigit(s[end], base);
      if !ok {
        break;
      }
      ModStep(Between(s, start, end, base), base, digit);
      ValueStep(s, start, end, base);
      result := Accumulate(result, base, digit);
      end := end + 1;
    }
  }

  // result * base + digit, wrapping
  function Accumulate(result: Word, base: nat, digit: nat): Word {
    (result * base + digit) % TWO64
  }

  /** strtoul and strtoull (both 64 bits wide here): the digits' value, negated
      if there is a minus sign, modulo 2^64; `end` is where the digits stop. */
  method Strtoull(s: string, base: int) returns (r: Word, end: nat)
    requires IsCString(s)
    ensures end == Read(s, base).end
    ensures r == Signed(Read(s, base).negative, Magnitude(s, Read(s, base))) % TWO64
  {
    var p := SkipWhite(s);
    var negative, q := ReadSign(s, p);
    var b, start := ReadPrefix(s, q, base);
    var result;
    result, end := ReadDigits(s, start, b);
    r := if negative then (0 - result) % TWO64 else result;
    NegateMod(Magnitude(s, Read(s, base)));
  }

  lemma NegateMod(n: nat)
    ensures (0 - n % TWO64) % TWO64 == -(n as int) % TWO64
  {
  }

  type Int64 = v: int | -0x8000_0000_0000_0000 <= v < 0x8000_0000_0000_0000

  lemma {:induction false} PrefixValue(s: string, start: nat, p: nat, end: nat, base: nat)
    requires start <= p <= end <= |s| && forall i :: start <= i < end ==> IsDigit(s[i], base)
    ensures Between(s, start, p, base) <= Between(s, start, end, base)
    decreases end
  {
    if p < end {
      PrefixValue(s, start, p, end - 1, base);
      ValueStep(s, start, end - 1, base);
      assert IsDigit(s[end - 1], base);
      MulGrows(Between(s, start, end - 1, base), base);
    }
  }

  lemma MulGrows(v: nat, base: nat)
    requires base >= 1
    ensures v <= Shift(v, base)
  {
  }

  // The digit loop of strtol and strtoll. Values that do not fit are excluded,
  // and then no intermediate value overflows either.
  method ReadDigitsSigned(s: string, start: nat, base: int) returns (result: Int64, end: nat)
    requires IsCString(s) && start < |s|
    requires base < 0 || Between(s, start, SkipDigits(s, start, base), base) < 0x8000_0000_0000_0000
    ensures end == SkipDigits(s, start, base)
    ensures result == if base < 0 then 0 else Between(s, start, end, base)
  {
    result, end := 0, start;
    while s[end] != '\0'
      invariant start <= end < |s| && SkipDigits(s, start, base) == SkipDigits(s, end, base)
      invariant forall i :: start <= i < end ==> IsDigit(s[i], base)
      invariant result == if base < 0 then 0 else Between(s, start, end, base)
      decreases |s| - end
    {
      var ok, digit := ReadDigit(s[end], base);
      if !ok {
        break;
      }
      ValueStep(s, start, end, base);
      PrefixValue(s, start, end + 1, SkipDigits(s, start, base), base);
      result := result * base + digit;
      end := end + 1;
    }
  }

  /** strtol and strtoll: the signed value, for numbers that fit. */
  method Strtoll(s: string, base: int) returns (r: Int64, end: nat)
    requires IsCString(s) && Magnitude(s, Read(s, base)) < 0x8000_0000_0000_0000
    ensures end == Read(s, base).end
    ensures r == Signed(Read(s, base).negative, Magnitude(s, Read(s, base)))
  {
    var p := SkipWhite(s);
    var negative, q := ReadSign(s, p);
    var b, start := ReadPrefix(s, q, base);
    var result;
    result, end := ReadDigitsSigned(s, start, b);
    var sign := if negative then -1 else 1;
    r := sign * result;
  }

  type Int32 = v: int | -0x8000_0000 <= v < 0x8000_0000

  // What atoi reads: like strtol in base 10.
  ghost function AtoiMagnitude(s: string): nat
    requires IsCString(s)
  {
    Magnitude(s, Read(s, 10))
  }

  /** atoi: the signed value, for magnitudes that fit an int. */
  method Atoi(s: string) returns (r: Int32)
    requires IsCString(s) && AtoiMagnitude(s) < 0x8000_0000
    ensures r == Signed(Read(s, 10).negative, AtoiMagnitude(s))
  {
    var p := SkipWhite(s);
    var negative, start := ReadSign(s, p);
    var result := ReadDecimal(s, start);
    var sign := if negative then -1 else 1;
    r := sign * result;
  }

  // The digit loop of atoi.
  method ReadDecimal(s: string, start: nat) returns (result: Int32)
    requires IsCString(s) && start < |s|
    requires Between(s, start, SkipDigits(s, start, 10), 10) < 0x8000_0000
    ensures result == Between(s, start, SkipDigits(s, start, 10), 10)
  {
    hide IsDigit, DigitValue, Between;
    var end := start;
    result := 0;
    ghost var stop := SkipDigits(s, start, 10);
    BetweenNone(s, start, 10);
    while '0' <= s[end] <= '9'
      invariant start <= end <= stop && SkipDigits(s, end, 10) == stop
      invariant result == Between(s, start, end, 10)
      decreases |s| - end
    {
      DecimalDigit(s[end]);
      DigitsPast(s, end, 10);
      ValueStep(s, start, end, 10);
      PrefixValue(s, start, end + 1, stop, 10);
      result := result * 10 + (s[end] as int - '0' as int);
      end := end + 1;
    }
    DecimalDigit(s[end]);
    DigitsPast(s, end, 10);
  }

  lemma BetweenNone(s: string, start: nat, base: nat)
    requires start <= |s|
    ensures Between(s, start, start, base) == 0
  {
  }

  // Where the digits end, one character at a time.
  lemma DigitsPast(s: string, p: nat, base: int)
    requires IsCString(s) && p < |s|
    ensures if IsDigit(s[p], base) then p + 1 < |s| && SkipDigits(s, p, base) == SkipDigits(s, p + 1, base)
            else SkipDigits(s, p, base) == p
  {
  }

  // ------------------------------------------------------------ round trips

  // A digit is neither white space nor a sign.
  lemma DigitIsPlain(c: char, base: int)
    requires IsBase(base) && IsDigit(c, base)
    ensures !IsSpace(c) && c != '-' && c != '+' && c != '\0'
  {
  }

  lemma {:induction false} SkipAllDigits(s: string, p: nat, e: nat, base: int)
    requires IsCString(s) && p <= e < |s| && !IsDigit(s[e], base)
    requires forall i :: p <= i < e ==> IsDigit(s[i], base)
    ensures SkipDigits(s, p, base) == e
    decreases e - p
  {
    if IsDigit(s[p], base) {
      SkipAllDigits(s, p + 1, e, base);
    }
  }

  function Sign(negative: bool): string { if negative then "-" else "" }

  // A number whose prefix has been recognised is read up to the NUL.
  lemma ReadFrom(s: string, base: int, negative: bool, b: int, start: nat)
    requires IsCString(s) && IsBase(b)
    requires var q := |Sign(negative)|;
             && q < |s| && (negative ==> s[0] == '-')
             && !IsSpace(s[q]) && s[q] != '-' && s[q] != '+'
             && Prefix(s, q, base) == (b, start)
    requires forall i :: start <= i < |s| - 1 ==> IsDigit(s[i], b)
    ensures Read(s, base) == Reading(negative, b, start, |s| - 1)
  {
    hide Prefix;
    SkipAllDigits(s, start, |s| - 1, b);
  }

  // Prefix and base go together: "0x" or "0X" for base 16, asked for or open; a
  // lone '0' or nothing for an open base, 8 and 10; otherwise nothing.
  predicate PrefixFor(prefix: string, base: int, b: int, rest: string)
    requires rest != []
  {
    || ((prefix == "0x" || prefix == "0X") && (base == 0 || base == 16) && b == 16)
    || (prefix == "0" && base == 0 && b == 8 && rest[0] != 'x' && rest[0] != 'X')
    || (prefix == "" && base == 0 && b == 10 && rest[0] != '0')
    || (prefix == "" && base != 0 && b == base
        && (base == 16 && |rest| > 1 && rest[0] == '0' ==> rest[1] != 'x' && rest[1] != 'X'))
  }

  lemma {:induction false} SkipsSpaces(s: string, p: nat, q: nat)
    requires IsCString(s) && p <= q < |s|
    requires forall i :: p <= i < q ==> IsSpace(s[i])
    requires !IsSpace(s[q])
    ensures SkipSpace(s, p) == q
    decreases q - p
  {
    if p < q {
      SkipsSpaces(s, p + 1, q);
    }
  }

  /** What the parsers accept: white space (blank, tab, newline, carriage
      return, form feed, vertical tab), an optional sign, a prefix if the base
      asks for one, digits in upper or lower case, and then the first character
      that is no digit, where they stop. */
  lemma ReadMeaning(space: string, sign: string, prefix: string, d: string, tail: string, base: int, b: int)
    requires forall c :: c in space ==> c in " \t\n\r\U{0C}\U{0B}"
    requires sign == "" || sign == "+" || sign == "-"
    requires IsCString(tail) && !IsDigit(tail[0], b)
    requires forall i :: 0 <= i < |d| ==> IsDigit(d[i], b)
    requires PrefixFor(prefix, base, b, d + tail)
    requires sign == "" ==> (prefix + d + tail)[0] !in " \t\n\r\U{0C}\U{0B}+-"
    ensures var s := space + sign + prefix + d + tail;
            var r := Read(s, base);
            && IsCString(s)
            && r == Reading(sign == "-", b, |space + sign + prefix|, |space + sign + prefix + d|)
            && (b >= 0 ==> Magnitude(s, r) == ValueOf(d, b))
  {
    hide IsDigit, SkipDigits, SkipSpace, ValueOf, Prefix, PrefixFor, IsSpace, Read;
    var s := space + sign + prefix + d + tail;
    var (p, q) := (|space|, |space + sign|);
    var (start, end) := (q + |prefix|, q + |prefix + d|);
    Pieces(space, sign, prefix, d, tail);
    SpacesAre(space);
    NoSpaceIn(s[p]);
    forall i | 0 <= i < p ensures IsSpace(s[i]) {
      assert IsSpace(space[i]);
    }
    PrefixAt(s, q, prefix, d + tail, base, b);
    forall i | start <= i < end ensures IsDigit(s[i], b) {
      assert s[start..end][i - start] == s[i];
    }
    ReadParts(s, p, q, start, end, base, b);
    if b >= 0 {
      TailValue(s, Reading(sign == "-", b, start, end), d);
    }
  }

  /** Every string has these parts, so that is all the parsers read. */
  lemma PartsOf(s: string, base: int)
    returns (space: string, sign: string, prefix: string, d: string, tail: string, b: int)
    requires IsCString(s)
    ensures s == space + sign + prefix + d + tail
    ensures forall c :: c in space ==> c in " \t\n\r\U{0C}\U{0B}"
    ensures sign == "" || sign == "+" || sign == "-"
    ensures IsCString(tail) && !IsDigit(tail[0], b) && forall i :: 0 <= i < |d| ==> IsDigit(d[i], b)
    ensures PrefixFor(prefix, base, b, d + tail)
    ensures sign == "" ==> (prefix + d + tail)[0] !in " \t\n\r\U{0C}\U{0B}+-"
  {
    hide IsCString, IsDigit, SkipDigits, SkipSpace, IsSpace, Prefix, PrefixFor;
    NotEmpty(s);
    var p := SkipSpace(s, 0);
    var q := if s[p] == '-' || s[p] == '+' then p + 1 else p;
    NulIsPlain(s, p);
    b := Prefix(s, q, base).0;
    var start := Prefix(s, q, base).1;
    var end := SkipDigits(s, start, b);
    PrefixIs(s, q, base);
    Slices(s, p, q, start, end);
    BlankSlice(s, p);
    TailFacts(s, start, end, b);
    SignSlice(s, p, q);
    space, sign, prefix, d, tail := s[..p], s[p..q], s[q..start], s[start..end], s[end..];
  }

  lemma TailFacts(s: string, start: nat, end: nat, b: int)
    requires IsCString(s) && start <= end < |s| && !IsDigit(s[end], b)
    requires forall i :: start <= i < end ==> IsDigit(s[i], b)
    ensures IsCString(s[end..]) && !IsDigit(s[end..][0], b)
    ensures forall i :: 0 <= i < |s[start..end]| ==> IsDigit(s[start..end][i], b)
  {
    hide IsDigit;
  }

  lemma SignSlice(s: string, p: nat, q: nat)
    requires p < |s| && q < |s| && !IsSpace(s[p]) && q == if s[p] == '-' || s[p] == '+' then p + 1 else p
    ensures s[p..q] == "" || s[p..q] == "+" || s[p..q] == "-"
    ensures s[p..q] == "" ==> s[q..][0] !in " \t\n\r\U{0C}\U{0B}+-"
  {
    assert q == p + 1 ==> s[p..q] == [s[p]];
    NoSpaceIn(s[p]);
  }

  lemma NotEmpty(s: string)
    requires IsCString(s)
    ensures s != []
  {
  }

  lemma BlankSlice(s: string, p: nat)
    requires p <= |s| && forall i :: 0 <= i < p ==> IsSpace(s[i])
    ensures forall c :: c in s[..p] ==> c in " \t\n\r\U{0C}\U{0B}"
  {
    forall c | c in s[..p] ensures c in " \t\n\r\U{0C}\U{0B}" {
      var i :| 0 <= i < p && s[i] == c;
      NoSpaceIn(s[i]);
    }
  }

  // A sign is never the last character of a string.
  lemma NulIsPlain(s: string, p: nat)
    requires IsCString(s) && p < |s|
    ensures s[p] == '-' || s[p] == '+' ==> p + 1 < |s|
  {
  }

  lemma Slices(s: string, p: nat, q: nat, start: nat, end: nat)
    requires p <= q <= start <= end <= |s|
    ensures s == s[..p] + s[p..q] + s[q..start] + s[start..end] + s[end..]
    ensures s[start..end] + s[end..] == s[start..] && s[q..start] + s[start..] == s[q..]
    ensures s[q..start] + s[start..end] + s[end..] == s[q..]
  {
  }

  lemma PrefixIs(s: string, q: nat, base: int)
    requires IsCString(s) && q < |s|
    ensures var (b, start) := Prefix(s, q, base);
            q <= start < |s| && PrefixFor(s[q..start], base, b, s[start..])
  {
    var start := Prefix(s, q, base).1;
    assert start == q ==> s[q..start] == "";
    assert start == q + 1 ==> s[q..start] == [s[q]];
    assert start == q + 2 ==> s[q..start] == [s[q], s[q + 1]];
  }

  // Where the parts of a numeral are.
  lemma Pieces(space: string, sign: string, prefix: string, d: string, tail: string)
    requires tail != []
    ensures var s := space + sign + prefix + d + tail;
            var (p, q) := (|space|, |space + sign|);
            var (start, end) := (q + |prefix|, q + |prefix + d|);
            && |s| == end + |tail| && s[|s| - 1] == tail[|tail| - 1]
            && (forall i :: 0 <= i < p ==> s[i] == space[i])
            && s[p] == (if sign == "" then (prefix + d + tail)[0] else sign[0])
            && s[q..] == prefix + (d + tail) && s[start..end] == d && s[end] == tail[0]
  {
  }

  lemma SpacesAre(space: string)
    requires forall c :: c in space ==> c in " \t\n\r\U{0C}\U{0B}"
    ensures forall i :: 0 <= i < |space| ==> IsSpace(space[i])
  {
    forall i | 0 <= i < |space| ensures IsSpace(space[i]) {
      assert space[i] in space;
    }
  }

  lemma NoSpaceIn(c: char)
    ensures IsSpace(c) <==> c in " \t\n\r\U{0C}\U{0B}"
    ensures IsSpace(c) ==> c != '+' && c != '-'
  {
  }

  // Reading follows the parts.
  lemma ReadParts(s: string, p: nat, q: nat, start: nat, end: nat, base: int, b: int)
    requires IsCString(s) && p < |s| && (forall i :: 0 <= i < p ==> IsSpace(s[i])) && !IsSpace(s[p])
    requires q == (if s[p] == '-' || s[p] == '+' then p + 1 else p) && q < |s|
    requires Prefix(s, q, base) == (b, start) && start <= end < |s|
    requires (forall i :: start <= i < end ==> IsDigit(s[i], b)) && !IsDigit(s[end], b)
    ensures Read(s, base) == Reading(s[p] == '-', b, start, end)
  {
    hide IsDigit, SkipDigits, SkipSpace, Prefix, IsSpace;
    SkipsSpaces(s, 0, p);
    SkipAllDigits(s, start, end, b);
  }

  lemma PrefixAt(s: string, q: nat, prefix: string, rest: string, base: int, b: int)
    requires IsCString(s) && q < |s| && s[q..] == prefix + rest && rest != []
    requires PrefixFor(prefix, base, b, rest)
    requires IsCString(rest)
    ensures Prefix(s, q, base) == (b, q + |prefix|)
  {
    forall i | q <= i < |s| ensures s[i] == (prefix + rest)[i - q] {
      assert s[q..][i - q] == s[i];
    }
  }

  // The digits d at the end of a string, before its NUL, have their value.
  lemma TailValue(s: string, r: Reading, d: string)
    requires r.start <= r.end <= |s| && r.base >= 0 && s[r.start..r.end] == d
    requires forall i :: 0 <= i < |d| ==> IsDigit(d[i], r.base)
    ensures forall i :: r.start <= i < r.end ==> IsDigit(s[i], r.base)
    ensures Magnitude(s, r) == ValueOf(d, r.base)
  {
    forall i | r.start <= i < r.end ensures s[i] == d[i - r.start] {
      assert s[r.start..r.end][i - r.start] == s[i];
    }
  }

  /** Reading an optional minus sign and the digits of v in their own base
      gives them back, and stops at the NUL: the only numeral with a leading
      zero is a lone zero, so no prefix is recognised. */
  lemma ReadPrinted(v: nat, base: nat, negative: bool)
    requires IsBase(base)
    ensures var s := Sign(negative) + Digits(v, base) + ['\0'];
            && Read(s, base).end == |s| - 1
            && Read(s, base).negative == negative
            && Magnitude(s, Read(s, base)) == v
  {
    hide Digits, ValueOf, SkipDigits;
    var d := Digits(v, base);
    var (q, s) := (|Sign(negative)|, Sign(negative) + d + ['\0']);
    assert s[q] == d[0] && s[q..|s| - 1] == d;
    assert IsDigit(d[0], base);
    DigitIsPlain(d[0], base);
    LeadingDigit(v, base);
    DigitsRoundTrip(v, base);
    TailValue(s, Reading(negative, base, q, |s| - 1), d);
    ReadFrom(s, base, negative, base, q);
  }

  /** What a "0x" is for: behind it the digits of v in base 16 are read as v,
      whether the caller asks for base 16 or leaves the base open. */
  lemma HexReadBack(v: nat, base: int, negative: bool)
    requires base == 0 || base == 16
    ensures var s := Sign(negative) + "0x" + Digits(v, 16) + ['\0'];
            && Read(s, base).end == |s| - 1
            && Read(s, base).negative == negative
            && Magnitude(s, Read(s, base)) == v
  {
    var d := Digits(v, 16);
    var (q, s) := (|Sign(negative)|, Sign(negative) + "0x" + d + ['\0']);
    hide Digits, ValueOf, IsDigit;
    assert s[q] == '0' && s[q + 1] == 'x' && s[q + 2..|s| - 1] == d;
    DigitsRoundTrip(v, 16);
    TailValue(s, Reading(negative, 16, q + 2, |s| - 1), d);
    ReadFrom(s, base, negative, 16, q + 2);
  }

  /** What a "0" is for: behind it the digits of v in base 8 are read as v if
      the caller leaves the base open. */
  lemma OctalReadBack(v: nat, negative: bool)
    ensures var s := Sign(negative) + "0" + Digits(v, 8) + ['\0'];
            && Read(s, 0).end == |s| - 1
            && Read(s, 0).negative == negative
            && Magnitude(s, Read(s, 0)) == v
  {
    hide Digits, ValueOf, SkipDigits;
    var d := Digits(v, 8);
    var (q, s) := (|Sign(negative)|, Sign(negative) + "0" + d + ['\0']);
    assert s[q] == '0' && s[q + 1] == d[0] && s[q + 1..|s| - 1] == d;
    assert IsDigit(d[0], 8);
    DigitsRoundTrip(v, 8);
    TailValue(s, Reading(negative, 8, q + 1, |s| - 1), d);
    ReadFrom(s, 0, negative, 8, q + 1);
  }

  /** Without a prefix an open base is 10. Zero itself is taken for the octal
      prefix, with no digit behind it, and still read as 0. */
  lemma DecimalReadBack(v: nat, negative: bool)
    ensures var s := Sign(negative) + Digits(v, 10) + ['\0'];
            && Read(s, 0).end == |s| - 1
            && Read(s, 0).negative == negative
            && Magnitude(s, Read(s, 0)) == v
  {
    hide Digits, SkipDigits;
    var d := Digits(v, 10);
    var (q, s) := (|Sign(negative)|, Sign(negative) + d + ['\0']);
    assert s[q] == d[0] && s[q..|s| - 1] == d;
    assert IsDigit(d[0], 10);
    DigitIsPlain(d[0], 10);
    LeadingDigit(v, 10);
    if v == 0 {
      assert s[q + 1] == '\0' && s[q + 1..|s| - 1] == [];
      TailValue(s, Reading(negative, 8, q + 1, |s| - 1), []);
      ReadFrom(s, 0, negative, 8, q + 1);
    } else {
      DigitsRoundTrip(v, 10);
      TailValue(s, Reading(negative, 10, q, |s| - 1), d);
      ReadFrom(s, 0, negative, 10, q);
    }
  }

  // ------------------------------------------------------------ printing

  function Reversed(s: string): (r: string)
    ensures |r| == |s|
  {
    if s == [] then [] else [s[|s| - 1]] + Reversed(s[..|s| - 1])
  }

  lemma {:induction false} ReversedAt(s: string, k: nat)
    requires k < |s|
    ensures Reversed(s)[k] == s[|s| - 1 - k]
  {
    if k > 0 {
      ReversedAt(s[..|s| - 1], k - 1);
    }
  }

  lemma ReversedAppend(s: string, c: char)
    ensures Reversed(s + [c]) == [c] + Reversed(s)
  {
    assert (s + [c])[..|s|] == s;
  }

  // What is still to be printed of a number that is being divided down.
  function Ahead(num: nat, base: nat): string
    requires IsBase(base)
  {
    if num == 0 then [] else Digits(num, base)
  }

  lemma AheadStep(num: nat, base: nat)
    requires IsBase(base)
    ensures num % base < base
    ensures Digits(num, base) == Ahead(num / base, base) + [DigitChar(num % base)]
    ensures num / base > 0 ==> num / base < num
  {
    hide DigitChar;
    if num >= base {
      QuotientSmaller(num, base);
    } else {
      SmallQuotient(num, base);
    }
  }

  lemma BackwardStep(text: string, num: nat, base: nat, written: string)
    requires IsBase(base) && text == Digits(num, base) + Reversed(written)
    ensures num % base < base
    ensures text == Ahead(num / base, base) + Reversed(written + [DigitChar(num % base)])
    ensures num / base > 0 ==> num / base < num
  {
    hide Digits, Reversed, DigitChar, Ahead;
    AheadStep(num, base);
    ReversedAppend(written, DigitChar(num % base));
  }

  lemma AheadIs(num: nat, base: nat)
    requires IsBase(base)
    ensures Ahead(num, base) == if num == 0 then [] else Digits(num, base)
  {
  }

  lemma SmallQuotient(num: nat, base: nat)
    requires num < base
    ensures num / base == 0 && num % base == num
  {
  }

  // One digit: the character for num % base, and num / base.
  method SplitDigit(num: nat, base: nat) returns (c: char, rest: nat)
    requires IsBase(base)
    ensures num % base < base && c == DigitChar(num % base) && rest == num / base
  {
    var digit := num % base;
    c := if digit < 10 then '0' + digit as char else 'a' + (digit - 10) as char;
    rest := num / base;
  }

  /** The digit loop of itoa and emit_uint: the digits of value from buf[start]
      on, least significant first. */
  method BackwardDigits(buf: array<char>, start: nat, value: Word, base: int) returns (ptr: nat)
    requires IsBase(base) && start + |Digits(value, base)| <= buf.Length
    modifies buf
    ensures ptr == start + |Digits(value, base)|
    ensures Reversed(buf[start..ptr]) == Digits(value, base)
    ensures buf[..start] == old(buf[..start]) && buf[ptr..] == old(buf[ptr..])
  {
    hide Digits, Reversed, DigitChar, Ahead;
    ghost var text := Digits(value, base);
    var num: nat := value;
    ptr := start;
    ReversedNone();
    while true
      invariant start <= ptr < start + |text|
      invariant text == Digits(num, base) + Reversed(buf[start..ptr])
      invariant buf[..start] == old(buf[..start]) && buf[ptr..] == old(buf[ptr..])
      decreases num
    {
      ghost var was := buf[..];
      BackwardStep(text, num, base, buf[start..ptr]);
      var c, rest := SplitDigit(num, base);
      buf[ptr] := c;
      assert buf[start..ptr + 1] == was[start..ptr] + [c];
      assert buf[ptr + 1..] == was[ptr..][1..] && buf[..start] == was[..start];
      ptr := ptr + 1;
      num := rest;
      AheadIs(num, base);
      if num == 0 {
        break;
      }
    }
  }

  lemma ReversedNone()
    ensures Reversed([]) == []
  {
  }

  // s is was with its stretch lo..hi reversed, except between start and its
  // mirror image, where it is still was.
  ghost predicate PartlyReversed(s: string, was: string, lo: nat, hi: nat, start: int) {
    && |s| == |was| && lo <= start && lo <= hi <= |s|
    && (forall i :: 0 <= i < |s| && (i < lo || hi <= i || start <= i < lo + hi - start) ==> s[i] == was[i])
    && (forall i :: lo <= i < hi && (i < start || lo + hi - start <= i) ==> s[i] == was[lo + hi - 1 - i])
  }

  lemma SwapStep(s: string, was: string, lo: nat, hi: nat, start: int)
    requires PartlyReversed(s, was, lo, hi, start) && start < lo + hi - 1 - start
    ensures var end := lo + hi - 1 - start;
            PartlyReversed(s[start := s[end]][end := s[start]], was, lo, hi, start + 1)
  {
  }

  lemma ReversalDone(s: string, was: string, lo: nat, hi: nat, start: int)
    requires PartlyReversed(s, was, lo, hi, start) && start >= lo + hi - 1 - start
    ensures s[lo..hi] == Reversed(was[lo..hi]) && s[..lo] == was[..lo] && s[hi..] == was[hi..]
  {
    hide Reversed;
    IsReversed(s[lo..hi], was[lo..hi]);
  }

  /** The reversal at the end of itoa, in place. */
  method ReverseInPlace(a: array<char>, lo: nat, hi: nat)
    requires lo <= hi <= a.Length
    modifies a
    ensures a[lo..hi] == Reversed(old(a[lo..hi]))
    ensures a[..lo] == old(a[..lo]) && a[hi..] == old(a[hi..])
  {
    hide Reversed;
    ghost var was := a[..];
    var (start, end) := (lo, hi as int - 1);
    while start < end
      invariant end == lo + hi - 1 - start && PartlyReversed(a[..], was, lo, hi, start)
    {
      SwapStep(a[..], was, lo, hi, start);
      ghost var s := a[..];
      var temp := a[start];
      a[start] := a[end];
      a[end] := temp;
      assert a[..] == s[start := s[end]][end := s[start]];
      start, end := start + 1, end - 1;
    }
    ReversalDone(a[..], was, lo, hi, start);
    SliceOf(a[..], lo, hi);
    SliceOf(was, lo, hi);
  }

  lemma SliceOf(s: string, lo: nat, hi: nat)
    requires lo <= hi <= |s|
    ensures s[..hi][lo..] == s[lo..hi]
  {
  }

  lemma IsReversed(r: string, s: string)
    requires |r| == |s| && forall k :: 0 <= k < |s| ==> r[k] == s[|s| - 1 - k]
    ensures r == Reversed(s)
  {
    forall k: nat | k < |s| ensures r[k] == Reversed(s)[k] {
      ReversedAt(s, k);
    }
  }

  lemma SmallMod(n: nat)
    requires n < TWO64
    ensures n % TWO64 == n
  {
  }

  // (unsigned int)value
  function AsUnsigned(value: Int32): (u: nat)
    ensures u < 0x1_0000_0000
    ensures u == if value < 0 then 0x1_0000_0000 + value as int else value
  {
    value as int % 0x1_0000_0000
  }

  // -(unsigned int)value
  function NegatedUnsigned(value: Int32): (u: nat)
    ensures u < 0x1_0000_0000
    ensures value < 0 ==> u == -(value as int)
  {
    (0x1_0000_0000 - AsUnsigned(value)) % 0x1_0000_0000
  }

  /** The text itoa produces: signed only in base 10, otherwise the digits of
      the value as an unsigned 32-bit number. */
  function ItoaText(value: Int32, base: int): string {
    if !IsBase(base) then []
    else if base == 10 then IntText(value, 10)
    else Digits(AsUnsigned(value), base)
  }

  /** itoa writes its text and a NUL. */
  method Itoa(value: Int32, str: array<char>, base: int)
    requires |ItoaText(value, base)| < str.Length
    modifies str
    ensures str[..|ItoaText(value, base)| + 1] == ItoaText(value, base) + ['\0']
    ensures str[|ItoaText(value, base)| + 1..] == old(str[|ItoaText(value, base)| + 1..])
  {
    if base < 2 || base > 36 {
      str[0] := '\0';
      return;
    }
    if base == 10 && value < 0 {
      str[0] := '-';
      assert ItoaText(value, base) == ['-'] + Digits(NegatedUnsigned(value), 10);
      assert str[..1] == ['-'];
      PrintAt(str, 1, NegatedUnsigned(value), base);
    } else {
      assert ItoaText(value, base) == str[..0] + Digits(AsUnsigned(value), base);
      PrintAt(str, 0, AsUnsigned(value), base);
    }
  }

  // The digits of num and a NUL from str[start] on.
  method PrintAt(str: array<char>, start: nat, num: Word, base: int)
    requires IsBase(base) && start + |Digits(num, base)| < str.Length
    modifies str
    ensures str[..start + |Digits(num, base)| + 1] == old(str[..start]) + Digits(num, base) + ['\0']
    ensures str[start + |Digits(num, base)| + 1..] == old(str[start + |Digits(num, base)| + 1..])
  {
    hide Digits, Reversed;
    ghost var d := Digits(num, base);
    ghost var was := str[..];
    var ptr := BackwardDigits(str, start, num, base);
    ghost var mid := str[..];
    assert mid[..start] == was[..start] && mid[ptr..] == was[ptr..];
    str[ptr] := '\0';
    assert str[start..ptr] == mid[start..ptr];
    ReverseInPlace(str, start, ptr);
    assert str[start..ptr] == d;
    assert str[ptr..][1..] == str[ptr + 1..] && mid[ptr..][1..] == mid[ptr + 1..] && was[ptr..][1..] == was[ptr + 1..];
    assert str[..ptr + 1] == str[..start] + str[start..ptr] + [str[ptr]];
  }

  /** Which bases itoa prints in, and which of them are signed. */
  lemma ItoaTextMeaning(value: Int32, base: int)
    ensures base < 2 || base > 36 ==> ItoaText(value, base) == ""
    ensures 2 <= base <= 36 && base != 10 ==> ItoaText(value, base) == Digits(value as int % 0x1_0000_0000, base)
    ensures value >= 0 ==> ItoaText(value, 10) == Digits(value as int, 10)
    ensures value < 0 ==> ItoaText(value, 10) == "-" + Digits(-(value as int), 10)
  {
  }

  /** strtoul gives back what itoa printed, modulo 2^32, in every base but 10. */
  lemma ItoaReadBack(value: Int32, base: int)
    requires IsBase(base) && base != 10
    ensures var s := ItoaText(value, base) + ['\0'];
            && Read(s, base).end == |s| - 1
            && Signed(Read(s, base).negative, Magnitude(s, Read(s, base))) % TWO64 == AsUnsigned(value)
  {
    var n := AsUnsigned(value);
    ReadPrinted(n, base, false);
    assert [] + Digits(n, base) + ['\0'] == Digits(n, base) + ['\0'];
    SmallMod(n);
  }

  /** atoi gives back what itoa printed in base 10, except for the smallest int. */
  lemma ItoaAtoi(value: Int32)
    requires value > -0x8000_0000
    ensures var s := ItoaText(value, 10) + ['\0'];
            && AtoiMagnitude(s) < 0x8000_0000
            && Signed(Read(s, 10).negative, AtoiMagnitude(s)) == value
  {
    IntReadBack(value);
  }

  /** Reading back a signed number printed in base 10. */
  lemma IntReadBack(value: int)
    ensures var s := IntText(value, 10) + ['\0'];
            && Read(s, 10).end == |s| - 1
            && Signed(Read(s, 10).negative, Magnitude(s, Read(s, 10))) == value
            && Magnitude(s, Read(s, 10)) == if value < 0 then -value else value
  {
    var n := if value < 0 then -value else value;
    ReadPrinted(n, 10, value < 0);
    assert [] + Digits(n, 10) + ['\0'] == Digits(n, 10) + ['\0'];
    assert ['-'] + Digits(n, 10) + ['\0'] == (['-'] + Digits(n, 10)) + ['\0'];
  }
}
