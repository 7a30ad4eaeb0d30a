/** Formatted printing: the emitters of stdio.c and vsprintf, against a
    recursive meaning of format strings. */
module Stdio {
  import opened Machine
  import opened Numerals
  import opened Stdlib

  /** The buffer with `text` stored from pos on, everything else unchanged. */
  function Overwrite(was: string, pos: nat, text: string): string
    requires pos + |text| <= |was|
  {
    was[..pos] + text + was[pos + |text|..]
  }

  lemma OverwriteTwice(was: string, pos: nat, a: string, b: string)
    requires pos + |a| + |b| <= |was|
    ensures Overwrite(Overwrite(was, pos, a), pos + |a|, b) == Overwrite(was, pos, a + b)
  {
    var mid := Overwrite(was, pos, a);
    assert mid[..pos + |a|] == was[..pos] + a;
    assert mid[pos + |a| + |b|..] == was[pos + |a| + |b|..];
    assert was[..pos] + a + b == was[..pos] + (a + b);
  }

  lemma OverwriteNothing(was: string, pos: nat)
    requires pos <= |was|
    ensures Overwrite(was, pos, []) == was
  {
  }

  // The output loop of emit_uint: the first n characters of tmp, backwards.
  method EmitBackwards(out: array<char>, pos: nat, tmp: array<char>, n: nat)
    requires n <= tmp.Length && pos + n <= out.Length && tmp != out
    modifies out
    ensures out[..] == Overwrite(old(out[..]), pos, Reversed(tmp[..n]))
  {
    hide Reversed, Overwrite;
    ghost var (was, text) := (out[..], Reversed(tmp[..n]));
    OverwriteNothing(was, pos);
    var i, cursor := n, pos;
    while i > 0
      invariant 0 <= i <= n && cursor == pos + n - i && tmp[..n] == old(tmp[..n])
      invariant out[..] == Overwrite(was, pos, text[..n - i])
    {
      i := i - 1;
      ReversedAt(tmp[..n], n - 1 - i);
      assert text[..n - 1 - i] + [text[n - 1 - i]] == text[..n - i];
      OverwriteTwice(was, pos, text[..n - 1 - i], [text[n - 1 - i]]);
      EmitChar(out, cursor, tmp[i]);
      cursor := cursor + 1;
    }
    assert text[..n] == text;
  }

  // *(*out)++ = c
  method EmitChar(out: array<char>, pos: nat, c: char)
    requires pos < out.Length
    modifies out
    ensures out[..] == Overwrite(old(out[..]), pos, [c])
  {
    out[pos] := c;
  }

  /** emit_uint: the digits of value at the output cursor. */
  method EmitUint(out: array<char>, pos: nat, value: Word, base: int) returns (n: nat)
    requires IsBase(base) && pos + |Digits(value, base)| <= out.Length
    modifies out
    ensures n == |Digits(value, base)| && out[..] == Overwrite(old(out[..]), pos, Digits(value, base))
  {
    WordDigits(value, base);
    var tmp := new char[65];
    n := BackwardDigits(tmp, 0, value, base);
    assert tmp[0..n] == tmp[..n];
    EmitBackwards(out, pos, tmp, n);
  }

  /** emit_int: a minus sign and the absolute value, the smallest number
      included. */
  method EmitInt(out: array<char>, pos: nat, value: Int64, base: int) returns (n: nat)
    requires IsBase(base) && pos + |IntText(value, base)| <= out.Length
    modifies out
    ensures n == |IntText(value, base)| && out[..] == Overwrite(old(out[..]), pos, IntText(value, base))
  {
    hide Digits, Overwrite;
    if value < 0 {
      OverwriteTwice(out[..], pos, ['-'], Digits(Negated(value), base));
      EmitChar(out, pos, '-');
      n := EmitUint(out, pos + 1, Negated(value), base);
      n := 1 + n;
    } else {
      n := EmitUint(out, pos, value, base);
    }
  }

  // 0ULL - (unsigned long long)value, for a negative value
  function Negated(value: Int64): (u: Word)
    requires value < 0
    ensures u == -(value as int)
  {
    (0 - value as int % TWO64) % TWO64
  }

  /** emit_str. */
  method EmitStr(out: array<char>, pos: nat, s: string) returns (n: nat)
    requires pos + |s| <= out.Length
    modifies out
    ensures n == |s| && out[..] == Overwrite(old(out[..]), pos, s)
  {
    ghost var was := out[..];
    OverwriteNothing(was, pos);
    n := 0;
    while n < |s|
      invariant 0 <= n <= |s|
      invariant out[..] == Overwrite(was, pos, s[..n])
    {
      assert s[..n] + [s[n]] == s[..n + 1];
      OverwriteTwice(was, pos, s[..n], [s[n]]);
      EmitChar(out, pos + n, s[n]);
      n := n + 1;
    }
    assert s[..n] == s;
  }

  // ------------------------------------------------------------ formats

  /** One variadic argument, at the width it is read with. */
  datatype Arg =
    | AInt(i: Int32)       // int, for %d and %c
    | AUInt(u: nat)        // unsigned int, for %u and %x
    | ALong(l: Int64)      // long and long long, for %ld and %Ld
    | AULong(w: Word)      // unsigned long and unsigned long long
    | APtr(p: Word)        // void*
    | AStr(s: string)      // const char*, without its NUL

  // The type of argument a conversion takes.
  datatype ArgType = TInt | TUInt | TLong | TULong | TPtr | TStr | TNone

  /** A conversion: what argument it takes, and how many characters of the
      format it is, the '%' not counted. */
  datatype Conv = Conv(kind: Kind, length: nat)

  datatype Kind =
    | KInt | KUInt | KHex | KChar | KStr | KPtr
    | KLong | KULong | KULongHex
    | KText(text: string)   // takes no argument

  function TypeOf(k: Kind): ArgType {
    match k
    case KInt => TInt
    case KChar => TInt
    case KUInt => TUInt
    case KHex => TUInt
    case KStr => TStr
    case KPtr => TPtr
    case KLong => TLong
    case KULong => TULong
    case KULongHex => TULong
    case KText(_) => TNone
  }

  // The text after "%l" or "%L".
  function LongConv(rest: string, bad: string): Conv {
    if rest == [] then Conv(KText(bad), 1)
    else if rest[0] == 'd' then Conv(KLong, 2)
    else if rest[0] == 'u' then Conv(KULong, 2)
    else if rest[0] == 'x' then Conv(KULongHex, 2)
    else Conv(KText(bad), 2)
  }

  /** The conversion that starts after a '%'. */
  function ConvOf(rest: string): (c: Conv)
    ensures c.length <= |rest|
  {
    if rest == [] then Conv(KText([]), 0)
    else match rest[0]
      case 'd' => Conv(KInt, 1)
      case 'u' => Conv(KUInt, 1)
      case 'x' => Conv(KHex, 1)
      case 'c' => Conv(KChar, 1)
      case 's' => Conv(KStr, 1)
      case 'p' => Conv(KPtr, 1)
      case 'l' => LongConv(rest[1..], "(bad %l)")
      case 'L' => LongConv(rest[1..], "(bad %L)")
      case c => Conv(KText([c]), 1)   // '%' and unknown specifiers are echoed
  }

  predicate Fits(a: Arg, k: Kind) {
    match TypeOf(k)
    case TInt => a.AInt?
    case TUInt => a.AUInt? && a.u < 0x1_0000_0000
    case TLong => a.ALong?
    case TULong => a.AULong?
    case TPtr => a.APtr?
    case TStr => a.AStr? && '\0' !in a.s
    case TNone => true
  }

  // (char) of an int
  function AsChar(i: Int32): char { (i as int % 256) as char }

  function ConvText(k: Kind, a: Arg): string
    requires Fits(a, k)
  {
    match k
    case KInt => IntText(a.i, 10)
    case KUInt => Digits(a.u, 10)
    case KHex => Digits(a.u, 16)
    case KChar => [AsChar(a.i)]
    case KStr => a.s
    case KPtr => "0x" + Digits(a.p, 16)
    case KLong => IntText(a.l, 10)
    case KULong => Digits(a.w, 10)
    case KULongHex => Digits(a.w, 16)
    case KText(t) => t
  }

  /** The arguments are the ones the format asks for. */
  predicate Matches(format: string, args: seq<Arg>)
    decreases |format|
  {
    if format == [] then true
    else if format[0] != '%' then Matches(format[1..], args)
    else
      var c := ConvOf(format[1..]);
      if TypeOf(c.kind) == TNone then Matches(format[1 + c.length..], args)
      else args != [] && Fits(args[0], c.kind) && Matches(format[1 + c.length..], args[1..])
  }

  /** The text a format stands for. */
  function Render(format: string, args: seq<Arg>): string
    requires Matches(format, args)
    decreases |format|
  {
    if format == [] then []
    else if format[0] != '%' then [format[0]] + Render(format[1..], args)
    else
      var c := ConvOf(format[1..]);
      if TypeOf(c.kind) == TNone then c.kind.text + Render(format[1 + c.length..], args)
      else ConvText(c.kind, args[0]) + Render(format[1 + c.length..], args[1..])
  }

  /** How many arguments the format takes. */
  function ArgCount(format: string): nat
    decreases |format|
  {
    if format == [] then 0
    else if format[0] != '%' then ArgCount(format[1..])
    else
      var c := ConvOf(format[1..]);
      (if TypeOf(c.kind) == TNone then 0 else 1) + ArgCount(format[1 + c.length..])
  }

  // ------------------------------------------------------------ vsprintf

  // The format without its NUL.
  function Content(format: string): string
    requires IsCString(format)
  {
    format[..|format| - 1]
  }

  ghost function TextOf(c: Conv, args: seq<Arg>): string
    requires TypeOf(c.kind) == TNone || (args != [] && Fits(args[0], c.kind))
  {
    if TypeOf(c.kind) == TNone then c.kind.text else ConvText(c.kind, args[0])
  }

  // The arguments left after a conversion.
  function ArgsAfter(c: Conv, args: seq<Arg>): seq<Arg>
    requires TypeOf(c.kind) == TNone || args != []
  {
    if TypeOf(c.kind) == TNone then args else args[1..]
  }

  // va_arg: the next argument, which is then used up
  method NextArg(args: seq<Arg>) returns (arg: Arg, rest: seq<Arg>)
    requires args != []
    ensures args == [arg] + rest
  {
    arg, rest := args[0], args[1..];
  }

  // The cases 'l' and 'L' of the switch; next is the character after them.
  method EmitLong(out: array<char>, pos: nat, next: char, bad: string, args: seq<Arg>, ghost tail: string)
    returns (n: nat, rest: seq<Arg>)
    requires next == if tail == [] then '\0' else tail[0]
    requires TypeOf(LongConv(tail, bad).kind) == TNone || (args != [] && Fits(args[0], LongConv(tail, bad).kind))
    requires pos + |TextOf(LongConv(tail, bad), args)| <= out.Length
    modifies out
    ensures n == |TextOf(LongConv(tail, bad), args)|
    ensures out[..] == Overwrite(old(out[..]), pos, TextOf(LongConv(tail, bad), args))
    ensures rest == ArgsAfter(LongConv(tail, bad), args)
  {
    rest := args;
    var arg;
    if next == 'd' {
      arg, rest := NextArg(rest);
      n := EmitInt(out, pos, arg.l, 10);
    } else if next == 'u' {
      arg, rest := NextArg(rest);
      n := EmitUint(out, pos, arg.w, 10);
    } else if next == 'x' {
      arg, rest := NextArg(rest);
      n := EmitUint(out, pos, arg.w, 16);
    } else {
      n := EmitStr(out, pos, bad);
    }
  }

  /** One pass of the switch in vsprintf: format[f] follows a '%'. Emits the
      conversion's text, moves past it but never past the NUL, and uses up
      exactly the argument it takes. */
  method EmitConv(out: array<char>, pos: nat, format: string, f: nat, args: seq<Arg>)
    returns (n: nat, g: nat, rest: seq<Arg>)
    requires IsCString(format) && '\0' !in Content(format) && f < |format|
    requires var c := ConvOf(Content(format)[f..]);
             && (TypeOf(c.kind) == TNone || (args != [] && Fits(args[0], c.kind)))
             && pos + |TextOf(c, args)| <= out.Length
    modifies out
    ensures var c := ConvOf(Content(format)[f..]);
            && g == f + c.length && g < |format|
            && n == |TextOf(c, args)|
            && out[..] == Overwrite(old(out[..]), pos, TextOf(c, args))
            && rest == ArgsAfter(c, args)
  {
    g, rest := f, args;
    ghost var tail := Content(format)[f..];
    RestChar(format, f);
    var arg;
    match format[g] {
      case 'd' =>
        arg, rest := NextArg(rest);
        n := EmitInt(out, pos, arg.i as int, 10);
      case 'u' =>
        arg, rest := NextArg(rest);
        n := EmitUint(out, pos, arg.u, 10);
      case 'x' =>
        arg, rest := NextArg(rest);
        n := EmitUint(out, pos, arg.u, 16);
      case 'c' =>
        arg, rest := NextArg(rest);
        EmitChar(out, pos, AsChar(arg.i));
        n := 1;
      case 's' =>
        arg, rest := NextArg(rest);
        n := EmitStr(out, pos, arg.s);
      case 'p' =>
        arg, rest := NextArg(rest);
        n := EmitPtr(out, pos, arg.p);
      case 'l' =>
        g := g + 1;
        RestChar(format, g);
        n, rest := EmitLong(out, pos, format[g], "(bad %l)", rest, tail[1..]);
      case 'L' =>
        g := g + 1;
        RestChar(format, g);
        n, rest := EmitLong(out, pos, format[g], "(bad %L)", rest, tail[1..]);
      case c =>
        n := 0;
        OverwriteNothing(out[..], pos);
        if c != '\0' {
          EmitChar(out, pos, c);
          n := 1;
        }
    }
    if format[g] != '\0' {
      g := g + 1;
    }
  }

  // format[f] is the head of the rest of the content, or the NUL.
  lemma RestChar(format: string, f: nat)
    requires IsCString(format) && '\0' !in Content(format) && f < |format|
    ensures var rest := Content(format)[f..];
            && format[f] == (if rest == [] then '\0' else rest[0])
            && (format[f] == '\0' <==> rest == [])
            && (rest != [] ==> f + 1 < |format| && rest[1..] == Content(format)[f + 1..])
  {
    var rest := Content(format)[f..];
    if rest != [] {
      assert rest[0] == Content(format)[f];
      assert rest[0] in Content(format);
    }
  }

  method EmitPtr(out: array<char>, pos: nat, p: Word) returns (n: nat)
    requires pos + 2 + |Digits(p, 16)| <= out.Length
    modifies out
    ensures n == |"0x" + Digits(p, 16)| && out[..] == Overwrite(old(out[..]), pos, "0x" + Digits(p, 16))
  {
    ghost var was := out[..];
    OverwriteTwice(was, pos, "0", "x");
    OverwriteTwice(was, pos, "0x", Digits(p, 16));
    EmitChar(out, pos, '0');
    EmitChar(out, pos + 1, 'x');
    assert "0" + "x" == "0x";
    n := EmitUint(out, pos + 2, p, 16);
    n := 2 + n;
  }

  /** vsprintf writes exactly what the format stands for and one NUL, and
      returns the number of characters before it. */
  method Vsprintf(buffer: array<char>, format: string, args: seq<Arg>) returns (count: nat)
    requires IsCString(format) && '\0' !in Content(format) && Matches(Content(format), args)
    requires |Render(Content(format), args)| < buffer.Length
    modifies buffer
    ensures count == |Render(Content(format), args)|
    ensures buffer[..] == Overwrite(old(buffer[..]), 0, Render(Content(format), args) + ['\0'])
    ensures buffer[..count] == Render(Content(format), args) && buffer[count] == '\0'
    ensures buffer[count + 1..] == old(buffer[count + 1..])
  {
    hide Render, Matches, Overwrite;
    ghost var (was, text, done) := (buffer[..], Render(Content(format), args), []);
    OverwriteNothing(was, 0);
    var f, rest := 0, args;
    count := 0;
    assert Content(format)[0..] == Content(format);
    while format[f] != '\0'
      invariant f < |format| && Matches(Content(format)[f..], rest)
      invariant text == done + Render(Content(format)[f..], rest) && count == |done|
      invariant buffer[..] == Overwrite(was, 0, done)
      decreases |format| - f
    {
      ghost var piece;
      f, count, rest, piece := PrintNext(buffer, count, format, f, rest, was, done);
      done := done + piece;
    }
    RestChar(format, f);
    RenderNothing(rest);
    assert done == text;
    OverwriteTwice(was, 0, text, ['\0']);
    EmitChar(buffer, count, '\0');
    OverwriteParts(was, text);
  }

  lemma OverwriteParts(was: string, text: string)
    requires |text| < |was|
    ensures var b := Overwrite(was, 0, text + ['\0']);
            && |b| == |was| && b[..|text|] == text && b[|text|] == '\0' && b[|text| + 1..] == was[|text| + 1..]
  {
  }

  lemma RenderNothing(args: seq<Arg>)
    ensures Matches([], args) && Render([], args) == []
  {
  }

  // One iteration of the loop of vsprintf: it prints the next piece.
  method PrintNext(buffer: array<char>, count: nat, format: string, f: nat, args: seq<Arg>,
                   ghost was: string, ghost done: string)
    returns (g: nat, count': nat, rest: seq<Arg>, ghost piece: string)
    requires IsCString(format) && '\0' !in Content(format) && f < |format| && format[f] != '\0'
    requires Matches(Content(format)[f..], args)
    requires |was| == buffer.Length && count == |done|
    requires |done| + |Render(Content(format)[f..], args)| < |was| && buffer[..] == Overwrite(was, 0, done)
    modifies buffer
    ensures f < g < |format| && Matches(Content(format)[g..], rest)
    ensures Render(Content(format)[f..], args) == piece + Render(Content(format)[g..], rest)
    ensures count' == |done + piece| <= |was| && buffer[..] == Overwrite(was, 0, done + piece)
  {
    RestChar(format, f);
    ghost var c0 := Content(format);
    if format[f] != '%' {
      piece := [format[f]];
      OverwriteTwice(was, 0, done, piece);
      EmitChar(buffer, count, format[f]);
      g, count', rest := f + 1, count + 1, args;
    } else {
      ghost var c := ConvOf(c0[f + 1..]);
      piece := TextOf(c, args);
      OverwriteTwice(was, 0, done, piece);
      var n;
      n, g, rest := EmitConv(buffer, count, format, f + 1, args);
      assert c0[f..][1 + c.length..] == c0[g..];
      count' := count + n;
    }
  }

  // ------------------------------------------------------------ laws

  // Every conversion of the format is all there.
  predicate Complete(format: string)
    decreases |format|
  {
    if format == [] then true
    else if format[0] != '%' then Complete(format[1..])
    else
      var rest := format[1..];
      && rest != [] && (rest[0] == 'l' || rest[0] == 'L' ==> |rest| > 1)
      && Complete(format[1 + ConvOf(rest).length..])
  }

  lemma ConvIsLocal(rest: string, more: string)
    requires rest != [] && (rest[0] == 'l' || rest[0] == 'L' ==> |rest| > 1)
    ensures ConvOf(rest + more) == ConvOf(rest)
  {
    assert (rest + more)[0] == rest[0];
    if |rest| > 1 {
      assert (rest + more)[1..] == rest[1..] + more;
    }
  }

  /** Printing a complete format and then another one is printing their
      concatenation with both lists of arguments. */
  lemma {:induction false} RenderConcat(f: string, a: seq<Arg>, g: string, b: seq<Arg>)
    requires Complete(f) && Matches(f, a) && Matches(g, b) && |a| == ArgCount(f)
    ensures Matches(f + g, a + b) && Render(f + g, a + b) == Render(f, a) + Render(g, b)
    decreases |f|
  {
    hide ConvOf, ConvText, TypeOf, Fits;
    if f == [] {
      assert f + g == g && a + b == b;
    } else if f[0] != '%' {
      assert (f + g)[1..] == f[1..] + g;
      RenderConcat(f[1..], a, g, b);
    } else {
      var c := ConvOf(f[1..]);
      assert (f + g)[1..] == f[1..] + g;
      ConvIsLocal(f[1..], g);
      assert (f + g)[1 + c.length..] == f[1 + c.length..] + g;
      if TypeOf(c.kind) == TNone {
        RenderConcat(f[1 + c.length..], a, g, b);
      } else {
        assert (a + b)[1..] == a[1..] + b;
        RenderConcat(f[1 + c.length..], a[1..], g, b);
      }
    }
  }

  // Doubles every '%'.
  function Escape(t: string): string {
    if t == [] then [] else (if t[0] == '%' then "%%" else [t[0]]) + Escape(t[1..])
  }

  /** Any text prints as itself once its percent signs are doubled. */
  lemma {:induction false} EscapePrintsItself(t: string)
    ensures Matches(Escape(t), []) && Render(Escape(t), []) == t
  {
    if t != [] {
      EscapePrintsItself(t[1..]);
      var e := Escape(t);
      if t[0] == '%' {
        assert e[1..] == ['%'] + Escape(t[1..]);
        assert e[2..] == Escape(t[1..]);
      } else {
        assert e[1..] == Escape(t[1..]);
      }
    }
  }

  // ------------------------------------------------------------ conversions

  // A format that is one conversion prints that conversion's text.
  lemma OneConversion(format: string, k: Kind, arg: Arg)
    requires |format| > 1 && format[0] == '%' && ConvOf(format[1..]) == Conv(k, |format| - 1)
    requires TypeOf(k) != TNone && Fits(arg, k)
    ensures Matches(format, [arg]) && Render(format, [arg]) == ConvText(k, arg)
  {
    assert format[1 + (|format| - 1)..] == [];
    hide ConvOf, ConvText, Fits, TypeOf;
    assert Render(format, [arg]) == ConvText(k, arg) + [];
  }

  lemma OneText(format: string, k: Kind)
    requires |format| > 0 && format[0] == '%' && ConvOf(format[1..]) == Conv(k, |format| - 1)
    requires TypeOf(k) == TNone
    ensures Matches(format, []) && Render(format, []) == k.text
  {
    assert format[1 + (|format| - 1)..] == [];
    hide ConvOf, ConvText, Fits;
    assert Render(format, []) == k.text + [];
  }

  /** "%d": the decimal text of the int, which reads back as it. */
  lemma PrintsInt(i: Int32)
    ensures Matches("%d", [AInt(i)])
    ensures Render("%d", [AInt(i)]) == if i < 0 then "-" + Digits(-(i as int), 10) else Digits(i as int, 10)
    ensures var s := Render("%d", [AInt(i)]) + ['\0'];
            Read(s, 10).end == |s| - 1 && Signed(Read(s, 10).negative, Magnitude(s, Read(s, 10))) == i
  {
    hide Read, Magnitude, Render, Matches, Digits;
    assert "%d"[1..] == "d";
    OneConversion("%d", KInt, AInt(i));
    IntReadBack(i);
  }

  /** "%u" and "%x": the digits of the unsigned int in base 10 and 16. */
  lemma PrintsUnsigned(u: nat)
    requires u < 0x1_0000_0000
    ensures Matches("%u", [AUInt(u)]) && Render("%u", [AUInt(u)]) == Digits(u, 10)
    ensures Matches("%x", [AUInt(u)]) && Render("%x", [AUInt(u)]) == Digits(u, 16)
    ensures ReadsBack(Render("%u", [AUInt(u)]), 10, u) && ReadsBack(Render("%x", [AUInt(u)]), 16, u)
  {
    hide ReadsBack, Render, Matches, Digits;
    assert "%u"[1..] == "u" && "%x"[1..] == "x";
    OneConversion("%u", KUInt, AUInt(u));
    OneConversion("%x", KHex, AUInt(u));
    DigitsReadBack(u, 10);
    DigitsReadBack(u, 16);
  }

  // The text with its NUL is read, to the NUL, as the number v.
  ghost predicate ReadsBack(text: string, base: int, v: nat) {
    var s := text + ['\0'];
    && Read(s, base).end == |s| - 1
    && !Read(s, base).negative && Magnitude(s, Read(s, base)) == v
  }

  lemma DigitsReadBack(v: nat, base: nat)
    requires IsBase(base)
    ensures ReadsBack(Digits(v, base), base, v)
  {
    hide Read, Magnitude, Digits;
    ReadPrinted(v, base, false);
    assert "" + Digits(v, base) + ['\0'] == Digits(v, base) + ['\0'];
  }

  /** "%lu", "%Lu", "%lx" and "%Lx": the digits of the unsigned long. */
  lemma PrintsUnsignedLong(w: Word)
    ensures Matches("%lu", [AULong(w)]) && Render("%lu", [AULong(w)]) == Digits(w, 10)
    ensures Matches("%Lu", [AULong(w)]) && Render("%Lu", [AULong(w)]) == Digits(w, 10)
    ensures Matches("%lx", [AULong(w)]) && Render("%lx", [AULong(w)]) == Digits(w, 16)
    ensures Matches("%Lx", [AULong(w)]) && Render("%Lx", [AULong(w)]) == Digits(w, 16)
    ensures ReadsBack(Render("%lu", [AULong(w)]), 10, w) && ReadsBack(Render("%lx", [AULong(w)]), 16, w)
  {
    hide ReadsBack, Render, Matches, Digits;
    LongForms('u');
    LongForms('x');
    OneConversion("%lu", KULong, AULong(w));
    OneConversion("%Lu", KULong, AULong(w));
    OneConversion("%lx", KULongHex, AULong(w));
    OneConversion("%Lx", KULongHex, AULong(w));
    DigitsReadBack(w, 10);
    DigitsReadBack(w, 16);
  }

  lemma LongForms(c: char)
    ensures ['%', 'l', c][1..] == ['l', c] && ['l', c][1..] == [c]
    ensures ['%', 'L', c][1..] == ['L', c] && ['L', c][1..] == [c]
  {
  }

  /** What "%ld" and "%Ld" print is read back as the value, exactly; strtoll may
      be asked to read it, as its result then fits, for every value but the
      smallest. */
  lemma LongReadBack(v: Int64)
    ensures Matches("%ld", [ALong(v)]) && Matches("%Ld", [ALong(v)])
    ensures Render("%ld", [ALong(v)]) == if v < 0 then "-" + Digits(-(v as int), 10) else Digits(v as int, 10)
    ensures Render("%Ld", [ALong(v)]) == Render("%ld", [ALong(v)])
    ensures var s := Render("%ld", [ALong(v)]) + ['\0'];
            && Read(s, 10).end == |s| - 1
            && Signed(Read(s, 10).negative, Magnitude(s, Read(s, 10))) == v
            && (Magnitude(s, Read(s, 10)) < 0x8000_0000_0000_0000 <==> v > -0x8000_0000_0000_0000)
  {
    hide Read, Magnitude, Render, Matches, Digits;
    LongForms('d');
    OneConversion("%ld", KLong, ALong(v));
    OneConversion("%Ld", KLong, ALong(v));
    IntReadBack(v);
  }

  /** "%s" prints the string, and "%c" the one character whose code is the low
      byte of the int. */
  lemma PrintsText(s: string, i: Int32)
    requires '\0' !in s
    ensures Matches("%s", [AStr(s)]) && Render("%s", [AStr(s)]) == s
    ensures Matches("%c", [AInt(i)]) && Render("%c", [AInt(i)]) == [(i as int % 256) as char]
  {
    hide Render, Matches;
    assert "%s"[1..] == "s" && "%c"[1..] == "c";
    OneConversion("%s", KStr, AStr(s));
    OneConversion("%c", KChar, AInt(i));
  }

  /** Any other character after '%' is printed as it is. */
  lemma PrintsUnknown(c: char)
    requires c !in "duxcsplL"
    ensures Matches(['%', c], []) && Render(['%', c], []) == [c]
  {
    assert ['%', c][1..] == [c];
    OneText(['%', c], KText([c]));
  }

  /** A '%' at the end of the format prints nothing, a long conversion that is
      cut off or unknown prints a complaint. */
  lemma PrintsBad(c: char)
    requires c !in "dux"
    ensures Matches("%", []) && Render("%", []) == ""
    ensures Matches("%l", []) && Render("%l", []) == "(bad %l)"
    ensures Matches("%L", []) && Render("%L", []) == "(bad %L)"
    ensures Matches(['%', 'l', c], []) && Render(['%', 'l', c], []) == "(bad %l)"
    ensures Matches(['%', 'L', c], []) && Render(['%', 'L', c], []) == "(bad %L)"
  {
    hide Render, Matches;
    LongForms(c);
    assert "%"[1..] == [] && "%l"[1..] == "l" && "l"[1..] == [] && "%L"[1..] == "L" && "L"[1..] == [];
    OneText("%", KText(""));
    OneText("%l", KText("(bad %l)"));
    OneText("%L", KText("(bad %L)"));
    OneText(['%', 'l', c], KText("(bad %l)"));
    OneText(['%', 'L', c], KText("(bad %L)"));
  }

  /** "%p" prints "0x" and the digits in base 16, which read back in base 16 and
      with an open base. */
  lemma PointerReadBack(p: Word, base: int)
    requires base == 0 || base == 16
    ensures Matches("%p", [APtr(p)]) && Render("%p", [APtr(p)]) == "0x" + Digits(p, 16)
    ensures ReadsBack(Render("%p", [APtr(p)]), base, p)
  {
    hide Digits, Read, Magnitude, Render, Matches;
    assert "%p"[1..] == "p";
    OneConversion("%p", KPtr, APtr(p));
    assert "" + "0x" + Digits(p, 16) + ['\0'] == "0x" + Digits(p, 16) + ['\0'];
    HexReadBack(p, base, false);
  }

  /** What emit_uint prints in a base, strtoull reads back in that base. */
  lemma UintReadBack(v: Word, base: int)
    requires IsBase(base)
    ensures var s := Digits(v, base) + ['\0'];
            && Read(s, base).end == |s| - 1
            && Signed(Read(s, base).negative, Magnitude(s, Read(s, base))) % TWO64 == v
  {
    ReadPrinted(v, base, false);
    assert [] + Digits(v, base) + ['\0'] == Digits(v, base) + ['\0'];
    SmallMod(v);
  }
}
