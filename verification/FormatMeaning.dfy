/** What each conversion of a format prints, told by reading the text back or by its shape, and that
    formats written as documented mean what they say. */
module FormatMeaning {
  import opened Word
  import opened Wrappers
  import opened CStrings
  import opened NumberText
  import opened NumberReading
  import opened Format

  /** The text t at the right end of a field filled with one character. */
  predicate InField(r: string, width: int, fill: char, t: string) {
    && |r| == (if width > |t| then width else |t|)
    && r[|r| - |t|..] == t
    && forall i :: 0 <= i < |r| - |t| ==> r[i] == fill
  }

  /** What is printed without a width. */
  function Unpadded(d: Spec, arg: Arg): string
    requires ArgFits(d.conv, arg)
  {
    Converted(d.(width := 0), arg)
  }

  /** The argument as the conversion takes it: all of a long, otherwise the low 32 bits. */
  function Taken(d: Spec, bits: nat): nat {
    if d.long then bits else bits % WORD32
  }

  lemma NoField(zero: bool, s: string)
    ensures Pad(0, zero, s) == s
  {
    assert "" + s == s;
  }

  /** Every conversion but `c` puts its text at the right end of the field, which is filled with zeros
      if the flag asks for them, and always with spaces for strings. */
  lemma FieldMeans(d: Spec, arg: Arg)
    requires TakesArg(d.conv) && ArgFits(d.conv, arg) && d.conv != 'c'
    ensures InField(Converted(d, arg), d.width, if d.zero && d.conv != 's' then '0' else ' ', Unpadded(d, arg))
  {
    var t := Unpadded(d, arg);
    if d.conv == 's' {
      NoField(false, arg.text);
      PadFills(d.width, false, t);
    } else if d.conv == 'd' {
      NoField(d.zero, SignedText(if d.long then ToS64(arg.bits) else ToS32(arg.bits)));
      PadFills(d.width, d.zero, t);
    } else {
      UnsignedIs(d, arg);
      PadFills(d.width, d.zero, t);
    }
  }

  lemma UnsignedIs(d: Spec, arg: Arg)
    requires (d.conv == 'u' || d.conv == 'x' || d.conv == 'X') && ArgFits(d.conv, arg)
    ensures Unpadded(d, arg) == Text(Digits(Taken(d, arg.bits), if d.conv == 'u' then 10 else 16), d.conv == 'X')
    ensures Converted(d, arg) == Pad(d.width, d.zero, Unpadded(d, arg))
  {
    NoField(d.zero, Text(Digits(Taken(d, arg.bits), if d.conv == 'u' then 10 else 16), d.conv == 'X'));
  }

  /** `x` and `X` print hexadecimal digits of their letter case, without leading zeros, from which
      strtol in base 16 reads the argument back. */
  lemma HexMeans(d: Spec, arg: Arg)
    requires (d.conv == 'x' || d.conv == 'X') && ArgFits(d.conv, arg)
    ensures var t := Unpadded(d, arg);
            && t != "" && (|t| > 1 ==> t[0] != '0')
            && (forall i :: 0 <= i < |t| ==> IsHexDigit(t[i], d.conv == 'X'))
            && ToU64(Parse(t, 16, 0, false)) == if d.long then arg.bits else arg.bits % WORD32
  {
    UnsignedIs(d, arg);
    var n, t := Taken(d, arg.bits), Unpadded(d, arg);
    PrintedDigits(n, 16, d.conv == 'X');
    HexRoundTrip(n, d.conv == 'X', "");
    assert t + "" == t;
    BitsKept(n);
  }

  lemma BitsKept(n: nat)
    requires n < WORD
    ensures ToU64(ToS64(n)) == n
  {
  }

  /** `u` prints decimal digits without leading zeros, which a reader takes for the argument. */
  lemma UnsignedMeans(d: Spec, arg: Arg)
    requires d.conv == 'u' && ArgFits(d.conv, arg)
    ensures var t := Unpadded(d, arg);
            && t != "" && (|t| > 1 ==> t[0] != '0') && (forall i :: 0 <= i < |t| ==> IsDigit(t[i]))
            && UsualReading(t) == if d.long then arg.bits else arg.bits % WORD32
  {
    UnsignedIs(d, arg);
    var n, t := Taken(d, arg.bits), Unpadded(d, arg);
    PrintedDigits(n, 10, false);
    NaturalReadsAsUsual(n, "");
    assert t + "" == t;
  }

  /** The signed number of a word size that differs from the bits by a multiple of it. */
  predicate SignedOf(n: int, bits: nat, size: int)
    requires size > 0
  {
    -size <= 2 * n < size && (n - bits) % size == 0
  }

  /** `d` prints a minus sign for negative numbers and decimal digits, which a reader takes for the
      argument as a signed long or int. */
  lemma SignedMeans(d: Spec, arg: Arg)
    requires d.conv == 'd' && ArgFits(d.conv, arg)
    ensures var t := Unpadded(d, arg);
            && t != "" && SignedOf(UsualReading(t), arg.bits, if d.long then WORD else WORD32)
            && (t[0] == '-' <==> UsualReading(t) < 0)
            && forall i :: 0 <= i < |t| ==> IsDigit(t[i]) || (i == 0 && t[i] == '-')
  {
    var n := if d.long then ToS64(arg.bits) else ToS32(arg.bits);
    var t := Unpadded(d, arg);
    NoField(d.zero, SignedText(n));
    SignedReadsAsUsual(n, "");
    SignedShape(n);
    assert t + "" == t;
    TwosComplement(arg.bits);
  }

  lemma TwosComplement(bits: nat)
    ensures SignedOf(ToS64(bits), bits, WORD) && SignedOf(ToS32(bits), bits, WORD32)
  {
    SameResidue(bits, 0x8000_0000_0000_0000, WORD);
    SameResidue(bits, 0x8000_0000, WORD32);
  }

  lemma SameResidue(x: nat, h: nat, m: nat)
    requires m > 0
    ensures ((x + h) % m - h - x) % m == 0
  {
    ModUnique((x + h) % m - h - x, m, -((x + h) / m), 0);
  }

  /** `c` prints one character, whatever the width: the one with the low eight bits as its code. */
  lemma CharMeans(d: Spec, arg: Arg)
    requires d.conv == 'c' && ArgFits(d.conv, arg)
    ensures |Converted(d, arg)| == 1 && Converted(d, arg)[0] as int == arg.bits % 256
  {
  }

  /** `s` prints the string. */
  lemma StringMeans(d: Spec, arg: Arg)
    requires d.conv == 's' && ArgFits(d.conv, arg)
    ensures Unpadded(d, arg) == arg.text
  {
    NoField(false, arg.text);
  }

  // ----- directives as they are written

  /** A directive as documented: flag, width, length, conversion. */
  function SpecText(d: Spec): string
    requires d.width >= 0
  {
    FlagText(d.zero, '0') + WidthText(d.width) + FlagText(d.long, 'l') + [d.conv]
  }

  function FlagText(present: bool, flag: char): string {
    if present then [flag] else ""
  }

  function WidthText(w: nat): string {
    if w > 0 then Text(Digits(w, 10), false) else ""
  }

  /** The conversion cannot be taken for a part of what precedes it. */
  predicate IsConversion(c: char) {
    !WidthChar(c) && c != 'l'
  }

  lemma WidthReadsBack(w: nat, rest: string)
    requires w < 0x8000_0000 && (rest == "" || !WidthChar(rest[0]))
    ensures ReadField(WidthText(w) + rest) == (w, rest)
    ensures var s := WidthText(w) + rest; (s == "" <==> w == 0 && rest == "") && (s != "" ==> s[0] != '0')
  {
    var s := WidthText(w) + rest;
    if w > 0 {
      NaturalReadsAsUsual(w, rest);
      FirstOfDigits(w, 10);
      PrintedDigits(w, 10, false);
      DigitsValue(w, 10);
      assert s[0] == Text(Digits(w, 10), false)[0] == DigitChar(Digits(w, 10)[0], false);
      DigitShape(Digits(w, 10)[0], 10, false);
      WidthIsDecimal(s);
    } else {
      assert s == rest;
    }
  }

  lemma FlagReadsBack(present: bool, flag: char, rest: string)
    requires rest == "" || rest[0] != flag
    ensures ReadFlag(FlagText(present, flag) + rest, flag) == (present, rest)
    ensures var s := FlagText(present, flag) + rest;
            if present then s != "" && s[0] == flag else s == rest
  {
    if present {
      assert ([flag] + rest)[1..] == rest;
    } else {
      assert "" + rest == rest;
    }
  }

  /** A directive is read as what it was written for. */
  lemma SpecReadsBack(d: Spec, rest: string)
    requires 0 <= d.width < 0x8000_0000 && IsConversion(d.conv)
    ensures ReadSpec(SpecText(d) + rest) == Some((d, rest))
  {
    var tail := [d.conv] + rest;
    var length := FlagText(d.long, 'l') + tail;
    var field := WidthText(d.width) + length;
    FlagReadsBack(d.long, 'l', tail);
    WidthReadsBack(d.width, length);
    FlagReadsBack(d.zero, '0', field);
    Grouped(FlagText(d.zero, '0'), WidthText(d.width), FlagText(d.long, 'l'), [d.conv], rest);
    SpecParts(FlagText(d.zero, '0') + field, d.zero, field, d.width, length, d.long, tail);
    assert tail[1..] == rest;
  }

  lemma Grouped(a: string, b: string, c: string, d: string, rest: string)
    ensures a + b + c + d + rest == a + (b + (c + (d + rest)))
  {
  }

  /** A format that ends before the conversion prints nothing for that directive. */
  lemma CutRenders(zero: bool, width: nat, long: bool, args: seq<Arg>)
    requires width < 0x8000_0000
    ensures var s := "%" + (FlagText(zero, '0') + (WidthText(width) + FlagText(long, 'l')));
            Format.Fits(s, args) && Render(s, args) == ""
  {
    var length := FlagText(long, 'l');
    var field := WidthText(width) + length;
    var all := FlagText(zero, '0') + field;
    assert length + "" == length;
    FlagReadsBack(long, 'l', "");
    WidthReadsBack(width, length);
    FlagReadsBack(zero, '0', field);
    SpecParts(all, zero, field, width, length, long, "");
    assert ("%" + all)[1..] == all;
  }

  lemma DirectivePieces(d: Spec, rest: string)
    requires 0 <= d.width < 0x8000_0000 && IsConversion(d.conv)
    ensures Pieces("%" + SpecText(d) + rest) == [Directed(d)] + Pieces(rest)
  {
    var s := "%" + SpecText(d) + rest;
    assert s[0] == '%' && s[1..] == SpecText(d) + rest;
    SpecReadsBack(d, rest);
  }

  lemma PrintFirst(x: Piece, ps: seq<Piece>, args: seq<Arg>)
    requires Ready(x, args) && FitAll(ps, Left(x, args))
    ensures FitAll([x] + ps, args) && PrintAll([x] + ps, args) == Printed(x, args) + PrintAll(ps, Left(x, args))
  {
    assert ([x] + ps)[1..] == ps;
  }

  /** A directive written in a format prints what it means, and the rest of the format prints what it
      means with the arguments left. */
  lemma DirectiveRenders(d: Spec, rest: string, args: seq<Arg>)
    requires 0 <= d.width < 0x8000_0000 && IsConversion(d.conv)
    requires Ready(Directed(d), args) && Format.Fits(rest, Left(Directed(d), args))
    ensures Format.Fits("%" + SpecText(d) + rest, args)
    ensures Render("%" + SpecText(d) + rest, args)
         == (if TakesArg(d.conv) then Converted(d, args[0]) else if d.conv == '%' then "%" else "")
            + Render(rest, if TakesArg(d.conv) then args[1..] else args)
  {
    DirectivePieces(d, rest);
    PrintFirst(Directed(d), Pieces(rest), args);
  }

  lemma PlainFirst(c: char, rest: string, args: seq<Arg>)
    requires c != '%' && Format.Fits(rest, args)
    ensures Format.Fits([c] + rest, args) && Render([c] + rest, args) == [c] + Render(rest, args)
  {
    assert ([c] + rest)[1..] == rest;
    PrintFirst(Plain(c), Pieces(rest), args);
  }

  /** Text without a percent sign prints itself. */
  lemma {:induction false} PlainRenders(s: string, rest: string, args: seq<Arg>)
    requires (forall i :: 0 <= i < |s| ==> s[i] != '%') && Format.Fits(rest, args)
    ensures Format.Fits(s + rest, args) && Render(s + rest, args) == s + Render(rest, args)
  {
    FirstOfConcat(s, rest);
    if s == "" {
      FirstOfConcat("", Render(rest, args));
    } else {
      PlainRenders(s[1..], rest, args);
      PlainFirst(s[0], s[1..] + rest, args);
      FirstOfConcat(s, Render(rest, args));
    }
  }

  lemma FirstOfConcat(s: string, rest: string)
    ensures s + rest == if s == "" then rest else [s[0]] + (s[1..] + rest)
  {
  }
}
