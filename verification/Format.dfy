/** printf.c: the format interpreter, driving a character device. */
module Format {
  import opened CStrings
  import opened Wrappers
  import opened Word
  import opened NumberText

  const ITOA_BF_SIZE: nat := 24

  /** One variable argument: the bits of a number, or a string. */
  datatype Arg = Num(bits: nat) | Str(text: string)

  /** A directive between the percent sign and its conversion character. */
  datatype Spec = Spec(zero: bool, width: int, long: bool, conv: char)

  // ----- what formatting means

  /** The hexadecimal digit a character stands for, or -1. */
  function A2d(ch: char): int {
    if '0' <= ch <= '9' then ch as int - '0' as int
    else if 'a' <= ch <= 'f' then ch as int - 'a' as int + 10
    else if 'A' <= ch <= 'F' then ch as int - 'A' as int + 10
    else -1
  }

  /** Characters a width is read from: the decimal digits and, with the value 10, `a` and `A`. */
  predicate WidthChar(ch: char) {
    0 <= A2d(ch) <= 10
  }

  /** The width read so far goes on as long as width characters follow; it wraps as an int. */
  function ReadWidth(s: string, num: int): (r: (int, string))
    ensures |r.1| <= |s|
  {
    if s != "" && WidthChar(s[0]) then ReadWidth(s[1..], ToS32(num * 10 + A2d(s[0]))) else (num, s)
  }

  /** A flag character that may be there, and what follows it. */
  function ReadFlag(s: string, flag: char): (r: (bool, string))
    ensures |r.1| <= |s|
  {
    if s != "" && s[0] == flag then (true, s[1..]) else (false, s)
  }

  /** A width that may be there; it must begin with a decimal digit. */
  function ReadField(s: string): (r: (int, string))
    ensures |r.1| <= |s|
  {
    if s != "" && '0' <= s[0] <= '9' then ReadWidth(s, 0) else (0, s)
  }

  /** The directive at the start of s, and what follows it; None when s ends inside it. */
  function ReadSpec(s: string): (r: Option<(Spec, string)>)
    ensures r.Some? ==> |r.value.1| < |s|
  {
    var (zero, s1) := ReadFlag(s, '0');
    var (width, s2) := ReadField(s1);
    var (long, s3) := ReadFlag(s2, 'l');
    if s3 == "" then None else Some((Spec(zero, width, long, s3[0]), s3[1..]))
  }

  /** Conversions that take an argument. */
  predicate TakesArg(conv: char) {
    conv == 'u' || conv == 'd' || conv == 'x' || conv == 'X' || conv == 'c' || conv == 's'
  }

  predicate ArgFits(conv: char, arg: Arg) {
    if conv == 's' then arg.Str? && forall i :: 0 <= i < |arg.text| ==> arg.text[i] != NUL
    else arg.Num? && arg.bits < WORD
  }

  function Repeat(c: char, n: nat): (s: string)
    ensures |s| == n
  {
    if n == 0 then "" else [c] + Repeat(c, n - 1)
  }

  /** Right-justified in a field of width n. */
  function Pad(n: int, zero: bool, s: string): string {
    (if n > |s| then Repeat(if zero then '0' else ' ', n - |s|) else "") + s
  }

  /** What a directive prints. */
  function Converted(d: Spec, arg: Arg): string
    requires ArgFits(d.conv, arg)
  {
    if d.conv == 's' then Pad(d.width, false, arg.text)
    else if d.conv == 'c' then [(arg.bits % 256) as char]
    else if d.conv == 'd' then Pad(d.width, d.zero, SignedText(if d.long then ToS64(arg.bits) else ToS32(arg.bits)))
    else
      Pad(d.width, d.zero,
        Text(Digits(if d.long then arg.bits else arg.bits % WORD32, if d.conv == 'u' then 10 else 16), d.conv == 'X'))
  }

  /** A format is a list of characters that print themselves and of directives. */
  datatype Piece = Plain(ch: char) | Directed(spec: Spec)

  /** The pieces of a format.  One that ends inside a directive stops in front of it. */
  function Pieces(fmt: string): seq<Piece>
    decreases |fmt|
  {
    if fmt == "" then []
    else if fmt[0] != '%' then [Plain(fmt[0])] + Pieces(fmt[1..])
    else
      match ReadSpec(fmt[1..])
      case None => []
      case Some((d, rest)) => [Directed(d)] + Pieces(rest)
  }

  /** The format does not end inside a directive. */
  predicate Complete(fmt: string)
    decreases |fmt|
  {
    if fmt == "" then true
    else if fmt[0] != '%' then Complete(fmt[1..])
    else match ReadSpec(fmt[1..]) case None => false case Some((_, rest)) => Complete(rest)
  }

  predicate Takes(x: Piece) {
    x.Directed? && TakesArg(x.spec.conv)
  }

  /** The argument a piece takes, if it takes one, is there. */
  predicate Ready(x: Piece, args: seq<Arg>) {
    Takes(x) ==> args != [] && ArgFits(x.spec.conv, args[0])
  }

  /** The arguments left for the pieces behind it. */
  function Left(x: Piece, args: seq<Arg>): seq<Arg>
    requires Ready(x, args)
  {
    if Takes(x) then args[1..] else args
  }

  /** What a piece prints; an unknown conversion prints nothing. */
  function Printed(x: Piece, args: seq<Arg>): string
    requires Ready(x, args)
  {
    if x.Plain? then [x.ch]
    else if Takes(x) then Converted(x.spec, args[0])
    else if x.spec.conv == '%' then "%" else ""
  }

  /** The arguments the pieces ask for are there. */
  predicate FitAll(ps: seq<Piece>, args: seq<Arg>) {
    ps == [] || (Ready(ps[0], args) && FitAll(ps[1..], Left(ps[0], args)))
  }

  function PrintAll(ps: seq<Piece>, args: seq<Arg>): string
    requires FitAll(ps, args)
  {
    if ps == [] then "" else Printed(ps[0], args) + PrintAll(ps[1..], Left(ps[0], args))
  }

  predicate Fits(fmt: string, args: seq<Arg>) {
    FitAll(Pieces(fmt), args)
  }

  /** The whole text. */
  function Render(fmt: string, args: seq<Arg>): string
    requires Fits(fmt, args)
  {
    PrintAll(Pieces(fmt), args)
  }

  // ----- when a width is the decimal number written

  lemma WrapEarly32(v: int, d: int)
    ensures ToS32(ToS32(v) * 10 + d) == ToS32(v * 10 + d)
  {
    var k := (v + 0x8000_0000) / WORD32;
    assert ToS32(v) * 10 + d == v * 10 + d - (k * 10) * WORD32;
    var x := v * 10 + d + 0x8000_0000;
    ModUnique(x - (k * 10) * WORD32, WORD32, x / WORD32 - k * 10, x % WORD32);
  }

  /** The decimal digits in front are read as a number modulo 2^32. */
  lemma {:induction false} WidthRun(s: string, x: int)
    ensures ReadWidth(s, ToS32(x)) == ReadWidth(Leading(s).1, ToS32(ValueFrom(x, Leading(s).0, 10)))
  {
    if s != "" && IsDigit(s[0]) {
      WrapEarly32(x, A2d(s[0]));
      assert Leading(s).0[1..] == Leading(s[1..]).0;
      WidthRun(s[1..], x * 10 + A2d(s[0]));
    }
  }

  /** A width is the decimal number it begins with, and ends where that ends, exactly when no
      `a` or `A` follows and the number is below 2^31. */
  lemma WidthIsDecimal(s: string)
    requires s != "" && IsDigit(s[0])
    ensures var (ds, rest) := Leading(s);
            ReadField(s) == (Value(ds, 10), rest)
            <==> (rest == "" || (rest[0] != 'a' && rest[0] != 'A')) && Value(ds, 10) < 0x8000_0000
  {
    var (ds, rest) := Leading(s);
    assert ToS32(0) == 0;
    WidthRun(s, 0);
    ValueFromFront(ds, 10);
    if rest != "" && WidthChar(rest[0]) {
      assert ReadField(s).1 != rest;
    }
  }

  /** The letter counts as a digit of value ten, and the conversion comes behind it. */
  lemma WidthTakesLetter()
    ensures ReadField("1ad") == (20, "d")
  {
    assert "1ad"[1..] == "ad" && "ad"[1..] == "d";
    assert ReadWidth("d", 20) == (20, "d");
    assert ReadWidth("ad", 1) == (20, "d");
  }

  // ----- the interpreter

  /** A character device that remembers what was put. */
  class CharDevice {
    var out: string

    constructor ()
      ensures out == ""
    {
      out := "";
    }

    method Putf(ch: char)
      modifies this
      ensures out == old(out) + [ch]
    {
      out := out + [ch];
    }
  }

  /** Prints padding, then the string at bf. */
  method Putchw(dev: CharDevice, n: int, z: bool, bf: seq<char>)
    requires Terminated(bf, 0)
    modifies dev
    ensures dev.out == old(dev.out) + Pad(n, z, CString(bf, 0))
  {
    var fc := if z then '0' else ' ';
    var p, left := 0, n;
    ghost var s, before := CString(bf, 0), dev.out;
    while bf[p] != NUL && left > 0
      invariant 0 <= p < |bf| && Terminated(bf, p) && dev.out == before
      invariant |CString(bf, p)| == |s| - p && left == n - p && (p > 0 ==> left >= 0)
      decreases |bf| - p
    {
      CStringStep(bf, p);
      p, left := p + 1, left - 1;
    }
    ghost var fill := if n > |s| then n - |s| else 0;
    FillIsRest(bf, p, |s|, n, left);
    ghost var put := 0;
    while left > 0
      invariant put + (if left > 0 then left else 0) == fill
      invariant dev.out == before + Repeat(fc, put)
      decreases left
    {
      dev.Putf(fc);
      RepeatMore(fc, put);
      put := put + 1;
      left := left - 1;
    }
    PutString(dev, bf);
    Append3(before, Repeat(fc, fill), s);
    assert Pad(n, z, s) == Repeat(fc, fill) + s;
  }

  /** The last loop of putchw. */
  method PutString(dev: CharDevice, bf: seq<char>)
    requires Terminated(bf, 0)
    modifies dev
    ensures dev.out == old(dev.out) + CString(bf, 0)
  {
    var i := 0;
    ghost var all := dev.out + CString(bf, 0);
    while bf[i] != NUL
      invariant 0 <= i < |bf| && Terminated(bf, i)
      invariant dev.out + CString(bf, i) == all
      decreases |bf| - i
    {
      CStringStep(bf, i);
      ghost var was := dev.out;
      dev.Putf(bf[i]);
      StringMoves(was, CString(bf, i));
      i := i + 1;
    }
    assert CString(bf, i) == "";
  }

  lemma StringMoves(out: string, s: string)
    requires s != ""
    ensures out + s == out + [s[0]] + s[1..]
  {
  }

  lemma FillIsRest(bf: seq<char>, p: nat, len: nat, n: int, left: int)
    requires p < |bf| && |CString(bf, p)| == len - p && left == n - p && (p > 0 ==> left >= 0)
    requires bf[p] == NUL || left <= 0
    ensures (if left > 0 then left else 0) == if n > len then n - len else 0
  {
    if bf[p] != NUL { CStringStep(bf, p); }
  }

  lemma RepeatMore(c: char, n: nat)
    ensures Repeat(c, n) + [c] == Repeat(c, n + 1)
  {
    if n > 0 { RepeatMore(c, n - 1); }
  }

  /** What is read of the format: the positions from one to before another, in order, and only
      the last of them can hold the terminator. */
  predicate ReadUpTo(a: seq<char>, read: seq<nat>, from: nat, to: nat) {
    && from <= to <= |a| && |read| == to - from && (forall i :: 0 <= i < |read| ==> read[i] == from + i)
    && forall k :: from <= k < to - 1 ==> a[k] != NUL
  }

  lemma ReadOn(a: seq<char>, r1: seq<nat>, r2: seq<nat>, from: nat, mid: nat, to: nat)
    requires ReadUpTo(a, r1, from, mid) && ReadUpTo(a, r2, mid, to) && (from < mid < to ==> a[mid - 1] != NUL)
    ensures ReadUpTo(a, r1 + r2, from, to)
  {
  }

  /** Reads a decimal width; `ch` is the character before position p. */
  method A2i(fmt: array<char>, ch: char, src: nat) returns (next: char, p: nat, num: int, ghost read: seq<nat>)
    requires 1 <= src <= fmt.Length && ch == fmt[src - 1] && Terminated(fmt[..], src - 1)
    ensures src <= p <= fmt.Length && next == fmt[p - 1] && Terminated(fmt[..], p - 1)
    ensures ReadWidth(CString(fmt[..], src - 1), 0) == (num, CString(fmt[..], p - 1))
    ensures ReadUpTo(fmt[..], read, src, p) && (src < p ==> ch != NUL)
  {
    next, p, num, read := ch, src, 0, [];
    ghost var a := fmt[..];
    var digit := A2d(next);
    while digit >= 0
      invariant src <= p <= fmt.Length && next == a[p - 1] && Terminated(a, p - 1) && digit == A2d(next)
      invariant ReadWidth(CString(a, src - 1), 0) == ReadWidth(CString(a, p - 1), num)
      invariant ReadUpTo(a, read, src, p) && (src < p ==> ch != NUL)
      decreases fmt.Length - p
    {
      assert next != NUL;
      CStringStep(a, p - 1);
      if digit > 10 {
        break;
      }
      num := ToS32(num * 10 + digit);
      next := fmt[p];
      read := read + [p];
      p := p + 1;
      digit := A2d(next);
    }
  }

  /** `ch` is the character before position p, and nothing before it is a terminator. */
  predicate Reading(a: seq<char>, ch: char, p: nat) {
    1 <= p <= |a| && ch == a[p - 1] && Terminated(a, p - 1)
  }

  method SkipFlag(fmt: array<char>, ch: char, p: nat, flag: char)
    returns (present: bool, next: char, q: nat, ghost read: seq<nat>)
    requires Reading(fmt[..], ch, p) && flag != NUL
    ensures p <= q && Reading(fmt[..], next, q)
    ensures ReadFlag(CString(fmt[..], p - 1), flag) == (present, CString(fmt[..], q - 1))
    ensures ReadUpTo(fmt[..], read, p, q) && (p < q ==> ch != NUL)
  {
    present, next, q, read := false, ch, p, [];
    ghost var s := CString(fmt[..], p - 1);
    assert s != "" ==> s[0] == ch;
    if ch == flag {
      CStringStep(fmt[..], p - 1);
      next := fmt[q];
      read := read + [q];
      q := q + 1;
      present := true;
    }
  }

  /** The width, read only when a decimal digit is next. */
  method SkipWidth(fmt: array<char>, ch: char, p: nat) returns (w: int, next: char, q: nat, ghost read: seq<nat>)
    requires Reading(fmt[..], ch, p)
    ensures p <= q && Reading(fmt[..], next, q)
    ensures ReadField(CString(fmt[..], p - 1)) == (w, CString(fmt[..], q - 1))
    ensures ReadUpTo(fmt[..], read, p, q) && (p < q ==> ch != NUL)
  {
    w, next, q, read := 0, ch, p, [];
    ghost var s := CString(fmt[..], p - 1);
    assert s != "" ==> s[0] == ch;
    if '0' <= ch && ch <= '9' {
      CStringStep(fmt[..], p - 1);
      next, q, w, read := A2i(fmt, ch, p);
    }
  }

  lemma SpecParts(s: string, zero: bool, s1: string, width: int, s2: string, long: bool, s3: string)
    requires ReadFlag(s, '0') == (zero, s1) && ReadField(s1) == (width, s2) && ReadFlag(s2, 'l') == (long, s3)
    ensures ReadSpec(s) == if s3 == "" then None else Some((Spec(zero, width, long, s3[0]), s3[1..]))
  {
  }

  /** The part of a directive before the switch: flags, width and length.  A terminator read
      there ends the format. */
  method ReadDirective(fmt: array<char>, start: nat)
    returns (lz: bool, w: int, lng: bool, ch: char, p: nat, ghost read: seq<nat>)
    requires start < fmt.Length && Terminated(fmt[..], start)
    ensures start < p <= fmt.Length && ch == fmt[p - 1] && ReadUpTo(fmt[..], read, start, p)
    ensures match ReadSpec(CString(fmt[..], start))
            case None => ch == NUL
            case Some((d, rest)) =>
              ch != NUL && Terminated(fmt[..], p) && d == Spec(lz, w, lng, ch) && rest == CString(fmt[..], p)
  {
    ghost var a := fmt[..];
    ch, p, read := fmt[start], start + 1, [start];
    ghost var r, q := [], p;
    lz, ch, p, r := SkipFlag(fmt, ch, p, '0');
    ReadOn(a, read, r, start, q, p);
    read, q := read + r, p;
    ghost var s1 := CString(a, p - 1);
    w, ch, p, r := SkipWidth(fmt, ch, p);
    ReadOn(a, read, r, start, q, p);
    read, q := read + r, p;
    ghost var s2 := CString(a, p - 1);
    lng, ch, p, r := SkipFlag(fmt, ch, p, 'l');
    ReadOn(a, read, r, start, q, p);
    read := read + r;
    SpecParts(CString(a, start), lz, s1, w, s2, lng, CString(a, p - 1));
    if ch != NUL {
      CStringStep(a, p - 1);
    }
  }

  /** A text in the number buffer is read back as it is. */
  lemma BufferString(b: seq<char>, s: string)
    requires |s| < |b| && b[..|s|] == s && b[|s|] == NUL && forall i :: 0 <= i < |s| ==> s[i] != NUL
    ensures CString(b, 0) == s && Terminated(b, 0)
  {
    StringAt(b, 0, s);
  }

  lemma {:induction false} StringAt(b: seq<char>, p: nat, s: string)
    requires p + |s| < |b| && b[p..p + |s|] == s && b[p + |s|] == NUL && forall i :: 0 <= i < |s| ==> s[i] != NUL
    ensures CString(b, p) == s
    decreases |s|
  {
    if s != "" {
      assert b[p] == s[0];
      assert b[p + 1..p + 1 + |s[1..]|] == s[1..];
      StringAt(b, p + 1, s[1..]);
    }
  }

  lemma DigitsHaveNoNul(m: nat, base: nat, uc: bool)
    requires base == 10 || base == 16
    ensures forall i :: 0 <= i < |Digits(m, base)| ==> Text(Digits(m, base), uc)[i] != NUL
  {
    DigitsValue(m, base);
    forall i | 0 <= i < |Digits(m, base)| ensures Text(Digits(m, base), uc)[i] != NUL {
      DigitReadsBack(Digits(m, base)[i], base, uc);
    }
  }

  /** Prints an unsigned number through the buffer of 24 characters, which is always enough. */
  method PutUnsigned(dev: CharDevice, num: nat, base: nat, uc: bool, width: nat, w: int, lz: bool)
    requires (base == 10 || base == 16) && num < width <= WORD
    modifies dev
    ensures dev.out == old(dev.out) + Pad(w, lz, Text(Digits(num, base), uc))
  {
    LongsFitBuffer(num, 0);
    var bf := new char[ITOA_BF_SIZE];
    ghost var s := Text(Digits(num, base), uc);
    var end := UnsignedToText(num, base, uc, bf, 0, width);
    DigitsHaveNoNul(num, base, uc);
    assert bf[..][..|s|] == s && bf[..][|s|] == NUL;
    BufferString(bf[..], s);
    Putchw(dev, w, lz, bf[..]);
  }

  method PutSigned(dev: CharDevice, num: int, width: nat, w: int, lz: bool)
    requires (width == WORD || width == WORD32) && -(width / 2) <= num < width / 2
    modifies dev
    ensures dev.out == old(dev.out) + Pad(w, lz, SignedText(num))
  {
    LongsFitBuffer(0, num);
    var bf := new char[ITOA_BF_SIZE];
    ghost var s := SignedText(num);
    var end := SignedToText(num, bf, width);
    DigitsHaveNoNul(if num < 0 then -num else num, 10, false);
    assert bf[..][..|s|] == s && bf[..][|s|] == NUL;
    BufferString(bf[..], s);
    Putchw(dev, w, lz, bf[..]);
  }

  /** The switch, for a conversion that takes an argument. */
  method Convert(dev: CharDevice, d: Spec, arg: Arg)
    requires TakesArg(d.conv) && ArgFits(d.conv, arg)
    modifies dev
    ensures dev.out == old(dev.out) + Converted(d, arg)
  {
    if d.conv == 'u' {
      if d.long { PutUnsigned(dev, arg.bits, 10, false, WORD, d.width, d.zero); }
      else { PutUnsigned(dev, arg.bits % WORD32, 10, false, WORD32, d.width, d.zero); }
    } else if d.conv == 'd' {
      if d.long { PutSigned(dev, ToS64(arg.bits), WORD, d.width, d.zero); }
      else { PutSigned(dev, ToS32(arg.bits), WORD32, d.width, d.zero); }
    } else if d.conv == 'x' || d.conv == 'X' {
      if d.long { PutUnsigned(dev, arg.bits, 16, d.conv == 'X', WORD, d.width, d.zero); }
      else { PutUnsigned(dev, arg.bits % WORD32, 16, d.conv == 'X', WORD32, d.width, d.zero); }
    } else if d.conv == 'c' {
      dev.Putf((arg.bits % 256) as char);
    } else {
      assert (arg.text + [NUL])[..|arg.text|] == arg.text;
      BufferString(arg.text + [NUL], arg.text);
      Putchw(dev, d.width, false, arg.text + [NUL]);
    }
  }

  /** One directive, from behind its percent sign; `end` says the format ended inside it. */
  method Directive(dev: CharDevice, fmt: array<char>, start: nat, va: seq<Arg>, used: nat)
    returns (end: bool, at: nat, taken: nat, ghost read: seq<nat>)
    requires start < fmt.Length && Terminated(fmt[..], start) && used <= |va|
    requires var r := ReadSpec(CString(fmt[..], start)); r.Some? ==> Ready(Directed(r.value.0), va[used..])
    modifies dev
    ensures start < at && ReadUpTo(fmt[..], read, start, at) && (end <==> fmt[at - 1] == NUL)
    ensures match ReadSpec(CString(fmt[..], start))
            case None => end && dev.out == old(dev.out)
            case Some((d, rest)) =>
              && !end && at < fmt.Length && Terminated(fmt[..], at) && used <= taken <= |va|
              && rest == CString(fmt[..], at) && Left(Directed(d), va[used..]) == va[taken..]
              && dev.out == old(dev.out) + Printed(Directed(d), va[used..])
  {
    var lz, w, lng, conv, p, r := ReadDirective(fmt, start);
    end, at, taken, read := conv == NUL, p, used, r;
    if end {
      return;
    }
    if TakesArg(conv) {
      Convert(dev, Spec(lz, w, lng, conv), va[used]);
      taken := used + 1;
    } else if conv == '%' {
      dev.Putf(conv);
    }
  }

  /** What is printed already, followed by what the pieces still print, is the whole text. */
  predicate Owed(out: string, ps: seq<Piece>, args: seq<Arg>, all: string) {
    FitAll(ps, args) && out + PrintAll(ps, args) == all
  }

  lemma OwedPiece(out: string, ps: seq<Piece>, args: seq<Arg>, all: string)
    requires ps != [] && Owed(out, ps, args, all)
    ensures Ready(ps[0], args) && Owed(out + Printed(ps[0], args), ps[1..], Left(ps[0], args), all)
  {
    Append3(out, Printed(ps[0], args), PrintAll(ps[1..], Left(ps[0], args)));
  }

  lemma OwedPlain(out: string, s: string, args: seq<Arg>, all: string)
    requires s != "" && s[0] != '%' && Owed(out, Pieces(s), args, all)
    ensures Owed(out + [s[0]], Pieces(s[1..]), args, all)
  {
    var ps := Pieces(s);
    assert ps[0] == Plain(s[0]) && ps[1..] == Pieces(s[1..]);
    OwedPiece(out, ps, args, all);
  }

  lemma OwedDirective(out: string, s: string, args: seq<Arg>, all: string, r: Option<(Spec, string)>)
    requires s != "" && s[0] == '%' && Owed(out, Pieces(s), args, all) && r == ReadSpec(s[1..])
    ensures r.None? ==> out == all
    ensures r.Some? ==>
              var x := Directed(r.value.0);
              Ready(x, args) && Owed(out + Printed(x, args), Pieces(r.value.1), Left(x, args), all)
  {
    var ps := Pieces(s);
    if r.Some? {
      assert ps[0] == Directed(r.value.0) && ps[1..] == Pieces(r.value.1);
      OwedPiece(out, ps, args, all);
    } else {
      assert out + "" == out;
    }
  }

  /** A directive, whose percent sign is at `start`. */
  method DirectivePiece(dev: CharDevice, fmt: array<char>, start: nat, va: seq<Arg>, used: nat, ghost all: string)
    returns (end: bool, at: nat, taken: nat, ghost read: seq<nat>)
    requires start < fmt.Length && fmt[start] == '%' && Terminated(fmt[..], start) && used <= |va|
    requires Owed(dev.out, Pieces(CString(fmt[..], start)), va[used..], all)
    modifies dev
    ensures start + 1 < at && ReadUpTo(fmt[..], read, start + 1, at) && (end <==> fmt[at - 1] == NUL)
    ensures end ==> dev.out == all
    ensures !end ==> at < fmt.Length && Terminated(fmt[..], at) && used <= taken <= |va|
    ensures !end ==> Owed(dev.out, Pieces(CString(fmt[..], at)), va[taken..], all)
  {
    ghost var s := CString(fmt[..], start);
    CStringStep(fmt[..], start);
    OwedDirective(dev.out, s, va[used..], all, ReadSpec(s[1..]));
    end, at, taken, read := Directive(dev, fmt, start + 1, va, used);
  }

  /** One round of the loop, which has read the character at `start`: it is a plain character or
      begins a directive. */
  method NextPiece(dev: CharDevice, fmt: array<char>, start: nat, va: seq<Arg>, used: nat, ghost all: string)
    returns (end: bool, at: nat, taken: nat, ghost read: seq<nat>)
    requires start < fmt.Length && fmt[start] != NUL && Terminated(fmt[..], start) && used <= |va|
    requires Owed(dev.out, Pieces(CString(fmt[..], start)), va[used..], all)
    modifies dev
    ensures start < at && ReadUpTo(fmt[..], read, start + 1, at) && (end <==> fmt[at - 1] == NUL)
    ensures end ==> dev.out == all
    ensures !end ==> at < fmt.Length && Terminated(fmt[..], at) && used <= taken <= |va|
    ensures !end ==> Owed(dev.out, Pieces(CString(fmt[..], at)), va[taken..], all)
  {
    if fmt[start] != '%' {
      CStringStep(fmt[..], start);
      OwedPlain(dev.out, CString(fmt[..], start), va[used..], all);
      dev.Putf(fmt[start]);
      end, at, taken, read := false, start + 1, used, [];
    } else {
      end, at, taken, read := DirectivePiece(dev, fmt, start, va, used, all);
    }
  }

  /** tfp_format: prints what the format and its arguments mean, and reads the characters up to
      the terminator, each once and in order, and none behind it. */
  method TfpFormat(dev: CharDevice, fmt: array<char>, va: seq<Arg>) returns (ghost read: seq<nat>)
    requires Terminated(fmt[..], 0) && Fits(CString(fmt[..], 0), va)
    modifies dev
    ensures dev.out == old(dev.out) + Render(CString(fmt[..], 0), va)
    ensures ReadWhole(fmt[..], read)
  {
    var at: nat, used: nat := 0, 0;
    ghost var a := fmt[..];
    ghost var all := old(dev.out) + Render(CString(a, 0), va);
    read := [0];
    NothingPrinted(dev.out, CString(a, 0), va, all);
    while fmt[at] != NUL
      invariant at < |a| == fmt.Length && used <= |va| && fmt[..] == a && Terminated(a, at)
      invariant ReadUpTo(a, read, 0, at + 1)
      invariant Owed(dev.out, Pieces(CString(a, at)), va[used..], all)
      decreases |a| - at
    {
      var end, next, taken, r := NextPiece(dev, fmt, at, va, used, all);
      ReadRound(a, read, r, at, next);
      read := read + r;
      if end {
        return;
      }
      read := read + [next];
      at, used := next, taken;
    }
    ReadToEnd(a, read, at + 1);
    NothingOwed(dev.out, CString(a, at), va[used..], all);
  }

  /** All positions up to that of the first terminator. */
  predicate ReadWhole(a: seq<char>, read: seq<nat>) {
    |a| > 0 && |read| == |CString(a, 0)| + 1 && forall i :: 0 <= i < |read| ==> read[i] == i
  }

  /** A round reads on; the next test of the loop reads one more character. */
  lemma ReadRound(a: seq<char>, read: seq<nat>, r: seq<nat>, at: nat, next: nat)
    requires ReadUpTo(a, read, 0, at + 1) && ReadUpTo(a, r, at + 1, next) && at < next && a[at] != NUL
    ensures if a[next - 1] == NUL then ReadWhole(a, read + r)
            else next < |a| ==> ReadUpTo(a, read + r + [next], 0, next + 1)
  {
    ReadOn(a, read, r, 0, at + 1, next);
    if a[next - 1] == NUL {
      ReadToEnd(a, read + r, next);
    } else if next < |a| {
      ReadOn(a, read + r, [next], 0, next, next + 1);
    }
  }

  lemma ReadToEnd(a: seq<char>, read: seq<nat>, to: nat)
    requires 0 < to <= |a| && ReadUpTo(a, read, 0, to) && a[to - 1] == NUL
    ensures ReadWhole(a, read)
  {
    FirstTerminator(a, 0, to - 1);
  }

  /** A string ends at its first terminator. */
  lemma {:induction false} FirstTerminator(a: seq<char>, p: nat, end: nat)
    requires p <= end < |a| && a[end] == NUL && forall k :: p <= k < end ==> a[k] != NUL
    ensures |CString(a, p)| == end - p
    decreases end - p
  {
    if p < end { FirstTerminator(a, p + 1, end); }
  }

  lemma NothingPrinted(out: string, s: string, args: seq<Arg>, all: string)
    requires Fits(s, args) && all == out + Render(s, args)
    ensures Owed(out, Pieces(s), args[0..], all)
  {
    assert args[0..] == args;
  }

  lemma NothingOwed(out: string, s: string, args: seq<Arg>, all: string)
    requires s == "" && Owed(out, Pieces(s), args, all)
    ensures out == all
  {
    assert out + "" == out;
  }

  // ----- what a rendering guarantees

  /** A field is at least as wide as asked, ends with the text, and is filled in front of it. */
  lemma PadFills(n: int, zero: bool, s: string)
    ensures var r := Pad(n, zero, s);
            && |r| == (if n > |s| then n else |s|)
            && r[|r| - |s|..] == s
            && forall i :: 0 <= i < |r| - |s| ==> r[i] == if zero then '0' else ' '
  {
    if n > |s| { RepeatIs(if zero then '0' else ' ', n - |s|); }
  }

  lemma {:induction false} RepeatIs(c: char, n: nat)
    ensures forall i :: 0 <= i < n ==> Repeat(c, n)[i] == c
  {
    if n > 0 { RepeatIs(c, n - 1); }
  }

  lemma {:induction false} WidthExtends(s: string, more: string, num: int)
    requires ReadWidth(s, num).1 != ""
    ensures ReadWidth(s + more, num) == (ReadWidth(s, num).0, ReadWidth(s, num).1 + more)
  {
    if s != "" && WidthChar(s[0]) {
      assert (s + more)[1..] == s[1..] + more;
      WidthExtends(s[1..], more, ToS32(num * 10 + A2d(s[0])));
    }
  }

  lemma FlagExtends(s: string, more: string, flag: char)
    requires s != ""
    ensures ReadFlag(s + more, flag) == (ReadFlag(s, flag).0, ReadFlag(s, flag).1 + more)
  {
    assert (s + more)[1..] == s[1..] + more;
  }

  /** A complete directive is read the same whatever follows it. */
  lemma SpecExtends(s: string, more: string)
    requires ReadSpec(s).Some?
    ensures ReadSpec(s + more) == Some((ReadSpec(s).value.0, ReadSpec(s).value.1 + more))
  {
    var s1 := ReadFlag(s, '0').1;
    var s2 := ReadField(s1).1;
    var s3 := ReadFlag(s2, 'l').1;
    FlagExtends(s, more, '0');
    if '0' <= s1[0] <= '9' { WidthExtends(s1, more, 0); }
    FlagExtends(s2, more, 'l');
    assert (s3 + more)[1..] == s3[1..] + more;
  }

  /** A format that ends on a directive boundary is cut into pieces independently of what follows. */
  lemma {:induction false} PiecesCompose(f1: string, f2: string)
    requires Complete(f1)
    ensures Pieces(f1 + f2) == Pieces(f1) + Pieces(f2)
    decreases |f1|
  {
    if f1 == "" {
      assert f1 + f2 == f2;
    } else {
      assert (f1 + f2)[1..] == f1[1..] + f2;
      if f1[0] != '%' {
        PiecesCompose(f1[1..], f2);
      } else {
        SpecExtends(f1[1..], f2);
        PiecesCompose(ReadSpec(f1[1..]).value.1, f2);
      }
    }
  }

  /** The arguments the pieces take. */
  function ArgCount(ps: seq<Piece>): nat {
    if ps == [] then 0 else (if Takes(ps[0]) then 1 else 0) + ArgCount(ps[1..])
  }

  lemma {:induction false} FitComposes(ps: seq<Piece>, a1: seq<Arg>, qs: seq<Piece>, a2: seq<Arg>)
    requires FitAll(ps, a1) && |a1| == ArgCount(ps) && FitAll(qs, a2)
    ensures FitAll(ps + qs, a1 + a2)
  {
    if ps == [] {
      assert ps + qs == qs && a1 + a2 == a2;
    } else {
      assert (ps + qs)[1..] == ps[1..] + qs;
      FitComposes(ps[1..], Left(ps[0], a1), qs, a2);
      LeftExtends(ps[0], a1, a2);
    }
  }

  lemma LeftExtends(x: Piece, a1: seq<Arg>, a2: seq<Arg>)
    requires Ready(x, a1)
    ensures Ready(x, a1 + a2) && Left(x, a1 + a2) == Left(x, a1) + a2 && Printed(x, a1 + a2) == Printed(x, a1)
  {
    if Takes(x) { assert (a1 + a2)[1..] == a1[1..] + a2; }
  }

  lemma {:induction false} PrintComposes(ps: seq<Piece>, a1: seq<Arg>, qs: seq<Piece>, a2: seq<Arg>)
    requires FitAll(ps, a1) && |a1| == ArgCount(ps) && FitAll(qs, a2)
    ensures FitAll(ps + qs, a1 + a2) && PrintAll(ps + qs, a1 + a2) == PrintAll(ps, a1) + PrintAll(qs, a2)
  {
    FitComposes(ps, a1, qs, a2);
    if ps == [] {
      assert ps + qs == qs && a1 + a2 == a2;
    } else {
      assert (ps + qs)[1..] == ps[1..] + qs;
      LeftExtends(ps[0], a1, a2);
      PrintComposes(ps[1..], Left(ps[0], a1), qs, a2);
      Append3(Printed(ps[0], a1), PrintAll(ps[1..], Left(ps[0], a1)), PrintAll(qs, a2));
    }
  }

  lemma Append3(a: string, b: string, c: string)
    ensures a + (b + c) == a + b + c
  {
  }

  /** Formatting is compositional: a format that ends on a directive boundary, followed by
      another, prints the two texts one after the other. */
  lemma RenderComposes(f1: string, a1: seq<Arg>, f2: string, a2: seq<Arg>)
    requires Complete(f1) && Fits(f1, a1) && |a1| == ArgCount(Pieces(f1)) && Fits(f2, a2)
    ensures Fits(f1 + f2, a1 + a2)
    ensures Render(f1 + f2, a1 + a2) == Render(f1, a1) + Render(f2, a2)
  {
    PiecesCompose(f1, f2);
    PrintComposes(Pieces(f1), a1, Pieces(f2), a2);
  }

  /** The boundary matters: cut inside a directive, the two halves print nothing. */
  lemma CutDirective()
    ensures Render("%" + "%", []) == "%" && Render("%", []) + Render("%", []) == ""
  {
    assert "%" + "%" == "%%" && "%%"[1..] == "%" && "%"[1..] == "";
    assert ReadSpec("%") == Some((Spec(false, 0, false, '%'), ""));
    assert ReadSpec("") == None;
  }

  /** A printed long is read back by strtol exactly when the field needs no fill, or is filled
      with zeros, or the number is zero: strtol stops at a leading space, and takes a minus
      sign behind the zeros. */
  lemma PrintedLongReadsBack(n: int, w: int, zero: bool)
    requires S64_MIN <= n < S64_END
    ensures ArgFits('d', Num(ToU64(n)))
    ensures var r := Parse(Converted(Spec(zero, w, true, 'd'), Num(ToU64(n))), 10, 0, false);
            r == n <==> zero || w <= |SignedText(n)| || n == 0
  {
    var s := SignedText(n);
    assert ToS64(ToU64(n)) == n;
    DecimalRoundTrip(n, "");
    assert s + "" == s;
    if w > |s| {
      if zero {
        LeadingZeros(w - |s|, s);
      } else {
        assert (Repeat(' ', w - |s|) + s)[0] == ' ';
      }
    } else {
      assert "" + s == s;
    }
  }

  lemma {:induction false} LeadingZeros(k: nat, s: string)
    ensures Parse(Repeat('0', k) + s, 10, 0, false) == Parse(s, 10, 0, false)
  {
    if k == 0 {
      assert "" + s == s;
    } else {
      assert (Repeat('0', k) + s)[1..] == Repeat('0', k - 1) + s;
      LeadingZeros(k - 1, s);
    }
  }
}
