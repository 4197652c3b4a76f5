/** What printed numbers say to a reader who knows the usual notation, and what strtol takes for
    digits in each base. */
module NumberReading {
  import opened Word
  import opened Wrappers
  import opened NumberText

  const LOWER: string := "0123456789abcdefghijklmnopqrstuvwxyz"
  const UPPER: string := "0123456789ABCDEFGHIJKLMNOPQRSTUVWXYZ"

  // ----- the characters

  /** The character printed for a digit is the one of the alphabet asked for. */
  lemma DigitCharIs(d: nat, uc: bool)
    requires d < 36
    ensures DigitChar(d, uc) == if uc then UPPER[d] else LOWER[d]
  {
  }

  /** strtol takes a character for the digit v exactly when it stands for v in either alphabet and v
      is below the base; below base 10 it takes all decimal digits. */
  lemma DigitOfIs(c: char, base: nat, v: nat)
    requires 2 <= base <= 36 && v < 36
    ensures DigitOf(c, base) == Some(v) <==> (c == LOWER[v] || c == UPPER[v]) && (v < base || v < 10)
    ensures DigitOf(c, base).Some? ==> 0 <= DigitOf(c, base).value < if base < 10 then 10 else base
  {
    DigitCharIs(v, false);
    DigitCharIs(v, true);
    DigitOfEither(c, base, v, LOWER[v], UPPER[v]);
  }

  lemma DigitOfEither(c: char, base: nat, v: nat, lower: char, upper: char)
    requires 2 <= base <= 36 && v < 36 && lower == DigitChar(v, false) && upper == DigitChar(v, true)
    ensures DigitOf(c, base) == Some(v) <==> (c == lower || c == upper) && (v < base || v < 10)
  {
  }

  predicate IsHexDigit(c: char, uc: bool) {
    IsDigit(c) || (if uc then 'A' <= c <= 'F' else 'a' <= c <= 'f')
  }

  /** The digits printed are decimal digits in base 10 and have the letter case asked for in base 16,
      without a leading zero. */
  lemma PrintedDigits(n: nat, base: nat, uc: bool)
    requires base == 10 || base == 16
    ensures var t := Text(Digits(n, base), uc);
            && t != "" && (|t| > 1 ==> t[0] != '0')
            && forall i :: 0 <= i < |t| ==> if base == 10 then IsDigit(t[i]) else IsHexDigit(t[i], uc)
  {
    DigitsValue(n, base);
    var ds := Digits(n, base);
    forall i | 0 <= i < |ds|
      ensures var c := Text(ds, uc)[i];
              (if base == 10 then IsDigit(c) else IsHexDigit(c, uc)) && (ds[i] != 0 ==> c != '0')
    {
      DigitShape(ds[i], base, uc);
    }
  }

  lemma DigitShape(d: nat, base: nat, uc: bool)
    requires d < base && (base == 10 || base == 16)
    ensures if base == 10 then IsDigit(DigitChar(d, uc)) else IsHexDigit(DigitChar(d, uc), uc)
    ensures d != 0 ==> DigitChar(d, uc) != '0'
  {
  }

  // ----- the usual reading

  /** A reader who stops at the first character that is no digit reads the digits printed. */
  lemma {:induction false} LeadingOfText(ds: seq<nat>, rest: string)
    requires (forall i :: 0 <= i < |ds| ==> ds[i] < 10) && (rest == "" || !IsDigit(rest[0]))
    ensures Leading(Text(ds, false) + rest) == (ds, rest)
    decreases |ds|
  {
    var s := Text(ds, false) + rest;
    if ds == [] {
      assert s == rest;
    } else {
      assert s[0] == DigitChar(ds[0], false) && s[1..] == Text(ds[1..], false) + rest;
      LeadingOfText(ds[1..], rest);
      assert [ds[0]] + ds[1..] == ds;
    }
  }

  lemma NaturalReadsAsUsual(m: nat, rest: string)
    requires rest == "" || !IsDigit(rest[0])
    ensures var s := Text(Digits(m, 10), false) + rest;
            && s != "" && s[0] != '-' && UsualReading(s) == m
            && Leading(s) == (Digits(m, 10), rest) && Value(Leading(s).0, 10) == m
  {
    DigitsValue(m, 10);
    LeadingOfText(Digits(m, 10), rest);
    PrintedDigits(m, 10, false);
  }

  /** A signed number is printed so that a reader who takes one minus sign, in front, reads it. */
  lemma SignedReadsAsUsual(n: int, rest: string)
    requires rest == "" || !IsDigit(rest[0])
    ensures UsualReading(SignedText(n) + rest) == n
  {
    if n < 0 {
      NaturalReadsAsUsual(-n, rest);
      SignInFront(Text(Digits(-n, 10), false), rest);
    } else {
      NaturalReadsAsUsual(n, rest);
    }
  }

  lemma SignInFront(digits: string, rest: string)
    requires digits + rest != "" && (digits + rest)[0] != '-'
    ensures UsualReading("-" + digits + rest) == -UsualReading(digits + rest)
  {
    assert ("-" + digits + rest)[1..] == digits + rest;
  }

  /** The minus sign is there exactly for negative numbers, in front, with decimal digits behind. */
  lemma SignedShape(n: int)
    ensures var t := SignedText(n);
            && t != "" && (t[0] == '-' <==> n < 0) && (n < 0 ==> |t| > 1)
            && forall i :: (if n < 0 then 1 else 0) <= i < |t| ==> IsDigit(t[i])
  {
    PrintedDigits(if n < 0 then -n else n, 10, false);
  }

  // ----- strtol in any base but 10

  /** The digits s starts with. */
  function LeadingIn(s: string, base: nat): (ds: seq<nat>)
    requires base >= 2
  {
    if s != "" && DigitOf(s[0], base).Some? then [DigitOf(s[0], base).value] + LeadingIn(s[1..], base) else []
  }

  lemma {:induction false} ParseLeading(s: string, base: nat, v: int)
    requires base >= 2 && base != 10
    ensures Parse(s, base, ToS64(v), false) == ToS64(ValueFrom(v, LeadingIn(s, base), base))
  {
    if s != "" && DigitOf(s[0], base).Some? {
      var d := DigitOf(s[0], base).value;
      WrapEarly(v, base, d);
      ParseLeading(s[1..], base, v * base + d);
      assert LeadingIn(s, base)[1..] == LeadingIn(s[1..], base);
    }
  }

  /** What strtol returns for any text in a base other than 10: the number written by the digits the
      text starts with, modulo 2^64. */
  lemma StrtolInBase(s: string, base: nat)
    requires base >= 2 && base != 10
    ensures Parse(s, base, 0, false) == ToS64(Value(LeadingIn(s, base), base))
  {
    SmallIsSame(0);
    ParseLeading(s, base, 0);
    ValueFromFront(LeadingIn(s, base), base);
  }
}
