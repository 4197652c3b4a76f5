/** printf.c: printing numbers in a base, and strtol, which reads them back. */
module NumberText {
  import opened Word
  import opened CStrings
  import opened Wrappers

  const S64_MIN: int := -0x8000_0000_0000_0000
  const S64_END: int := 0x8000_0000_0000_0000

  /** Conversion to `long`, `int` and their unsigned forms: two's complement. */
  function ToS64(x: int): (r: int)
    ensures S64_MIN <= r < S64_END
  {
    (x + S64_END) % WORD - S64_END
  }

  function ToU64(x: int): (r: nat)
    ensures r < WORD
  {
    x % WORD
  }

  function ToS32(x: int): (r: int)
    ensures -0x8000_0000 <= r < 0x8000_0000
  {
    (x + 0x8000_0000) % WORD32 - 0x8000_0000
  }

  function ToU32(x: int): (r: nat)
    ensures r < WORD32
  {
    x % WORD32
  }

  // ----- positional notation

  function Value(ds: seq<nat>, base: nat): nat {
    if ds == [] then 0 else Value(ds[..|ds| - 1], base) * base + ds[|ds| - 1]
  }

  /** The usual notation: the last digit is the remainder, the others write the quotient. */
  function Digits(num: nat, base: nat): (ds: seq<nat>)
    requires base >= 2
    ensures ds != []
  {
    if num < base then [num] else
    DivSmaller(num, base);
    Digits(num / base, base) + [num % base]
  }

  lemma DivSmaller(x: nat, m: nat)
    requires 2 <= m <= x
    ensures 1 <= x / m < x
  {
    DivModParts(x, m);
    if x / m >= x { MulMonotone(2, m, x / m); }
  }

  /** Digits below the base, and no leading zero. */
  predicate Canonical(ds: seq<nat>, base: nat) {
    ds != [] && (forall i :: 0 <= i < |ds| ==> ds[i] < base) && (|ds| > 1 ==> ds[0] != 0)
  }

  lemma ValueSnoc(ds: seq<nat>, d: nat, base: nat)
    ensures Value(ds + [d], base) == Value(ds, base) * base + d
  {
    assert (ds + [d])[..|ds|] == ds;
  }

  lemma {:induction false} DigitsValue(num: nat, base: nat)
    requires base >= 2
    ensures Value(Digits(num, base), base) == num && Canonical(Digits(num, base), base)
  {
    if num < base {
      ValueSnoc([], num, base);
      assert [] + [num] == [num];
    } else {
      var q, r := num / base, num % base;
      assert num == q * base + r by { DivModParts(num, base); }
      DivSmaller(num, base);
      DigitsValue(q, base);
      ValueSnoc(Digits(q, base), r, base);
      FirstOfDigits(q, base);
      assert Digits(num, base) == Digits(q, base) + [r];
    }
  }

  lemma {:induction false} FirstOfDigits(num: nat, base: nat)
    requires base >= 2 && num > 0
    ensures Digits(num, base)[0] != 0
  {
    if num >= base {
      DivSmaller(num, base);
      FirstOfDigits(num / base, base);
    }
  }

  function Pow(b: nat, k: nat): nat {
    if k == 0 then 1 else b * Pow(b, k - 1)
  }

  lemma {:induction false} PowPositive(b: nat, k: nat)
    requires b >= 1
    ensures Pow(b, k) >= 1
  {
    if k > 0 {
      PowPositive(b, k - 1);
      MulGe(b, Pow(b, k - 1));
    }
  }

  lemma DivBelow(x: nat, m: nat, b: nat)
    requires m > 0 && x < b * m
    ensures x / m < b
  {
    DivModParts(x, m);
    if x / m >= b { MulMonotone(b, x / m, m); }
  }

  lemma DivAtLeast(x: nat, m: nat, b: nat)
    requires m > 0 && b * m <= x
    ensures x / m >= b
  {
    DivModParts(x, m);
    if x / m + 1 <= b { MulMonotone(x / m + 1, b, m); MulSum(x / m, 1, m); }
  }

  /** A number below base^k has at most k digits. */
  lemma {:induction false} DigitsBound(x: nat, k: nat, base: nat)
    requires base >= 2 && k >= 1 && x < Pow(base, k)
    ensures |Digits(x, base)| <= k
    decreases k
  {
    if x >= base {
      DivBelow(x, base, Pow(base, k - 1));
      DigitsBound(x / base, k - 1, base);
    }
  }

  // ----- the characters

  /** The character written for a digit; a sum beyond a char is cut off. */
  function DigitChar(d: nat, uc: bool): char {
    ((d + (if d < 10 then '0' else if uc then 'A' else 'a') as nat - (if d < 10 then 0 else 10)) % 256) as char
  }

  function Text(ds: seq<nat>, uc: bool): (s: string)
    ensures |s| == |ds|
  {
    seq(|ds|, i requires 0 <= i < |ds| => DigitChar(ds[i], uc))
  }

  /** uli2a and ui2a: `width` is one more than the largest unsigned value. */
  method UnsignedToText(num: nat, base: nat, uc: bool, bf: array<char>, off: nat, width: nat) returns (end: nat)
    requires 2 <= base <= 16 && num < width
    requires off + |Digits(num, base)| < bf.Length
    modifies bf
    ensures end == off + |Digits(num, base)|
    ensures bf[..] == old(bf[..off]) + Text(Digits(num, base), uc) + [NUL] + old(bf[end + 1..])
  {
    ghost var was, ds := bf[..], Digits(num, base);
    var d := FindScale(num, base, width);
    DigitsValue(num, base);
    end := WriteDigits(num, d, base, uc, bf, off, ds);
    bf[end] := NUL;
    assert bf[..] == was[..off] + Text(ds, uc) + [NUL] + was[end + 1..];
  }

  /** The first loop: the scale of the leading digit.  It never wraps around. */
  method FindScale(num: nat, base: nat, width: nat) returns (d: nat)
    requires 2 <= base <= 16 && num < width
    ensures d == Pow(base, |Digits(num, base)| - 1) >= 1
  {
    ghost var k := 1;
    d := 1;
    while num / d >= base
      invariant k >= 1 && d == Pow(base, k - 1) >= 1 && (k == 1 || d <= num)
      decreases num - d
    {
      ScaleGrows(num, base, d);
      ModUnique(d * base, width, 0, d * base);
      d := (d * base) % width;
      k := k + 1;
    }
    TopScale(num, base, d, k);
    DigitsLength(num, k, base);
  }

  /** The second loop: one digit for each scale.  `ds` are the digits of num. */
  method WriteDigits(num: nat, scale: nat, base: nat, uc: bool, bf: array<char>, off: nat, ghost ds: seq<nat>)
    returns (p: nat)
    requires 2 <= base <= 16 && off + |ds| < bf.Length
    requires Canonical(ds, base) && Value(ds, base) == num && ScaleAt(scale, base, |ds|)
    modifies bf
    ensures p == off + |ds| && bf[..] == old(bf[..off]) + Text(ds, uc) + old(bf[p..])
  {
    ghost var was := bf[..];
    var n := 0;
    p := off;
    var d: nat, left: nat := scale, num;
    NothingWritten(was, off, ds, uc);
    while d != 0
      invariant 0 <= n <= |ds| && p == off + n && ScaleAt(d, base, |ds| - n)
      invariant left == Value(ds[n..], base)
      invariant bf[..] == was[..off] + Text(ds[..n], uc) + was[p..]
      decreases |ds| - n
    {
      TailFacts(ds, n);
      var dgt, rest, next := SplitDigit(left, d, base, ds[n..]);
      NoLeadingZero(ds, n, base, next);
      left, d := rest, next;
      if n != 0 || dgt > 0 || d == 0 {
        WriteDigit(bf, p, dgt, uc, was, off, ds, n);
        p := p + 1;
        n := n + 1;
      }
    }
    AllWritten(ds, n);
  }

  lemma NothingWritten(was: seq<char>, off: nat, ds: seq<nat>, uc: bool)
    requires off <= |was|
    ensures ds[0..] == ds && was == was[..off] + Text(ds[..0], uc) + was[off..]
  {
  }

  lemma AllWritten(ds: seq<nat>, n: nat)
    requires n == |ds|
    ensures ds[..n] == ds
  {
  }

  method PutChar(bf: array<char>, p: nat, c: char)
    requires p < bf.Length
    modifies bf
    ensures bf[..] == old(bf[..])[p := c]
  {
    bf[p] := c;
  }

  /** The store of one digit. */
  method WriteDigit(bf: array<char>, p: nat, dgt: nat, uc: bool,
                    ghost was: seq<char>, ghost off: nat, ghost ds: seq<nat>, ghost n: nat)
    requires p < bf.Length == |was| && p == off + n && n < |ds| && dgt == ds[n]
    requires bf[..] == was[..off] + Text(ds[..n], uc) + was[p..]
    modifies bf
    ensures bf[..] == was[..off] + Text(ds[..n + 1], uc) + was[p + 1..]
  {
    TextGrows(was, off, ds, n, uc);
    PutChar(bf, p, DigitChar(dgt, uc));
  }

  lemma TailFacts(ds: seq<nat>, n: nat)
    requires n < |ds|
    ensures ds[n..][0] == ds[n] && ds[n..][1..] == ds[n + 1..] && |ds[n..]| == |ds| - n
  {
  }

  /** The test for leading zeros never skips a digit. */
  lemma NoLeadingZero(ds: seq<nat>, n: nat, base: nat, next: nat)
    requires n < |ds| && Canonical(ds, base) && ScaleAt(next, base, |ds| - n - 1)
    ensures n != 0 || ds[n] > 0 || next == 0
  {
  }

  /** The digit at scale d, what it leaves, and the next scale. */
  method SplitDigit(left: nat, d: nat, base: nat, ghost ds: seq<nat>) returns (dgt: nat, rest: nat, next: nat)
    requires base >= 2 && ds != [] && ScaleAt(d, base, |ds|) && left == Value(ds, base)
    requires forall i :: 0 <= i < |ds| ==> ds[i] < base
    ensures dgt == ds[0] && rest == Value(ds[1..], base) && ScaleAt(next, base, |ds| - 1)
  {
    ValueHead(ds, base);
    ModUnique(left, d, ds[0], Value(ds[1..], base));
    NextScale(d, base, |ds|);
    dgt, rest, next := left / d, left % d, d / base;
  }

  /** The first digit counts for the highest power, and the others stay below it. */
  lemma {:induction false} ValueHead(ds: seq<nat>, base: nat)
    requires base >= 1 && ds != [] && forall i :: 0 <= i < |ds| ==> ds[i] < base
    ensures Value(ds, base) == ds[0] * Pow(base, |ds| - 1) + Value(ds[1..], base)
    ensures Value(ds[1..], base) < Pow(base, |ds| - 1)
  {
    var init, d, k := ds[..|ds| - 1], ds[|ds| - 1], |ds| - 1;
    if init == [] {
      assert Value(ds[1..], base) == 0;
    } else {
      ValueHead(init, base);
      assert ds[1..][..k - 1] == init[1..];
      var h, v, p := ds[0], Value(init[1..], base), Pow(base, k - 1);
      assert Value(ds[1..], base) == v * base + d;
      assert Pow(base, k) == base * p;
      HornerStep(h, p, v, base, d);
    }
  }

  lemma HornerStep(h: nat, p: nat, v: nat, base: nat, d: nat)
    requires v < p && d < base
    ensures (h * p + v) * base + d == h * (base * p) + (v * base + d)
    ensures v * base + d < base * p
  {
    MulSum(h * p, v, base);
    assert (h * p) * base == h * (base * p);
    MulMonotone(v + 1, p, base);
    MulSum(v, 1, base);
  }

  /** One digit more in the buffer. */
  lemma TextGrows(was: seq<char>, off: nat, ds: seq<nat>, n: nat, uc: bool)
    requires n < |ds| && off + n < |was|
    ensures (was[..off] + Text(ds[..n], uc) + was[off + n..])[off + n := DigitChar(ds[n], uc)]
         == was[..off] + Text(ds[..n + 1], uc) + was[off + n + 1..]
  {
    assert ds[..n + 1] == ds[..n] + [ds[n]];
  }

  /** d is the scale of the first of j digits, or 0 when none is left. */
  predicate ScaleAt(d: nat, base: nat, j: nat) {
    if j == 0 then d == 0 else d == Pow(base, j - 1) && d >= 1
  }

  lemma NextScale(d: nat, base: nat, j: nat)
    requires base >= 2 && j >= 1 && ScaleAt(d, base, j)
    ensures ScaleAt(d / base, base, j - 1)
  {
    if j > 1 {
      PowPositive(base, j - 2);
      ModUnique(d, base, Pow(base, j - 2), 0);
    }
  }

  lemma {:induction false} DigitsLength(num: nat, k: nat, base: nat)
    requires base >= 2 && k >= 1 && num < Pow(base, k) && (k == 1 || Pow(base, k - 1) <= num)
    ensures |Digits(num, base)| == k
  {
    if k > 1 {
      var e := Pow(base, k - 2);
      PowPositive(base, k - 2);
      MulGe(e, base);
      DivBelow(num, base, Pow(base, k - 1));
      DivAtLeast(num, base, e);
      DigitsLength(num / base, k - 1, base);
    }
  }

  lemma ScaleGrows(num: nat, base: nat, d: nat)
    requires base >= 2 && d >= 1 && num / d >= base
    ensures d < d * base <= num
  {
    DivModParts(num, d);
    MulMonotone(base, num / d, d);
    MulMonotone(2, base, d);
  }

  lemma TopScale(num: nat, base: nat, d: nat, k: nat)
    requires base >= 2 && k >= 1 && d == Pow(base, k - 1) >= 1 && num / d < base
    ensures num < Pow(base, k)
  {
    DivModParts(num, d);
    MulMonotone(num / d + 1, base, d);
    MulSum(num / d, 1, d);
  }

  // ----- signed numbers

  /** The notation of a signed number in base 10. */
  function SignedText(num: int): string {
    if num < 0 then "-" + Text(Digits(-num, 10), false) else Text(Digits(num, 10), false)
  }

  /** li2a and i2a.  Negating the most negative number wraps around to itself, and reading it as
      unsigned gives its magnitude after all. */
  method SignedToText(num: int, bf: array<char>, width: nat) returns (end: nat)
    requires (width == WORD || width == WORD32) && -(width / 2) <= num < width / 2
    requires |SignedText(num)| < bf.Length
    modifies bf
    ensures end == |SignedText(num)|
    ensures bf[..] == SignedText(num) + [NUL] + old(bf[end + 1..])
  {
    ghost var before := bf[..];
    var u := Magnitude(num, width);
    var p := 0;
    if num < 0 {
      PutChar(bf, p, '-');
      p := p + 1;
    }
    SignKept(before, bf[..], num, p);
    end := UnsignedToText(u, 10, false, bf, p, width);
  }

  /** The number without its sign: negated as a signed number, then passed on as an unsigned one. */
  method Magnitude(num: int, width: nat) returns (u: nat)
    requires (width == WORD || width == WORD32) && -(width / 2) <= num < width / 2
    ensures u == (if num < 0 then -num else num) < width
  {
    var n := num;
    if n < 0 {
      n := (-n + width / 2) % width - width / 2;
    }
    NegationWraps(num, width);
    u := n % width;
  }

  /** Only the sign is in front of the digits, and nothing behind it has changed. */
  lemma SignKept(before: seq<char>, was: seq<char>, num: int, p: nat)
    requires 0 < |before| && p == (if num < 0 then 1 else 0) && was == if num < 0 then before[0 := '-'] else before
    ensures was[..p] == (if num < 0 then "-" else "")
    ensures forall k :: p <= k <= |was| ==> was[k..] == before[k..]
  {
  }

  lemma NegationWraps(num: int, width: nat)
    requires (width == WORD || width == WORD32) && -(width / 2) <= num < width / 2
    ensures num < 0 ==> ((-num + width / 2) % width - width / 2) % width == -num
    ensures num >= 0 ==> num % width == num
  {
  }

  // ----- buffer sizes

  lemma Pow10Values()
    ensures Pow(10, 10) == 10_000_000_000 && Pow(10, 19) == 10_000_000_000_000_000_000
    ensures Pow(10, 20) == 100_000_000_000_000_000_000
    ensures Pow(16, 8) == WORD32 && Pow(16, 16) == WORD
  {
    assert Pow(10, 5) == 100_000 && Pow(10, 10) == 10_000_000_000;
    assert Pow(10, 15) == 1_000_000_000_000_000;
    assert Pow(16, 4) == 0x1_0000 && Pow(16, 8) == 0x1_0000_0000;
    assert Pow(16, 12) == 0x1_0000_0000_0000;
  }

  /** With the terminator, longs take at most 21 bytes of the 24 in the buffer. */
  lemma LongsFitBuffer(u: nat, n: int)
    ensures u < WORD ==> |Digits(u, 10)| + 1 <= 21 && |Digits(u, 16)| + 1 <= 17
    ensures S64_MIN <= n < S64_END ==> |SignedText(n)| + 1 <= 21
  {
    Pow10Values();
    if u < WORD { DigitsBound(u, 20, 10); DigitsBound(u, 16, 16); }
    if S64_MIN <= n < S64_END { DigitsBound(if n < 0 then -n else n, 19, 10); }
  }

  /** Ints take at most 12, and the most negative int takes all 12. */
  lemma IntsFitBuffer(u: nat, n: int)
    ensures u < WORD32 ==> |Digits(u, 10)| + 1 <= 11 && |Digits(u, 16)| + 1 <= 9
    ensures -0x8000_0000 <= n < 0x8000_0000 ==> |SignedText(n)| + 1 <= 12
    ensures n == -0x8000_0000 ==> |SignedText(n)| + 1 == 12
  {
    Pow10Values();
    if u < WORD32 { DigitsBound(u, 10, 10); DigitsBound(u, 8, 16); }
    if -0x8000_0000 <= n < 0x8000_0000 { DigitsBound(if n < 0 then -n else n, 10, 10); }
    if n == -0x8000_0000 { LargestIntDigits(-n); }
  }

  lemma LargestIntDigits(m: nat)
    requires m == 0x8000_0000
    ensures |Digits(m, 10)| == 10
  {
    Pow10Values();
    var nine: nat := 9;
    assert Pow(10, nine) <= 1_000_000_000 by { assert Pow(10, nine + 1) == 10 * Pow(10, nine); }
    DigitsLength(m, nine + 1, 10);
  }

  // ----- strtol

  /** The digit a character stands for; in a base below 10 every decimal digit is taken. */
  function DigitOf(c: char, base: int): Option<nat> {
    if '0' <= c <= '9' then Some(c as int - '0' as int)
    else if base > 10 && 'a' <= c && c as int < base - 10 + 'a' as int then Some(c as int - 'a' as int + 10)
    else if base > 10 && 'A' <= c && c as int < base - 10 + 'A' as int then Some(c as int - 'A' as int + 10)
    else None
  }

  /** What strtol makes of the rest of its input.  A minus sign counts wherever it stands. */
  function Parse(s: string, base: int, val: int, negative: bool): int {
    if s != "" && base == 10 && s[0] == '-' then Parse(s[1..], base, val, true)
    else if s != "" && DigitOf(s[0], base).Some? then
      Parse(s[1..], base, ToS64(val * base + DigitOf(s[0], base).value), negative)
    else if negative then ToS64(val * -1) else val
  }

  method Strtol(str: array<char>, at: nat, base: int) returns (r: int)
    requires at <= str.Length && Terminated(str[..], at)
    ensures r == Parse(CString(str[..], at), base, 0, false)
  {
    var val, negative, i := 0, false, at;
    while str[i] != NUL
      invariant at <= i < str.Length && Terminated(str[..], i)
      invariant Parse(CString(str[..], at), base, 0, false) == Parse(CString(str[..], i), base, val, negative)
      decreases str.Length - i
    {
      var c := str[i];
      assert CString(str[..], i)[0] == c && CString(str[..], i)[1..] == CString(str[..], i + 1);
      if base == 10 && c == '-' {
        negative := true;
      } else if '0' <= c && c <= '9' {
        val := ToS64(val * base + (c as int - '0' as int));
      } else if base > 10 && 'a' <= c && c as int < base - 10 + 'a' as int {
        val := ToS64(val * base + (c as int - 'a' as int + 10));
      } else if base > 10 && 'A' <= c && c as int < base - 10 + 'A' as int {
        val := ToS64(val * base + (c as int - 'A' as int + 10));
      } else {
        break;
      }
      i := i + 1;
    }
    r := if negative then ToS64(val * -1) else val;
  }

  /** Wrapping early or late makes no difference. */
  lemma WrapEarly(v: int, base: int, d: int)
    ensures ToS64(ToS64(v) * base + d) == ToS64(v * base + d)
  {
    var k := (v + S64_END) / WORD;
    assert ToS64(v) == v - k * WORD;
    assert (v - k * WORD) * base + d == (v * base + d) - (k * base) * WORD by {
      assert (k * WORD) * base == (k * base) * WORD;
    }
    ModShift(v * base + d + S64_END, -(k * base));
  }

  lemma ModShift(x: int, k: int)
    ensures (x + k * WORD) % WORD == x % WORD
  {
    ModUnique(x + k * WORD, WORD, x / WORD + k, x % WORD);
  }

  lemma SmallIsSame(v: int)
    requires S64_MIN <= v < S64_END
    ensures ToS64(v) == v
  {
  }

  /** Reading digits from the front. */
  function ValueFrom(v: int, ds: seq<nat>, base: nat): int
    decreases |ds|
  {
    if ds == [] then v else ValueFrom(v * base + ds[0], ds[1..], base)
  }

  lemma {:induction false} ValueFromSnoc(v: int, ds: seq<nat>, d: nat, base: nat)
    ensures ValueFrom(v, ds + [d], base) == ValueFrom(v, ds, base) * base + d
    decreases |ds|
  {
    var all := ds + [d];
    if ds == [] {
      assert all[1..] == [];
    } else {
      assert all[1..] == ds[1..] + [d];
      ValueFromSnoc(v * base + ds[0], ds[1..], d, base);
    }
  }

  lemma {:induction false} ValueFromFront(ds: seq<nat>, base: nat)
    ensures ValueFrom(0, ds, base) == Value(ds, base)
  {
    if ds != [] {
      var init, d := ds[..|ds| - 1], ds[|ds| - 1];
      ValueFromFront(init, base);
      ValueFromSnoc(0, init, d, base);
      assert init + [d] == ds;
    }
  }

  /** A printed digit is read as the digit it is. */
  lemma DigitReadsBack(d: nat, base: nat, uc: bool)
    requires d < base && (base == 10 || base == 16)
    ensures DigitOf(DigitChar(d, uc), base) == Some(d) && DigitChar(d, uc) != '-' && DigitChar(d, uc) != NUL
    ensures DigitChar(d, uc) != ' '
  {
  }

  /** Reading printed digits, followed by anything. */
  lemma {:induction false} ParseText(ds: seq<nat>, base: nat, uc: bool, v: int, negative: bool, rest: string)
    requires base == 10 || base == 16
    requires forall i :: 0 <= i < |ds| ==> ds[i] < base
    ensures Parse(Text(ds, uc) + rest, base, ToS64(v), negative)
         == Parse(rest, base, ToS64(ValueFrom(v, ds, base)), negative)
    decreases |ds|
  {
    var s := Text(ds, uc) + rest;
    if ds == [] {
      assert s == rest;
    } else {
      DigitReadsBack(ds[0], base, uc);
      assert Text(ds, uc)[1..] == Text(ds[1..], uc);
      assert s[0] == DigitChar(ds[0], uc) && s[1..] == Text(ds[1..], uc) + rest;
      WrapEarly(v, base, ds[0]);
      ParseText(ds[1..], base, uc, v * base + ds[0], negative, rest);
    }
  }

  /** Nothing of it continues a number. */
  predicate Stops(rest: string, base: int) {
    rest == "" || (DigitOf(rest[0], base).None? && (base == 10 ==> rest[0] != '-'))
  }

  lemma ParseNatural(m: nat, base: nat, uc: bool, negative: bool, rest: string)
    requires (base == 10 || base == 16) && Stops(rest, base)
    ensures Parse(Text(Digits(m, base), uc) + rest, base, 0, negative)
         == if negative then ToS64(ToS64(m) * -1) else ToS64(m)
  {
    DigitsValue(m, base);
    ValueFromFront(Digits(m, base), base);
    SmallIsSame(0);
    ParseText(Digits(m, base), base, uc, 0, negative, rest);
  }

  /** strtol undoes uli2a in base 16, in either letter case, up to reading the word as signed. */
  lemma HexRoundTrip(n: nat, uc: bool, rest: string)
    requires n < WORD && Stops(rest, 16)
    ensures Parse(Text(Digits(n, 16), uc) + rest, 16, 0, false) == ToS64(n)
  {
    ParseNatural(n, 16, uc, false, rest);
  }

  /** strtol undoes li2a on every long. */
  lemma DecimalRoundTrip(n: int, rest: string)
    requires S64_MIN <= n < S64_END && Stops(rest, 10)
    ensures Parse(SignedText(n) + rest, 10, 0, false) == n
  {
    if n < 0 {
      NegativeRoundTrip(-n, rest);
    } else {
      ParseNatural(n, 10, false, false, rest);
      SmallIsSame(n);
    }
  }

  lemma NegativeRoundTrip(m: int, rest: string)
    requires 0 < m <= S64_END && Stops(rest, 10)
    ensures Parse("-" + Text(Digits(m, 10), false) + rest, 10, 0, false) == -m
  {
    var digits := Text(Digits(m, 10), false);
    calc {
      Parse("-" + digits + rest, 10, 0, false);
      { DashFirst(digits, rest); }
      Parse(digits + rest, 10, 0, true);
      { ParseNatural(m, 10, false, true, rest); }
      ToS64(ToS64(m) * -1);
      { WrapEarly(m, -1, 0); }
      ToS64(-m);
      { SmallIsSame(-m); }
      -m;
    }
  }

  lemma DashFirst(digits: string, rest: string)
    ensures Parse("-" + digits + rest, 10, 0, false) == Parse(digits + rest, 10, 0, true)
  {
    assert ("-" + digits + rest)[1..] == digits + rest;
  }

  // ----- what strtol makes of any text in base 10

  predicate IsDigit(c: char) {
    '0' <= c <= '9'
  }

  /** The digits of the longest prefix of digits and minus signs, the signs left out. */
  function Undashed(s: string): (ds: seq<nat>)
    ensures forall i :: 0 <= i < |ds| ==> ds[i] < 10
  {
    if s != "" && s[0] == '-' then Undashed(s[1..])
    else if s != "" && IsDigit(s[0]) then [s[0] as nat - '0' as nat] + Undashed(s[1..])
    else []
  }

  /** That prefix has a minus sign. */
  predicate HasDash(s: string) {
    s != "" && (s[0] == '-' || (IsDigit(s[0]) && HasDash(s[1..])))
  }

  /** The digits s starts with, and what follows them. */
  function Leading(s: string): (r: (seq<nat>, string))
    ensures |r.1| <= |s| && (r.1 == "" || !IsDigit(r.1[0]))
  {
    if s != "" && IsDigit(s[0]) then
      var (ds, rest) := Leading(s[1..]);
      ([s[0] as nat - '0' as nat] + ds, rest)
    else ([], s)
  }

  lemma ParseDigit(s: string, v: int, negative: bool)
    requires s != "" && IsDigit(s[0])
    ensures Parse(s, 10, ToS64(v), negative) == Parse(s[1..], 10, ToS64(v * 10 + (s[0] as int - '0' as int)), negative)
  {
    WrapEarly(v, 10, s[0] as int - '0' as int);
  }

  lemma {:induction false} ParseSkipsDashes(s: string, v: int, negative: bool)
    ensures Parse(s, 10, ToS64(v), negative)
         == ToS64(if negative || HasDash(s) then -ValueFrom(v, Undashed(s), 10) else ValueFrom(v, Undashed(s), 10))
  {
    if s != "" && s[0] == '-' {
      ParseSkipsDashes(s[1..], v, true);
    } else if s != "" && IsDigit(s[0]) {
      var d := s[0] as nat - '0' as nat;
      ParseDigit(s, v, negative);
      ParseSkipsDashes(s[1..], v * 10 + d, negative);
      assert Undashed(s)[0] == d && Undashed(s)[1..] == Undashed(s[1..]);
    } else if negative {
      WrapEarly(v, -1, 0);
    } else {
      SmallIsSame(ToS64(v));
    }
  }

  /** What strtol returns for any text: the number written by the digits of the longest prefix
      of digits and minus signs, negated if there is a minus sign anywhere in it. */
  lemma StrtolSkipsDashes(s: string)
    ensures var n: int := Value(Undashed(s), 10); Parse(s, 10, 0, false) == ToS64(if HasDash(s) then -n else n)
  {
    SmallIsSame(0);
    ParseSkipsDashes(s, 0, false);
    ValueFromFront(Undashed(s), 10);
  }

  /** The text without the minus sign in front, if there is one. */
  function Unsigned(s: string): string {
    if s != "" && s[0] == '-' then s[1..] else s
  }

  /** The usual reading: a minus sign in front or none, then the digits up to the first
      character that is not one. */
  function UsualReading(s: string): int {
    var m: int := Value(Leading(Unsigned(s)).0, 10);
    if s != "" && s[0] == '-' then -m else m
  }

  predicate AllZero(ds: seq<nat>) {
    forall i :: 0 <= i < |ds| ==> ds[i] == 0
  }

  /** No minus sign follows the number; or there was one in front and no digit follows the other;
      or all digits are zeros. */
  predicate DashesHarmless(s: string) {
    var rest := Leading(Unsigned(s)).1;
    rest == "" || rest[0] != '-'
    || (s[0] == '-' && Undashed(rest) == [])
    || AllZero(Undashed(s))
  }

  lemma {:induction false} LeadingIsPrefix(s: string)
    ensures Undashed(s) == Leading(s).0 + Undashed(Leading(s).1)
    ensures HasDash(s) <==> HasDash(Leading(s).1)
  {
    if s != "" && IsDigit(s[0]) { LeadingIsPrefix(s[1..]); }
  }

  /** More digits leave a value as it is only if there are none or everything is zero. */
  lemma {:induction false} MoreDigits(v: nat, ds: seq<nat>)
    ensures ValueFrom(v, ds, 10) >= v
    ensures ValueFrom(v, ds, 10) == v <==> ds == [] || (v == 0 && AllZero(ds))
    decreases |ds|
  {
    if ds != [] {
      MoreDigits(v * 10 + ds[0], ds[1..]);
      assert forall i :: 1 <= i < |ds| ==> ds[i] == ds[1..][i - 1];
    }
  }

  lemma {:induction false} ValueFromAppend(v: int, ds: seq<nat>, es: seq<nat>)
    ensures ValueFrom(v, ds + es, 10) == ValueFrom(ValueFrom(v, ds, 10), es, 10)
    decreases |ds|
  {
    if ds == [] {
      assert ds + es == es;
    } else {
      assert (ds + es)[1..] == ds[1..] + es;
      ValueFromAppend(v * 10 + ds[0], ds[1..], es);
    }
  }

  /** The two readings in terms of the leading digits and of those behind later minus signs. */
  lemma ReadingParts(s: string)
    ensures var (ds, rest) := Leading(Unsigned(s));
            && Undashed(s) == ds + Undashed(rest)
            && (HasDash(s) <==> (s != "" && s[0] == '-') || (rest != "" && rest[0] == '-'))
            && Value(Undashed(s), 10) == ValueFrom(Value(ds, 10), Undashed(rest), 10)
            && (rest == "" || rest[0] != '-' ==> Undashed(rest) == [])
  {
    var (ds, rest) := Leading(Unsigned(s));
    LeadingIsPrefix(Unsigned(s));
    ValueFromFront(Undashed(s), 10);
    ValueFromFront(ds, 10);
    ValueFromAppend(0, ds, Undashed(rest));
  }

  /** On every text whose digits stay below 2^63, strtol gives the usual reading if and only if
      the minus signs are harmless. */
  lemma StrtolReadsAsUsual(s: string)
    requires Value(Undashed(s), 10) < S64_END
    ensures Parse(s, 10, 0, false) == UsualReading(s) <==> DashesHarmless(s)
  {
    var n: int := Value(Undashed(s), 10);
    var (ds, rest) := Leading(Unsigned(s));
    assert Parse(s, 10, 0, false) == if HasDash(s) then -n else n by {
      StrtolSkipsDashes(s);
      SmallIsSame(n);
      SmallIsSame(-n);
    }
    ReadingParts(s);
    MoreDigits(Value(ds, 10), Undashed(rest));
    ZeroValue(Undashed(s));
  }

  lemma ZeroValue(ds: seq<nat>)
    ensures Value(ds, 10) == 0 <==> AllZero(ds)
  {
    ValueFromFront(ds, 10);
    MoreDigits(0, ds);
  }

  /** A minus sign inside a number negates it. */
  lemma DashAnywhere()
    ensures Parse("1-2", 10, 0, false) == -12
  {
    assert "1-2"[1..] == "-2" && "-2"[1..] == "2" && "2"[1..] == "";
    assert Parse("", 10, 12, true) == -12;
    assert Parse("2", 10, 1, true) == -12;
    assert Parse("-2", 10, 1, false) == -12;
  }
}
