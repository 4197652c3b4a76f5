/** console.c: finding a command by name and marshalling its arguments into a packed buffer. */
module Console {
  import opened CStrings
  import opened Wrappers
  import opened Word
  import opened NumberText
  import opened StringSplit

  const CMDSIZE: nat := 256

  type byte = b: nat | b < 256

  datatype ArgType = CMD_END | CMD_INT | CMD_LONG | CMD_PTR | CMD_STR

  /** An entry of the command registry; the array of types has room for eight. */
  datatype Command = Command(name: string, types: seq<ArgType>)

  predicate Registered(c: Command) {
    |c.types| <= 8 && c.name != "" && forall i :: 0 <= i < |c.name| ==> c.name[i] != NUL
  }

  /** What a line leads to: nothing, a handler called with a buffer, or an error. */
  datatype Outcome = Nothing | Called(command: nat, params: seq<byte>) | MissingArgument | BadType | UnknownCommand

  /** The bytes of a word, least significant first, and the word they hold. */
  function Bytes(v: nat, k: nat): (r: seq<byte>)
    ensures |r| == k
  {
    if k == 0 then [] else [v % 256] + Bytes(v / 256, k - 1)
  }

  function Loaded(bytes: seq<byte>): nat {
    if bytes == [] then 0 else bytes[0] + 256 * Loaded(bytes[1..])
  }

  lemma {:induction false} BytesHoldWord(v: nat, k: nat)
    requires v < Pow(256, k)
    ensures Loaded(Bytes(v, k)) == v
  {
    if k > 0 {
      BytesHoldWord(v / 256, k - 1);
      assert Bytes(v, k)[1..] == Bytes(v / 256, k - 1);
    }
  }

  /** Byte i of a word in memory is the one that counts 256^i. */
  lemma {:induction false} ByteAt(v: nat, k: nat, i: nat)
    requires i < k
    ensures Pow(256, i) >= 1 && Bytes(v, k)[i] == v / Pow(256, i) % 256
  {
    PowPositive(256, i);
    if i > 0 {
      PowPositive(256, i - 1);
      ByteAt(v / 256, k - 1, i - 1);
      DivDiv(v, 256, Pow(256, i - 1));
    }
  }

  lemma DivDiv(x: nat, a: nat, b: nat)
    requires a > 0 && b > 0
    ensures a * b > 0 && x / a / b == x / (a * b)
  {
    MulGe(a, b);
    DivModParts(x, a);
    DivModParts(x / a, b);
    TwoQuotients(x, x / a, x % a, a, x / a / b, x / a % b, b);
  }

  lemma TwoQuotients(x: nat, p: nat, u: nat, a: nat, q: nat, r: nat, b: nat)
    requires x == p * a + u && u < a && p == q * b + r && r < b && a * b > 0
    ensures x / (a * b) == q
  {
    MulSum(q * b, r, a);
    TimesTimes(q, a, b);
    MulMonotone(r + 1, b, a);
    MulSum(r, 1, a);
    ModUnique(x, a * b, q, r * a + u);
  }

  lemma TimesTimes(q: nat, a: nat, b: nat)
    ensures q * b * a == q * (a * b) && b * a == a * b
  {
  }

  function Size(t: ArgType): nat {
    if t == CMD_INT then 4 else 8
  }

  predicate Numeric(t: ArgType) {
    t == CMD_INT || t == CMD_LONG || t == CMD_PTR
  }

  /** The bytes stored for an argument: a long whole, an int cut to 32 bits. */
  function ArgBytes(t: ArgType, v: int): (r: seq<byte>)
    ensures |r| == Size(t)
  {
    if t == CMD_INT then Bytes(ToU32(v), 4) else Bytes(ToU64(v), 8)
  }

  /** The marshalled arguments of a split line, or why an argument fails. */
  datatype Marshalled = Packed(bytes: seq<byte>) | Missing | Unsupported

  function Marshal(a: seq<char>, p: nat, end: nat, types: seq<ArgType>): Marshalled
    requires end <= |a|
    decreases |types|
  {
    if types == [] then Packed([]) else
    match NextStart(a, p, end)
    case None => Missing
    case Some(q) =>
      if !Numeric(types[0]) then Unsupported else
      Prefix(ArgBytes(types[0], Parse(CString(a, q), 10, 0, false)), Marshal(a, q, end, types[1..]))
  }

  function Prefix(done: seq<byte>, m: Marshalled): Marshalled {
    if m.Packed? then Packed(done + m.bytes) else m
  }

  /** The handler is called with the packed arguments, or not at all. */
  function OutcomeOf(index: nat, m: Marshalled): Outcome {
    match m case Packed(bytes) => Called(index, bytes) case Missing => MissingArgument case Unsupported => BadType
  }

  lemma {:induction false} PackedSize(a: seq<char>, p: nat, end: nat, types: seq<ArgType>)
    requires end <= |a|
    ensures Marshal(a, p, end, types).Packed? ==> |Marshal(a, p, end, types).bytes| <= 8 * |types|
    decreases |types|
  {
    if types != [] && NextStart(a, p, end).Some? {
      PackedSize(a, NextStart(a, p, end).value, end, types[1..]);
    }
  }

  /** A store of k bytes at an address. */
  method StoreBytes(params: array<byte>, at: nat, v: nat, k: nat)
    requires at + k <= params.Length
    modifies params
    ensures params[..] == old(params[..at]) + Bytes(v, k) + old(params[at + k..])
  {
    ghost var was := params[..];
    var rest, i := v, 0;
    while i < k
      invariant 0 <= i <= k
      invariant params[..at + i] + Bytes(rest, k - i) == was[..at] + Bytes(v, k)
      invariant params[at + i..] == was[at + i..]
      modifies params
    {
      ghost var before := params[..at + i];
      params[at + i] := rest % 256;
      assert params[..at + i + 1] == before + [rest % 256];
      assert before + ([rest % 256] + Bytes(rest / 256, k - i - 1))
          == params[..at + i + 1] + Bytes(rest / 256, k - i - 1);
      rest := rest / 256;
      i := i + 1;
    }
    assert params[..] == params[..at + k] + params[at + k..];
    assert params[..at + k] + Bytes(rest, 0) == params[..at + k];
  }

  method StoreArgument(params: array<byte>, at: nat, t: ArgType, arg: int)
    requires at + Size(t) <= params.Length
    modifies params
    ensures params[..at + Size(t)] == old(params[..at]) + ArgBytes(t, arg)
  {
    if t == CMD_INT {
      StoreBytes(params, at, ToU32(arg), 4);
    } else {
      StoreBytes(params, at, ToU64(arg), 8);
    }
  }

  /** _execute_cmd: reads one string per argument type and appends its value to the buffer that
      kmalloc returned; the handler is called only when every argument is there. */
  method ExecuteCommand(index: nat, cmd: Command, buf: array<char>, end: nat, params: array<byte>) returns (o: Outcome)
    requires Registered(cmd) && end < buf.Length && buf[end] == NUL && params.Length == CMDSIZE
    modifies params
    ensures o == OutcomeOf(index, Marshal(buf[..], 0, end, cmd.types))
    ensures o.Called? ==> |o.params| <= CMDSIZE && params[..|o.params|] == o.params
  {
    ghost var a := buf[..];
    var nxt, curparam, i := 0, 0, 0;
    ghost var done: seq<byte> := [];
    PackedSize(a, 0, end, cmd.types);
    while i < |cmd.types|
      invariant 0 <= i <= |cmd.types| && curparam == |done| <= 8 * i && done == params[..curparam]
      invariant Marshal(a, 0, end, cmd.types) == Prefix(done, Marshal(a, nxt, end, cmd.types[i..]))
    {
      var next := SplitGetNext(buf, nxt, end);
      if next == None {
        return MissingArgument;
      }
      nxt := next.value;
      var t := cmd.types[i];
      assert cmd.types[i..][0] == t && cmd.types[i..][1..] == cmd.types[i + 1..];
      if !Numeric(t) {
        return BadType;
      }
      assert a[end] == NUL;
      var arg := Strtol(buf, nxt, 10);
      StoreArgument(params, curparam, t, arg);
      PrefixGrows(done, ArgBytes(t, arg), Marshal(a, nxt, end, cmd.types[i + 1..]));
      curparam := curparam + Size(t);
      done := done + ArgBytes(t, arg);
      i := i + 1;
    }
    assert done + [] == done;
    return Called(index, params[..curparam]);
  }

  lemma PrefixGrows(done: seq<byte>, bytes: seq<byte>, m: Marshalled)
    ensures Prefix(done + bytes, m) == Prefix(done, Prefix(bytes, m))
  {
    if m.Packed? { assert done + bytes + m.bytes == done + (bytes + m.bytes); }
  }

  /** Position k is the first at which s and t differ, or the end of one of them. */
  predicate FirstDifference(s: string, t: string, k: nat) {
    k <= |s| && k <= |t| && s[..k] == t[..k] && (k < |s| && k < |t| ==> s[k] != t[k])
  }

  /** The character code at k, that of the terminator at the end. */
  function CodeAt(s: string, k: nat): int {
    if k < |s| then s[k] as int else 0
  }

  lemma EqualStrings(s: string, t: string, k: nat)
    requires FirstDifference(s, t, k)
    requires (forall i :: 0 <= i < |s| ==> s[i] != NUL) && (forall i :: 0 <= i < |t| ==> t[i] != NUL)
    ensures CodeAt(s, k) == CodeAt(t, k) <==> s == t
  {
    if CodeAt(s, k) == CodeAt(t, k) {
      assert s == s[..k] && t == t[..k];
    }
  }

  lemma {:induction false} NoNulInside(a: seq<char>, p: nat)
    requires p <= |a|
    ensures forall i :: 0 <= i < |CString(a, p)| ==> CString(a, p)[i] != NUL
    decreases |a| - p
  {
    if p < |a| && a[p] != NUL { NoNulInside(a, p + 1); }
  }

  /** strcmp of the buffer with a name: the difference of the first characters that differ, which
      is zero exactly for equal strings. */
  method Strcmp(buf: array<char>, name: string) returns (r: int)
    requires Terminated(buf[..], 0) && forall i :: 0 <= i < |name| ==> name[i] != NUL
    ensures var s := CString(buf[..], 0);
            exists k: nat :: FirstDifference(s, name, k) && r == CodeAt(s, k) - CodeAt(name, k)
    ensures r == 0 <==> CString(buf[..], 0) == name
  {
    ghost var a, s := buf[..], CString(buf[..], 0);
    var i := 0;
    while buf[i] != NUL && i < |name| && buf[i] == name[i]
      invariant 0 <= i <= |name| && i < buf.Length && Terminated(a, i) && i <= |s|
      invariant s[..i] == name[..i] && s[i..] == CString(a, i)
      decreases |name| - i
    {
      CStringStep(a, i);
      assert s[i] == s[i..][0] && s[i..][1..] == s[i + 1..];
      i := i + 1;
    }
    if a[i] != NUL {
      CStringStep(a, i);
      assert s[i] == s[i..][0];
    } else {
      assert s[i..] == "";
    }
    var c2 := if i < |name| then name[i] else NUL;
    r := buf[i] as int - c2 as int;
    NoNulInside(a, 0);
    assert FirstDifference(s, name, i) && r == CodeAt(s, i) - CodeAt(name, i);
    EqualStrings(s, name, i);
  }

  /** The first command with a name. */
  function Lookup(registry: seq<Command>, name: string, i: nat): (r: Option<nat>)
    requires i <= |registry|
    ensures r.Some? ==> r.value < |registry|
    decreases |registry| - i
  {
    if i == |registry| then None
    else if registry[i].name == name then Some(i)
    else Lookup(registry, name, i + 1)
  }

  /** What a line of at most 255 characters leads to. */
  function LineOutcome(registry: seq<Command>, line: seq<char>): Outcome
    requires CMDSIZE <= |line|
  {
    if line[0] == NUL then Nothing else
    var e := LineEnd(line, 0, CMDSIZE);
    var a := Split(line, e, ' ');
    match Lookup(registry, CString(a, 0), 0)
    case None => UnknownCommand
    case Some(i) => OutcomeOf(i, Marshal(a, 0, e, registry[i].types))
  }

  method ExecuteLine(registry: seq<Command>, buf: array<char>, params: array<byte>) returns (o: Outcome)
    requires forall i :: 0 <= i < |registry| ==> Registered(registry[i])
    requires buf.Length == CMDSIZE && LineEnd(buf[..], 0, CMDSIZE) < CMDSIZE && params.Length == CMDSIZE
    modifies buf, params
    ensures o == LineOutcome(registry, old(buf[..]))
    ensures o.Called? ==> |o.params| <= CMDSIZE && params[..|o.params|] == o.params
  {
    ghost var line := buf[..];
    if buf[0] == NUL {
      return Nothing;
    }
    var end, _ := SplitStr(buf, CMDSIZE, ' ');
    ghost var a := buf[..];
    assert a[end] == NUL;
    var i := 0;
    while i < |registry|
      invariant 0 <= i <= |registry|
      invariant Lookup(registry, CString(a, 0), 0) == Lookup(registry, CString(a, 0), i)
      invariant buf[..] == a
    {
      var r := Strcmp(buf, registry[i].name);
      if r == 0 {
        PackedSize(a, 0, end, registry[i].types);
        o := ExecuteCommand(i, registry[i], buf, end, params);
        return;
      }
      i := i + 1;
    }
    return UnknownCommand;
  }

  // ----- the round trip

  /** Strings each preceded by a separator. */
  function Join(texts: seq<string>, sep: char): string {
    if texts == [] then "" else [sep] + texts[0] + Join(texts[1..], sep)
  }

  predicate IsToken(t: string) {
    t != "" && forall i :: 0 <= i < |t| ==> t[i] != NUL && t[i] != ' '
  }

  lemma CStringOf(a: seq<char>, p: nat, t: string)
    requires p + |t| <= |a| && a[p..p + |t|] == t && (forall i :: 0 <= i < |t| ==> t[i] != NUL)
    requires p + |t| < |a| ==> a[p + |t|] == NUL
    ensures CString(a, p) == t
    decreases |t|
  {
    if t == "" {
    } else {
      assert a[p] == t[0];
      assert a[p + 1..p + 1 + |t[1..]|] == t[1..];
      CStringOf(a, p + 1, t[1..]);
    }
  }

  lemma SliceOfSlice(a: seq<char>, lo: nat, hi: nat, i: nat, j: nat)
    requires lo <= hi <= |a| && i <= j <= hi - lo
    ensures a[lo..hi][i..j] == a[lo + i..lo + j]
  {
    forall k | 0 <= k < j - i ensures a[lo..hi][i..j][k] == a[lo + i..lo + j][k] {
      assert a[lo..hi][i + k] == a[lo + (i + k)];
    }
  }

  /** From inside a token that ends at q with a terminator, the next string is the one after it. */
  lemma NextAfter(a: seq<char>, p: nat, q: nat, end: nat)
    requires p < q && end <= |a| && q + 1 < end && a[q] == NUL && a[q + 1] != NUL
    requires forall i :: p <= i < q ==> a[i] != NUL
    ensures NextStart(a, p, end) == if q + 2 < end then Some(q + 1) else None
  {
    assert IsStart(a, q + 1);
    forall k | p < k <= q ensures !IsStart(a, k) {
      assert k < q ==> a[k - 1] != NUL;
    }
  }

  /** The values of the strings, read and packed. */
  function PackTexts(types: seq<ArgType>, texts: seq<string>): (r: seq<byte>)
    requires |types| == |texts|
  {
    if types == [] then [] else ArgBytes(types[0], Parse(texts[0], 10, 0, false)) + PackTexts(types[1..], texts[1..])
  }

  /** What marshalling makes of the strings: a single character at the end is not found. */
  function Found(types: seq<ArgType>, texts: seq<string>): Marshalled
    requires |types| == |texts|
  {
    if texts != [] && |texts[|texts| - 1]| == 1 then Missing else Packed(PackTexts(types, texts))
  }

  lemma FoundStep(types: seq<ArgType>, texts: seq<string>)
    requires |types| == |texts| > 0 && !(|texts| == 1 && |texts[0]| == 1)
    ensures Found(types, texts)
         == Prefix(ArgBytes(types[0], Parse(texts[0], 10, 0, false)), Found(types[1..], texts[1..]))
  {
    if |texts| == 1 {
      assert PackTexts(types[1..], texts[1..]) == [];
    } else {
      assert texts[1..][|texts| - 2] == texts[|texts| - 1];
    }
  }

  /** Marshalling the rest of a split line from inside the token at p: exactly the strings that
      follow are found, unless the last of them is a single character. */
  lemma {:induction false} MarshalFinds(a: seq<char>, p: nat, q: nat, end: nat, types: seq<ArgType>, texts: seq<string>)
    requires |types| == |texts| && p < q && q + |Join(texts, NUL)| == end < |a| && a[end] == NUL
    requires forall i :: p <= i < q ==> a[i] != NUL
    requires a[q..end] == Join(texts, NUL)
    requires forall i :: 0 <= i < |texts| ==> IsToken(texts[i]) && Numeric(types[i])
    ensures Marshal(a, p, end, types) == Found(types, texts)
    decreases |texts|
  {
    if texts != [] {
      var t, rest := texts[0], Join(texts[1..], NUL);
      var start, next := q + 1, q + 1 + |t|;
      assert IsToken(t) && Join(texts, NUL) == [NUL] + t + rest;
      TokenAt(a, q, end, t, rest);
      NextAfter(a, p, q, end);
      if q + 2 < end {
        RestBegins(texts[1..]);
        if rest != "" { assert a[next] == a[next..end][0]; }
        CStringOf(a, start, t);
        MarshalFinds(a, start, next, end, types[1..], texts[1..]);
        FoundStep(types, texts);
      } else {
        ShortLine(texts, end - q);
      }
    }
  }

  lemma RestBegins(texts: seq<string>)
    ensures Join(texts, NUL) != "" ==> Join(texts, NUL)[0] == NUL
  {
  }

  /** A separator, a token and what follows them in the buffer. */
  lemma TokenAt(a: seq<char>, q: nat, end: nat, t: string, rest: string)
    requires q < end <= |a| && IsToken(t) && a[q..end] == [NUL] + t + rest
    ensures var start, next := q + 1, q + 1 + |t|;
            && next <= end && a[q] == NUL && a[start..next] == t && a[next..end] == rest
            && forall i :: start <= i < next ==> a[i] != NUL
  {
    var start, next := q + 1, q + 1 + |t|;
    assert a[q] == a[q..end][0];
    SliceOfSlice(a, q, end, 1, 1 + |t|);
    SliceOfSlice(a, q, end, 1 + |t|, end - q);
    assert ([NUL] + t + rest)[1..1 + |t|] == t && ([NUL] + t + rest)[1 + |t|..] == rest;
    forall i | start <= i < next ensures a[i] != NUL { assert a[i] == t[i - start]; }
  }

  /** Two characters hold a separator and a single token of one character. */
  lemma ShortLine(texts: seq<string>, len: nat)
    requires texts != [] && |Join(texts, NUL)| == len <= 2 && forall i :: 0 <= i < |texts| ==> IsToken(texts[i])
    ensures |texts| == 1 && |texts[0]| == 1
  {
    assert IsToken(texts[0]);
    assert |Join(texts, NUL)| == 1 + |texts[0]| + |Join(texts[1..], NUL)|;
    JoinLength(texts[1..]);
  }

  lemma {:induction false} JoinLength(texts: seq<string>)
    requires forall i :: 0 <= i < |texts| ==> IsToken(texts[i])
    ensures |Join(texts, NUL)| >= 2 * |texts|
  {
    if texts != [] {
      assert IsToken(texts[0]);
      JoinLength(texts[1..]);
    }
  }

  /** The line as typed: the command and its arguments, separated by spaces, then a terminator. */
  predicate IsLine(line: seq<char>, name: string, texts: seq<string>) {
    var typed := name + Join(texts, ' ');
    CMDSIZE <= |line| && |typed| < CMDSIZE && line[..|typed|] == typed && line[|typed|] == NUL
  }

  lemma {:induction false} JoinChars(texts: seq<string>)
    requires forall i :: 0 <= i < |texts| ==> IsToken(texts[i])
    ensures |Join(texts, NUL)| == |Join(texts, ' ')|
    ensures forall i :: 0 <= i < |Join(texts, ' ')| ==>
              var c := Join(texts, ' ')[i];
              c != NUL && Join(texts, NUL)[i] == if c == ' ' then NUL else c
  {
    if texts != [] {
      assert IsToken(texts[0]);
      JoinChars(texts[1..]);
    }
  }

  /** Splitting turns the separators, and nothing else, into terminators. */
  lemma LineSplits(line: seq<char>, name: string, texts: seq<string>)
    requires IsToken(name) && (forall i :: 0 <= i < |texts| ==> IsToken(texts[i])) && IsLine(line, name, texts)
    ensures var e := LineEnd(line, 0, CMDSIZE);
            && e == |name| + |Join(texts, NUL)| < |line|
            && var a := Split(line, e, ' ');
               a[..|name|] == name && a[|name|..e] == Join(texts, NUL) && a[e] == NUL
  {
    var spaced, nulled := Join(texts, ' '), Join(texts, NUL);
    var typed := name + spaced;
    JoinChars(texts);
    forall i | 0 <= i < |typed| ensures line[i] == typed[i] != NUL {
      assert line[..|typed|][i] == typed[i];
    }
    EndOfTyped(line, 0, |typed|);
    var e := |typed|;
    var a := Split(line, e, ' ');
    forall i | 0 <= i < |name| ensures a[i] == name[i] {
      assert line[i] == typed[i];
    }
    forall i | |name| <= i < e ensures a[i] == nulled[i - |name|] {
      assert line[i] == typed[i] == spaced[i - |name|];
    }
    assert a[|name|..e] == nulled;
  }

  lemma {:induction false} EndOfTyped(line: seq<char>, i: nat, e: nat)
    requires i <= e < CMDSIZE <= |line| && line[e] == NUL && forall k :: i <= k < e ==> line[k] != NUL
    ensures LineEnd(line, i, CMDSIZE) == e
    decreases e - i
  {
    if i < e { EndOfTyped(line, i + 1, e); }
  }

  lemma {:induction false} LookupFinds(registry: seq<Command>, k: nat, i: nat)
    requires i <= k < |registry| && forall j :: 0 <= j < k ==> registry[j].name != registry[k].name
    ensures Lookup(registry, registry[k].name, i) == Some(k)
    decreases k - i
  {
    if i < k { LookupFinds(registry, k, i + 1); }
  }

  /** The texts of arguments. */
  function Texts(args: seq<int>): (r: seq<string>)
    ensures |r| == |args|
  {
    seq(|args|, i requires 0 <= i < |args| => SignedText(args[i]))
  }

  lemma SignedTextIsToken(n: int)
    ensures IsToken(SignedText(n))
  {
    var m: nat := if n < 0 then -n else n;
    DigitsValue(m, 10);
    var ds := Digits(m, 10);
    forall i | 0 <= i < |ds| ensures DigitChar(ds[i], false) != NUL && DigitChar(ds[i], false) != ' ' {
      DigitReadsBack(ds[i], 10, false);
    }
  }

  function Pack(types: seq<ArgType>, args: seq<int>): (r: seq<byte>)
    requires |types| == |args|
  {
    if types == [] then [] else ArgBytes(types[0], args[0]) + Pack(types[1..], args[1..])
  }

  lemma {:induction false} TextsPack(types: seq<ArgType>, args: seq<int>)
    requires |types| == |args| && forall i :: 0 <= i < |args| ==> S64_MIN <= args[i] < S64_END
    ensures PackTexts(types, Texts(args)) == Pack(types, args)
  {
    if types != [] {
      DecimalRoundTrip(args[0], "");
      assert SignedText(args[0]) + "" == SignedText(args[0]);
      assert Texts(args)[1..] == Texts(args[1..]);
      TextsPack(types[1..], args[1..]);
    }
  }

  /** What a handler reads: the arguments one after the other, ints signed. */
  function Unpack(bytes: seq<byte>, types: seq<ArgType>): seq<int>
    decreases |types|
  {
    if types == [] || |bytes| < Size(types[0]) then [] else
    var k := Size(types[0]);
    var w := Loaded(bytes[..k]);
    [if types[0] == CMD_INT then ToS32(w) else ToS64(w)] + Unpack(bytes[k..], types[1..])
  }

  /** What survives of an argument: all of a long, an int modulo 2^32. */
  function Kept(t: ArgType, v: int): int {
    if t == CMD_INT then ToS32(v) else v
  }

  lemma ArgReadsBack(t: ArgType, v: int)
    requires S64_MIN <= v < S64_END
    ensures var w := Loaded(ArgBytes(t, v)); (if t == CMD_INT then ToS32(w) else ToS64(w)) == Kept(t, v)
  {
    ByteRange();
    if t == CMD_INT {
      BytesHoldWord(ToU32(v), 4);
      Signed32(v);
    } else {
      BytesHoldWord(ToU64(v), 8);
      Signed64(v);
    }
  }

  lemma Signed32(v: int)
    ensures ToS32(ToU32(v)) == ToS32(v)
  {
    var q, r := v / WORD32, v % WORD32;
    var x := r + 0x8000_0000;
    ModUnique(v + 0x8000_0000, WORD32, q + x / WORD32, x % WORD32);
  }

  lemma Signed64(v: int)
    requires S64_MIN <= v < S64_END
    ensures ToS64(ToU64(v)) == v
  {
    assert ToU64(v) == if v < 0 then v + Word.WORD else v;
  }

  lemma ByteRange()
    ensures Pow(256, 4) == WORD32 && Pow(256, 8) == WORD
  {
    assert Pow(256, 2) == 0x1_0000 && Pow(256, 4) == 0x1_0000_0000 && Pow(256, 6) == 0x1_0000_0000_0000;
  }

  lemma {:induction false} UnpackReadsBack(types: seq<ArgType>, args: seq<int>)
    requires |types| == |args| && forall i :: 0 <= i < |args| ==> S64_MIN <= args[i] < S64_END
    ensures |Unpack(Pack(types, args), types)| == |args|
    ensures forall i :: 0 <= i < |args| ==> Unpack(Pack(types, args), types)[i] == Kept(types[i], args[i])
  {
    if types != [] {
      var head, rest := ArgBytes(types[0], args[0]), Pack(types[1..], args[1..]);
      var k := Size(types[0]);
      assert (head + rest)[..k] == head && (head + rest)[k..] == rest;
      ArgReadsBack(types[0], args[0]);
      UnpackReadsBack(types[1..], args[1..]);
    }
  }

  /** The round trip: a registered command typed with its integer arguments is called with a buffer
      from which its handler reads exactly those arguments, ints modulo 2^32, if and only if the
      last argument is more than one character long.  A one-character last argument is dropped,
      and the command is not run. */
  lemma CommandRoundTrip(registry: seq<Command>, k: nat, args: seq<int>, line: seq<char>)
    requires k < |registry| && IsToken(registry[k].name) && |args| == |registry[k].types|
    requires forall j :: 0 <= j < k ==> registry[j].name != registry[k].name
    requires forall i :: 0 <= i < |args| ==> S64_MIN <= args[i] < S64_END && Numeric(registry[k].types[i])
    requires IsLine(line, registry[k].name, Texts(args))
    ensures var o := LineOutcome(registry, line);
            if args != [] && 0 <= args[|args| - 1] <= 9 then o == MissingArgument
            else
              && o.Called? && o.command == k
              && |Unpack(o.params, registry[k].types)| == |args|
              && forall i :: 0 <= i < |args| ==>
                   Unpack(o.params, registry[k].types)[i] == Kept(registry[k].types[i], args[i])
  {
    var types, texts := registry[k].types, Texts(args);
    forall i | 0 <= i < |texts| ensures IsToken(texts[i]) { SignedTextIsToken(args[i]); }
    LineMarshals(registry, k, texts, line);
    TextsPack(types, args);
    UnpackReadsBack(types, args);
    if args != [] { OneCharacter(args[|args| - 1]); }
  }

  /** A typed line marshals exactly its strings, unless the last is a single character. */
  lemma LineMarshals(registry: seq<Command>, k: nat, texts: seq<string>, line: seq<char>)
    requires k < |registry| && IsToken(registry[k].name) && |texts| == |registry[k].types|
    requires forall j :: 0 <= j < k ==> registry[j].name != registry[k].name
    requires forall i :: 0 <= i < |texts| ==> IsToken(texts[i]) && Numeric(registry[k].types[i])
    requires IsLine(line, registry[k].name, texts)
    ensures LineOutcome(registry, line) == OutcomeOf(k, Found(registry[k].types, texts))
  {
    var name := registry[k].name;
    LineSplits(line, name, texts);
    var e := LineEnd(line, 0, CMDSIZE);
    var a := Split(line, e, ' ');
    NameIsFirst(a, name, texts, e);
    LookupFinds(registry, k, 0);
    forall i | 0 <= i < |name| ensures a[i] != NUL { assert a[i] == a[..|name|][i]; }
    assert e > 0;
    MarshalFinds(a, 0, |name|, e, registry[k].types, texts);
  }

  lemma NameIsFirst(a: seq<char>, name: string, texts: seq<string>, e: nat)
    requires IsToken(name) && |name| <= e < |a| && a[e] == NUL
    requires a[..|name|] == name && a[|name|..e] == Join(texts, NUL)
    ensures CString(a, 0) == name
  {
    assert a[0..|name|] == name;
    if texts != [] { assert a[|name|] == a[|name|..e][0]; }
    CStringOf(a, 0, name);
  }

  lemma OneCharacter(n: int)
    ensures |SignedText(n)| == 1 <==> 0 <= n <= 9
  {
    if n >= 10 {
      assert |Digits(n, 10)| == |Digits(n / 10, 10)| + 1;
    }
  }
}
