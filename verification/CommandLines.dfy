/** What execute_line makes of a line, in terms of the line as it was typed. */
module CommandLines {
  import opened CStrings
  import opened Wrappers
  import opened NumberText
  import opened StringSplit
  import opened Console

  /** Where the token at p ends: at a space or at the end of the line. */
  function TokenEnd(line: seq<char>, p: nat, e: nat): (q: nat)
    requires p <= e <= |line|
    ensures p <= q <= e && (q == e || line[q] == ' ')
    ensures forall i :: p <= i < q ==> line[i] != ' '
    decreases e - p
  {
    if p == e || line[p] == ' ' then p else TokenEnd(line, p + 1, e)
  }

  function Token(line: seq<char>, p: nat, e: nat): string
    requires p <= e <= |line|
  {
    line[p..TokenEnd(line, p, e)]
  }

  /** An argument begins at q: after a space, with another character, and before the last character
      of the line, at which the code does not look. */
  predicate ArgumentAt(line: seq<char>, e: nat, q: nat)
    requires e <= |line|
  {
    1 <= q && q + 1 < e && line[q] != ' ' && line[q - 1] == ' '
  }

  predicate Increasing(s: seq<nat>) {
    forall i, j :: 0 <= i < j < |s| ==> s[i] < s[j]
  }

  /** The positions of all arguments, in order. */
  ghost predicate AreArguments(line: seq<char>, e: nat, st: seq<nat>)
    requires e <= |line|
  {
    Increasing(st) && forall q: nat :: q in st <==> ArgumentAt(line, e, q)
  }

  function Tokens(line: seq<char>, st: seq<nat>, e: nat): (r: seq<string>)
    requires e <= |line| && forall i :: 0 <= i < |st| ==> st[i] <= e
    ensures |r| == |st|
  {
    if st == [] then [] else [Token(line, st[0], e)] + Tokens(line, st[1..], e)
  }

  /** The first command with a name. */
  predicate FirstNamed(registry: seq<Command>, name: string, k: nat) {
    k < |registry| && registry[k].name == name && forall j :: 0 <= j < k ==> registry[j].name != name
  }

  /** The types are int, long or pointer. */
  predicate AllNumeric(types: seq<ArgType>) {
    types == [] || (types[0] != CMD_END && types[0] != CMD_STR && AllNumeric(types[1..]))
  }

  // ----- tokens

  lemma {:induction false} TokenIs(line: seq<char>, p: nat, e: nat)
    requires p <= e < |line| && line[e] == NUL && forall i :: 0 <= i < e ==> line[i] != NUL
    ensures CString(Split(line, e, ' '), p) == Token(line, p, e)
    decreases e - p
  {
    if p < e && line[p] != ' ' {
      TokenIs(line, p + 1, e);
      assert line[p..TokenEnd(line, p, e)] == [line[p]] + line[p + 1..TokenEnd(line, p, e)];
    }
  }

  lemma BothEmpty(s: seq<nat>, t: seq<nat>)
    requires forall q: nat :: q in s <==> q in t
    ensures s == [] <==> t == []
  {
    if s != [] { assert s[0] in t; }
    if t != [] { assert t[0] in s; }
  }

  lemma {:induction false} IncreasingUnique(s: seq<nat>, t: seq<nat>)
    requires Increasing(s) && Increasing(t) && forall q: nat :: q in s <==> q in t
    ensures s == t
  {
    BothEmpty(s, t);
    if s != [] {
      assert s[0] in s && t[0] in t;
      FirstIsLeast(s, t[0]);
      FirstIsLeast(t, s[0]);
      forall q: nat ensures q in s[1..] <==> q in t[1..] {
        RestIsAbove(s, q);
        RestIsAbove(t, q);
      }
      IncreasingUnique(s[1..], t[1..]);
      assert s == [s[0]] + s[1..] && t == [t[0]] + t[1..];
    }
  }

  lemma FirstIsLeast(s: seq<nat>, q: nat)
    requires Increasing(s) && q in s
    ensures s[0] <= q
  {
  }

  lemma RestIsAbove(s: seq<nat>, q: nat)
    requires Increasing(s) && s != []
    ensures q in s[1..] <==> q in s && q != s[0]
  {
    if q in s[1..] {
      var i :| 0 <= i < |s[1..]| && s[1..][i] == q;
      assert s[i + 1] == q;
    }
    if q in s && q != s[0] {
      var i :| 0 <= i < |s| && s[i] == q;
      assert s[1..][i - 1] == q;
    }
  }

  /** The walk over the split line finds exactly the arguments. */
  lemma ArgumentsAreStarts(line: seq<char>, st: seq<nat>)
    requires CMDSIZE <= |line|
    requires AreArguments(line, LineEnd(line, 0, CMDSIZE), st)
    ensures var e := LineEnd(line, 0, CMDSIZE); Starts(Split(line, e, ' '), 0, e) == st
  {
    var e := LineEnd(line, 0, CMDSIZE);
    var found := Starts(Split(line, e, ' '), 0, e);
    WalkFindsAll(Split(line, e, ' '), 0, e);
    forall q: nat ensures q in found <==> q in st {
      WalkFindsRuns(line, CMDSIZE, ' ', q);
    }
    IncreasingUnique(found, st);
  }

  // ----- marshalling

  /** The strings at some positions. */
  function Strings(a: seq<char>, st: seq<nat>): (r: seq<string>)
    requires forall i :: 0 <= i < |st| ==> st[i] <= |a|
    ensures |r| == |st|
  {
    if st == [] then [] else [CString(a, st[0])] + Strings(a, st[1..])
  }

  lemma {:induction false} StartsInside(a: seq<char>, p: nat, end: nat)
    requires end <= |a|
    ensures forall i :: 0 <= i < |Starts(a, p, end)| ==> Starts(a, p, end)[i] <= end
    decreases if p < end then end - p else 0
  {
    if NextStart(a, p, end).Some? {
      StartsInside(a, NextStart(a, p, end).value, end);
    }
  }

  /** What is to become of the strings that start at `st`. */
  function Intended(a: seq<char>, st: seq<nat>, types: seq<ArgType>): Marshalled
    requires forall i :: 0 <= i < |st| ==> st[i] <= |a|
  {
    if |types| <= |st| && AllNumeric(types) then Packed(PackTexts(types, Strings(a, st[..|types|])))
    else if |st| < |types| && AllNumeric(types[..|st|]) then Missing
    else Unsupported
  }

  lemma IntendedStep(a: seq<char>, st: seq<nat>, types: seq<ArgType>, bytes: seq<byte>)
    requires (forall i :: 0 <= i < |st| ==> st[i] <= |a|) && st != [] && types != []
    requires bytes == ArgBytes(types[0], Parse(CString(a, st[0]), 10, 0, false))
    ensures Intended(a, st, types)
         == if Numeric(types[0]) then Prefix(bytes, Intended(a, st[1..], types[1..])) else Unsupported
  {
    if |types| <= |st| {
      PackStep(a, st, st[1..], types, types[1..]);
      EnoughStep(a, st, st[1..], types, types[1..], bytes);
    } else {
      ShortStep(a, st, st[1..], types, types[1..], bytes);
    }
  }

  lemma EnoughStep(a: seq<char>, st: seq<nat>, st1: seq<nat>, types: seq<ArgType>, types1: seq<ArgType>,
                   bytes: seq<byte>)
    requires (forall i :: 0 <= i < |st| ==> st[i] <= |a|) && 1 <= |types| <= |st|
    requires st1 == st[1..] && types1 == types[1..]
    requires PackTexts(types, Strings(a, st[..|types|])) == bytes + PackTexts(types1, Strings(a, st1[..|types1|]))
    ensures Intended(a, st, types)
         == if Numeric(types[0]) then Prefix(bytes, Intended(a, st1, types1)) else Unsupported
  {
  }

  lemma ShortStep(a: seq<char>, st: seq<nat>, st1: seq<nat>, types: seq<ArgType>, types1: seq<ArgType>,
                  bytes: seq<byte>)
    requires (forall i :: 0 <= i < |st| ==> st[i] <= |a|) && 1 <= |st| < |types|
    requires st1 == st[1..] && types1 == types[1..]
    ensures Intended(a, st, types)
         == if Numeric(types[0]) then Prefix(bytes, Intended(a, st1, types1)) else Unsupported
  {
    PrefixTail(types, |st|);
  }

  lemma PackStep(a: seq<char>, st: seq<nat>, st1: seq<nat>, types: seq<ArgType>, types1: seq<ArgType>)
    requires (forall i :: 0 <= i < |st| ==> st[i] <= |a|) && 1 <= |types| <= |st|
    requires st1 == st[1..] && types1 == types[1..]
    ensures PackTexts(types, Strings(a, st[..|types|]))
         == ArgBytes(types[0], Parse(CString(a, st[0]), 10, 0, false)) + PackTexts(types1, Strings(a, st1[..|types1|]))
  {
    PrefixTail(st, |types|);
  }

  /** Marshalling goes wrong at the first argument that is not there or type that is not numeric, and
      otherwise packs the values of the arguments in order. */
  lemma {:induction false} MarshalOutcome(a: seq<char>, p: nat, end: nat, types: seq<ArgType>)
    requires end <= |a|
    ensures forall i :: 0 <= i < |Starts(a, p, end)| ==> Starts(a, p, end)[i] <= |a|
    ensures Marshal(a, p, end, types) == Intended(a, Starts(a, p, end), types)
    decreases |types|
  {
    StartsInside(a, p, end);
    var st := Starts(a, p, end);
    if types != [] && NextStart(a, p, end).Some? {
      var q := NextStart(a, p, end).value;
      MarshalOutcome(a, q, end, types[1..]);
      assert st[0] == q && st[1..] == Starts(a, q, end);
      IntendedStep(a, st, types, ArgBytes(types[0], Parse(CString(a, q), 10, 0, false)));
    }
  }

  lemma PrefixTail<T>(s: seq<T>, n: nat)
    requires 1 <= n <= |s|
    ensures s[..n][0] == s[0] && s[..n][1..] == s[1..][..n - 1]
  {
  }

  // ----- the line

  lemma {:induction false} LookupIs(registry: seq<Command>, name: string, i: nat)
    requires i <= |registry| && forall j :: 0 <= j < i ==> registry[j].name != name
    ensures match Lookup(registry, name, i)
            case Some(k) => FirstNamed(registry, name, k)
            case None => forall k :: 0 <= k < |registry| ==> registry[k].name != name
    decreases |registry| - i
  {
    if i < |registry| && registry[i].name != name { LookupIs(registry, name, i + 1); }
  }

  /** What the command at k, with its types, is to make of the arguments at `st`: a call with the
      values of as many of them as there are types, when these are numeric; a refusal for a missing
      argument, when there are fewer and the types of those there are numeric; otherwise a refusal for
      a type. */
  function Due(k: nat, types: seq<ArgType>, line: seq<char>, st: seq<nat>, e: nat): Outcome
    requires e <= |line| && forall i :: 0 <= i < |st| ==> st[i] <= e
  {
    if |types| <= |st| && AllNumeric(types) then Called(k, PackTexts(types, Tokens(line, st[..|types|], e)))
    else if |st| < |types| && AllNumeric(types[..|st|]) then MissingArgument
    else BadType
  }

  lemma ArgumentsInside(line: seq<char>, e: nat, st: seq<nat>)
    requires e <= |line| && AreArguments(line, e, st)
    ensures forall i :: 0 <= i < |st| ==> st[i] <= e
  {
    forall i | 0 <= i < |st| ensures st[i] <= e { assert st[i] in st; }
  }

  lemma {:induction false} TokensAreStrings(line: seq<char>, st: seq<nat>, e: nat)
    requires e < |line| && line[e] == NUL && forall i :: 0 <= i < e ==> line[i] != NUL
    requires forall i :: 0 <= i < |st| ==> st[i] <= e
    ensures Strings(Split(line, e, ' '), st) == Tokens(line, st, e)
  {
    if st != [] {
      TokenIs(line, st[0], e);
      TokensAreStrings(line, st[1..], e);
    }
  }

  lemma MarshalIsDue(k: nat, types: seq<ArgType>, line: seq<char>, st: seq<nat>, e: nat)
    requires CMDSIZE <= |line| && e == LineEnd(line, 0, CMDSIZE) < CMDSIZE && AreArguments(line, e, st)
    ensures forall i :: 0 <= i < |st| ==> st[i] <= e
    ensures OutcomeOf(k, Marshal(Split(line, e, ' '), 0, e, types)) == Due(k, types, line, st, e)
  {
    ArgumentsInside(line, e, st);
    ArgumentsAreStarts(line, st);
    MarshalOutcome(Split(line, e, ' '), 0, e, types);
    if |types| <= |st| { TokensAreStrings(line, st[..|types|], e); }
  }

  lemma LineIsLookup(registry: seq<Command>, line: seq<char>, e: nat, r: Option<nat>)
    requires CMDSIZE <= |line| && 0 < e == LineEnd(line, 0, CMDSIZE) < CMDSIZE
    requires r == Lookup(registry, Token(line, 0, e), 0)
    ensures LineOutcome(registry, line)
         == match r
            case None => UnknownCommand
            case Some(k) => OutcomeOf(k, Marshal(Split(line, e, ' '), 0, e, registry[k].types))
  {
    TokenIs(line, 0, e);
  }

  lemma NamedLine(registry: seq<Command>, line: seq<char>, st: seq<nat>, e: nat, k: nat)
    requires CMDSIZE <= |line| && e == LineEnd(line, 0, CMDSIZE) < CMDSIZE && AreArguments(line, e, st)
    requires e > 0 && FirstNamed(registry, Token(line, 0, e), k)
    ensures forall i :: 0 <= i < |st| ==> st[i] <= e
    ensures LineOutcome(registry, line) == Due(k, registry[k].types, line, st, e)
  {
    LookupFinds(registry, k, 0);
    LineIsLookup(registry, line, e, Some(k));
    MarshalIsDue(k, registry[k].types, line, st, e);
  }

  predicate NoneNamed(registry: seq<Command>, name: string) {
    forall k :: 0 <= k < |registry| ==> registry[k].name != name
  }

  lemma {:induction false} SomeNamed(registry: seq<Command>, name: string) returns (r: Option<nat>)
    ensures r == Lookup(registry, name, 0)
    ensures match r case Some(k) => FirstNamed(registry, name, k) case None => NoneNamed(registry, name)
  {
    LookupIs(registry, name, 0);
    r := Lookup(registry, name, 0);
  }

  /** The outcome of a line that ends at e, has that name in front and its arguments at `st`: an
      empty line leads to nothing, and one whose name no command has to an error; otherwise the first
      command with that name does what is due, and no other is ever called. */
  ghost predicate AsTyped(registry: seq<Command>, line: seq<char>, e: nat, name: string, st: seq<nat>, o: Outcome)
    requires e <= |line| && forall i :: 0 <= i < |st| ==> st[i] <= e
  {
    && (o == Nothing <==> e == 0)
    && (o == UnknownCommand <==> e > 0 && NoneNamed(registry, name))
    && (forall k: nat :: e > 0 && FirstNamed(registry, name, k) ==> o == Due(k, registry[k].types, line, st, e))
    && (o.Called? ==> FirstNamed(registry, name, o.command))
  }

  lemma DueAsTyped(registry: seq<Command>, line: seq<char>, e: nat, name: string, st: seq<nat>, k: nat)
    requires 0 < e <= |line| && (forall i :: 0 <= i < |st| ==> st[i] <= e) && FirstNamed(registry, name, k)
    ensures AsTyped(registry, line, e, name, st, Due(k, registry[k].types, line, st, e))
  {
    forall j: nat | FirstNamed(registry, name, j) ensures j == k {}
  }

  /** What every line leads to.  Its name is the text before the first space, and `st` are the
      positions of its arguments. */
  lemma LineMeans(registry: seq<Command>, line: seq<char>, st: seq<nat>)
    requires CMDSIZE <= |line| && LineEnd(line, 0, CMDSIZE) < CMDSIZE
    requires AreArguments(line, LineEnd(line, 0, CMDSIZE), st)
    ensures forall i :: 0 <= i < |st| ==> st[i] <= LineEnd(line, 0, CMDSIZE)
    ensures var e := LineEnd(line, 0, CMDSIZE);
            AsTyped(registry, line, e, Token(line, 0, e), st, LineOutcome(registry, line))
  {
    var e := LineEnd(line, 0, CMDSIZE);
    ArgumentsInside(line, e, st);
    if e > 0 {
      var r := SomeNamed(registry, Token(line, 0, e));
      match r {
        case None => LineIsLookup(registry, line, e, None);
        case Some(k) =>
          NamedLine(registry, line, st, e, k);
          DueAsTyped(registry, line, e, Token(line, 0, e), st, k);
      }
    }
  }
}
