/** C strings: characters up to a terminator. */
module CStrings {

  const NUL: char := '\0'

  /** The characters up to the terminator. */
  function CString(a: seq<char>, at: nat): string
    requires at <= |a|
    decreases |a| - at
  {
    if at == |a| || a[at] == NUL then "" else [a[at]] + CString(a, at + 1)
  }

  predicate Terminated(a: seq<char>, at: nat) {
    exists k :: at <= k < |a| && a[k] == NUL
  }

  lemma CStringStep(a: seq<char>, i: nat)
    requires i < |a| && a[i] != NUL
    ensures CString(a, i) != "" && CString(a, i)[0] == a[i] && CString(a, i)[1..] == CString(a, i + 1)
  {
  }
}
