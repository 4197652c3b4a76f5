/** string.c: splitting a buffer into strings in place, and walking over them. */
module StringSplit {
  import opened CStrings
  import opened Wrappers

  /** The first terminator from i on, or `size` when there is none before it. */
  function LineEnd(a: seq<char>, i: nat, size: nat): (e: nat)
    requires i <= size <= |a|
    ensures i <= e <= size && (e < size ==> a[e] == NUL)
    ensures forall k :: i <= k < e ==> a[k] != NUL
    decreases size - i
  {
    if i == size || a[i] == NUL then i else LineEnd(a, i + 1, size)
  }

  /** The buffer with every token before position e made a terminator. */
  function Split(a: seq<char>, e: nat, token: char): (r: seq<char>)
    requires e <= |a|
    ensures |r| == |a|
    ensures forall i :: 0 <= i < |a| ==> r[i] == if i < e && a[i] == token then NUL else a[i]
  {
    seq(|a|, i requires 0 <= i < |a| => if i < e && a[i] == token then NUL else a[i])
  }

  /** The positions the loop of split_str reads: it reads one before it compares positions. */
  function BytesRead(a: seq<char>, i: nat, size: nat): set<nat>
    requires i <= size <= |a|
    decreases size - i
  {
    {i} + (if i < size && a[i] != NUL then BytesRead(a, i + 1, size) else {})
  }

  /** Everything up to the end of the line is read, and nothing else; so the byte behind the
      buffer is read exactly when the buffer holds no terminator. */
  lemma {:induction false} ReadsToLineEnd(a: seq<char>, i: nat, size: nat)
    requires i <= size <= |a|
    ensures forall k: nat :: k in BytesRead(a, i, size) <==> i <= k <= LineEnd(a, i, size)
    ensures size in BytesRead(a, i, size) <==> forall k :: i <= k < size ==> a[k] != NUL
    decreases size - i
  {
    if i < size && a[i] != NUL { ReadsToLineEnd(a, i + 1, size); }
  }

  /** Makes every token a terminator and returns where the line ends. */
  method SplitStr(buf: array<char>, size: nat, token: char) returns (cur: nat, ghost read: set<nat>)
    requires size <= buf.Length
    requires size < buf.Length || LineEnd(buf[..], 0, size) < size
    modifies buf
    ensures cur == LineEnd(old(buf[..]), 0, size)
    ensures buf[..] == Split(old(buf[..]), cur, token)
    ensures read == BytesRead(old(buf[..]), 0, size)
  {
    ghost var was := buf[..];
    cur, read := 0, {0};
    while buf[cur] != NUL && cur < size
      invariant 0 <= cur <= size && cur < buf.Length
      invariant LineEnd(was, 0, size) == LineEnd(was, cur, size)
      invariant buf[..] == Split(was, cur, token)
      invariant cur in read && read + BytesRead(was, cur, size) == BytesRead(was, 0, size)
      decreases size - cur
    {
      assert was[cur] == buf[cur];
      if buf[cur] == token {
        buf[cur] := NUL;
      }
      cur := cur + 1;
      read := read + {cur};
    }
    assert was[cur] == buf[cur];
    assert BytesRead(was, cur, size) == {cur};
  }

  /** A string starts at p, right after a terminator. */
  predicate IsStart(a: seq<char>, p: nat) {
    1 <= p < |a| && a[p] != NUL && a[p - 1] == NUL
  }

  /** The first string that starts after p, not counting one that is the last byte before `end`. */
  function NextStart(a: seq<char>, p: nat, end: nat): (r: Option<nat>)
    requires end <= |a|
    ensures match r
            case Some(q) => p < q && q + 1 < end && IsStart(a, q) && forall k :: p < k < q ==> !IsStart(a, k)
            case None => forall k :: p < k && k + 1 < end ==> !IsStart(a, k)
    decreases if p < end then end - p else 0
  {
    if p + 2 >= end then None
    else if IsStart(a, p + 1) then Some(p + 1)
    else NextStart(a, p + 1, end)
  }

  /** Two loops: to the next terminator, and on to the byte after the run of terminators. */
  method SplitGetNext(buf: array<char>, from: nat, end: nat) returns (r: Option<nat>)
    requires end <= buf.Length
    ensures r == NextStart(buf[..], from, end)
  {
    ghost var a := buf[..];
    var cur := from;
    while cur < end - 1 && buf[cur] != NUL
      invariant from <= cur && (from < end ==> cur < end) && (from >= end ==> cur == from)
      invariant NextStart(a, from, end) == NextStart(a, cur, end)
      decreases end - cur
    {
      assert !IsStart(a, cur + 1);
      cur := cur + 1;
    }
    ghost var stop := cur;
    while cur < end - 1 && buf[cur] == NUL
      invariant stop <= cur && (from < end ==> cur < end) && (from >= end ==> cur == from)
      invariant cur > stop ==> buf[cur - 1] == NUL && NextStart(a, from, end) == NextStart(a, cur - 1, end)
      invariant cur == stop ==> NextStart(a, from, end) == NextStart(a, cur, end)
      decreases end - cur
    {
      assert cur > stop ==> !IsStart(a, cur);
      cur := cur + 1;
    }
    if cur >= end - 1 {
      return None;
    }
    return Some(cur);
  }

  /** The starts that repeated calls return. */
  function Starts(a: seq<char>, p: nat, end: nat): seq<nat>
    requires end <= |a|
    decreases if p < end then end - p else 0
  {
    match NextStart(a, p, end)
    case None => []
    case Some(q) => [q] + Starts(a, q, end)
  }

  lemma {:induction false} WalkFinds(a: seq<char>, p: nat, end: nat, q: nat)
    requires end <= |a|
    ensures q in Starts(a, p, end) <==> p < q && q + 1 < end && IsStart(a, q)
    decreases if p < end then end - p else 0
  {
    match NextStart(a, p, end)
    case None =>
    case Some(next) =>
      WalkFinds(a, next, end, q);
  }

  lemma {:induction false} WalkIncreases(a: seq<char>, p: nat, end: nat, i: nat, j: nat)
    requires end <= |a| && i < j < |Starts(a, p, end)|
    ensures p < Starts(a, p, end)[i] < Starts(a, p, end)[j]
    decreases if p < end then end - p else 0
  {
    var q := NextStart(a, p, end).value;
    if i > 0 {
      WalkIncreases(a, q, end, i - 1, j - 1);
    } else {
      assert Starts(a, p, end)[j] == Starts(a, q, end)[j - 1];
      WalkFinds(a, q, end, Starts(a, q, end)[j - 1]);
    }
  }

  /** Walking over the buffer yields every string that starts after the first position and
      before the last byte, each once and in order. */
  lemma WalkFindsAll(a: seq<char>, p: nat, end: nat)
    requires end <= |a|
    ensures forall q: nat :: q in Starts(a, p, end) <==> p < q && q + 1 < end && IsStart(a, q)
    ensures forall i, j :: 0 <= i < j < |Starts(a, p, end)| ==> Starts(a, p, end)[i] < Starts(a, p, end)[j]
  {
    forall q: nat ensures q in Starts(a, p, end) <==> p < q && q + 1 < end && IsStart(a, q) {
      WalkFinds(a, p, end, q);
    }
    forall i, j | 0 <= i < j < |Starts(a, p, end)| ensures Starts(a, p, end)[i] < Starts(a, p, end)[j] {
      WalkIncreases(a, p, end, i, j);
    }
  }

  /** In terms of the line before it was split: the strings found are the runs without the token
      that begin right after a token and before the last character of the line. */
  lemma WalkFindsRuns(line: seq<char>, size: nat, token: char, q: nat)
    requires size <= |line| && token != NUL
    ensures var e := LineEnd(line, 0, size);
            q in Starts(Split(line, e, token), 0, e)
            <==> 1 <= q && q + 1 < e && line[q] != token && line[q - 1] == token
  {
    var e := LineEnd(line, 0, size);
    WalkFinds(Split(line, e, token), 0, e, q);
  }
}
