/** The page table of malloc.c as a sequence of words, apart from the loops that change it.

    `t` holds the words of memory from `page_table` on and its first `e` words are the page
    entries.  An entry is 0 when the page is free, 1 when the page is the first of its block,
    and otherwise `1 | address of the first entry of its block`. */
module HeapTable {
  import opened Word
  import opened Wrappers

  /** The `PAGE_ENTRY_*` macros. */
  function PageEntryValid(entry: u64): nat {
    And(entry, 1)
  }

  function PageEntryStartAddr(entry: u64): nat {
    And(entry, Not64(0xFFF))
  }

  predicate IsFirstPageInBlock(entry: u64) {
    And(entry, Not64(0xFFE)) == 1
  }

  predicate Used(entry: u64) {
    entry % 2 == 1
  }

  /** The address of entry `s` of a table at `base`. */
  function EntryAddr(base: nat, s: nat): nat {
    base + 8 * s
  }

  /** What the macros select, in arithmetic. */
  lemma ValidMeans(entry: u64)
    ensures PageEntryValid(entry) != 0 <==> Used(entry)
  {
    AndOne(entry);
  }

  lemma StartAddrMeans(entry: u64)
    ensures PageEntryStartAddr(entry) == entry - entry % 4096
  {
    Pow2Values();
    AndHighMask(entry, 12, 64);
  }

  lemma FirstPageMeans(entry: u64)
    ensures IsFirstPageInBlock(entry) <==> Used(entry) && entry < 4096
  {
    var m := 0x8000_0000_0000_0000 - 2048;
    assert Not64(0xFFE) == 2 * m + 1;
    AndStep(entry, m);
    MaskedHalf(entry / 2, m);
    OnlyLowBits(entry, And(entry, 2 * m + 1));
  }

  lemma MaskedHalf(half: nat, m: nat)
    requires half < 0x8000_0000_0000_0000 && m == 0x8000_0000_0000_0000 - 2048
    ensures And(half, m) == half - half % 2048
  {
    Pow2Values();
    assert Pow2(63) == 0x8000_0000_0000_0000 && Pow2(11) == 2048;
    AndHighMask(half, 11, 63);
  }

  lemma OnlyLowBits(entry: nat, masked: nat)
    requires masked == 2 * (entry / 2 - entry / 2 % 2048) + entry % 2
    ensures masked == 1 <==> entry % 2 == 1 && entry < 4096
  {
  }

  lemma MacrosMean(entry: u64)
    ensures PageEntryValid(entry) != 0 <==> Used(entry)
    ensures PageEntryStartAddr(entry) == entry - entry % 4096
    ensures IsFirstPageInBlock(entry) <==> Used(entry) && entry < 4096
  {
    ValidMeans(entry);
    StartAddrMeans(entry);
    FirstPageMeans(entry);
  }

  lemma TagIsOr(addr: nat)
    requires addr % 2 == 0
    ensures Or(1, addr) == addr + 1
  {
    assert Pow2(1) == 2;
    OrDisjoint(1, addr / 2, 1);
  }

  predicate IsFree(t: seq<u64>, i: nat)
    requires i < |t|
  {
    !Used(t[i])
  }

  /** The number of free entries among the first k. */
  function FreeCount(t: seq<u64>, k: nat): (c: nat)
    requires k <= |t|
    ensures c <= k
  {
    if k == 0 then 0 else FreeCount(t, k - 1) + (if IsFree(t, k - 1) then 1 else 0)
  }

  /** Where the run of free entries that ends just before i begins. */
  function RunStart(t: seq<u64>, i: nat): (s: nat)
    requires i <= |t|
    ensures s <= i && (s == 0 || !IsFree(t, s - 1))
    ensures forall j :: s <= j < i ==> IsFree(t, j)
  {
    if i == 0 || !IsFree(t, i - 1) then i else RunStart(t, i - 1)
  }

  /** Where the run of free entries from i on ends, looking no further than limit. */
  function RunEnd(t: seq<u64>, limit: nat, i: nat): (r: nat)
    requires i <= limit <= |t|
    ensures i <= r <= limit && (r == limit || !IsFree(t, r))
    ensures forall j :: i <= j < r ==> IsFree(t, j)
    decreases limit - i
  {
    if i < limit && IsFree(t, i) then RunEnd(t, limit, i + 1) else i
  }

  /** The index of the n-th free entry. */
  function NthFree(t: seq<u64>, e: nat, n: nat): (i: nat)
    requires e <= |t| && 1 <= n <= FreeCount(t, e)
    ensures i < e && IsFree(t, i) && FreeCount(t, i) == n - 1
  {
    if FreeCount(t, e - 1) >= n then NthFree(t, e - 1, n) else e - 1
  }

  /** What the search loop returns: the start of the run that holds the n-th free entry. */
  function Hole(t: seq<u64>, e: nat, n: nat): Option<nat>
    requires e <= |t|
  {
    if n == 0 || FreeCount(t, e) < n then None else Some(RunStart(t, NthFree(t, e, n)))
  }

  /** n consecutive free entries at s, below limit. */
  predicate IsHole(t: seq<u64>, limit: nat, s: nat, n: nat)
    requires limit <= |t|
  {
    1 <= n && s + n <= limit && forall i :: s <= i < s + n ==> IsFree(t, i)
  }

  /** What the search is documented to return: the first contiguous region that fits. */
  ghost predicate FirstFit(t: seq<u64>, limit: nat, n: nat, r: Option<nat>)
    requires limit <= |t|
  {
    match r
    case Some(s) => IsHole(t, limit, s, n) && forall s' :: 0 <= s' < s ==> !IsHole(t, limit, s', n)
    case None => forall s' :: 0 <= s' ==> !IsHole(t, limit, s', n)
  }

  /** The search is sure to succeed only if the run holding the n-th free entry has room. */
  predicate RoomAtNthFree(t: seq<u64>, e: nat, limit: nat, n: nat)
    requires limit <= e <= |t|
  {
    n == 0 || FreeCount(t, e) < n ||
    var i := NthFree(t, e, n);
    i < limit && RunEnd(t, limit, i) - RunStart(t, i) >= n
  }

  lemma {:induction false} FreeCountMonotone(t: seq<u64>, a: nat, b: nat)
    requires a <= b <= |t|
    ensures FreeCount(t, a) <= FreeCount(t, b)
    decreases b
  {
    if a < b { FreeCountMonotone(t, a, b - 1); }
  }

  lemma {:induction false} HoleCounts(t: seq<u64>, s: nat, n: nat)
    requires s + n <= |t|
    requires forall i :: s <= i < s + n ==> IsFree(t, i)
    ensures FreeCount(t, s + n) == FreeCount(t, s) + n
  {
    if n > 0 { HoleCounts(t, s, n - 1); }
  }

  lemma {:induction false} RunEndReaches(t: seq<u64>, limit: nat, i: nat, b: nat)
    requires i <= b <= limit <= |t|
    requires forall j :: i <= j < b ==> IsFree(t, j)
    ensures RunEnd(t, limit, i) >= b
    decreases b - i
  {
    if i < b { RunEndReaches(t, limit, i + 1, b); }
  }

  /** The search finds the first fit among the first `limit` pages exactly when the run
      that holds the n-th free entry has room for the whole block. */
  lemma HoleIsFirstFit(t: seq<u64>, e: nat, limit: nat, n: nat)
    requires limit <= e <= |t|
    ensures FirstFit(t, limit, n, Hole(t, e, n)) <==> RoomAtNthFree(t, e, limit, n)
  {
    forall s: nat | IsHole(t, limit, s, n)
      ensures n <= FreeCount(t, e) && NthFree(t, e, n) < s + n
    {
      HoleCounts(t, s, n);
      FreeCountMonotone(t, s + n, e);
      var i := NthFree(t, e, n);
      if s + n <= i { FreeCountMonotone(t, s + n, i); }
    }
    if 1 <= n <= FreeCount(t, e) {
      var i := NthFree(t, e, n);
      var s := RunStart(t, i);
      if IsHole(t, limit, s, n) {
        RunEndReaches(t, limit, i, s + n);
      }
      forall s': nat | s' < s && IsHole(t, limit, s', n)
        ensures false
      {
      }
    }
  }

  /** In particular the search is right while the used pages are a prefix of the table. */
  lemma UsedPrefixHasRoom(t: seq<u64>, e: nat, n: nat)
    requires e <= |t|
    requires forall i, j :: 0 <= i < j < e && IsFree(t, i) ==> IsFree(t, j)
    ensures RoomAtNthFree(t, e, e, n)
  {
    if 1 <= n <= FreeCount(t, e) {
      var i := NthFree(t, e, n);
      var s := RunStart(t, i);
      RunEndReaches(t, e, i, e);
      NoneFree(t, s);
      HoleCounts(t, s, i - s);
    }
  }

  lemma {:induction false} NoneFree(t: seq<u64>, s: nat)
    requires s <= |t|
    requires forall i :: 0 <= i < s ==> !IsFree(t, i)
    ensures FreeCount(t, s) == 0
  {
    if s > 0 { NoneFree(t, s - 1); }
  }

  predicate FreeTo(t: seq<u64>, i: nat, n: nat)
    requires i < |t|
  {
    IsFree(t, i) && FreeCount(t, i) + 1 == n
  }

  /** The first index that brings the count of free entries to n is the n-th free entry. */
  lemma NthFreeIs(t: seq<u64>, e: nat, n: nat, i: nat)
    requires i < e <= |t| && 1 <= n && FreeTo(t, i, n)
    ensures n <= FreeCount(t, e) && NthFree(t, e, n) == i
  {
    FreeCountMonotone(t, i + 1, e);
    FreeIndex(t, i, NthFree(t, e, n));
  }

  lemma FreeIndex(t: seq<u64>, i: nat, k: nat)
    requires i < |t| && k < |t| && IsFree(t, i) && IsFree(t, k)
    ensures FreeCount(t, i) == FreeCount(t, k) ==> i == k
  {
    if i < k { FreeCountMonotone(t, i + 1, k); }
    if k < i { FreeCountMonotone(t, k + 1, i); }
  }

  /** The search stops there, and returns the start of the run of free pages it is in. */
  lemma HoleAt(t: seq<u64>, e: nat, n: nat, i: nat)
    requires i < e <= |t| && 1 <= n && FreeTo(t, i, n)
    ensures Hole(t, e, n) == Some(RunStart(t, i))
  {
    NthFreeIs(t, e, n, i);
  }

  /** Whatever the table holds, the search returns s exactly when the n-th free entry lies in a run of
      free entries that begins at s, however long that run is. */
  lemma {:induction false} HoleMeans(t: seq<u64>, e: nat, n: nat, s: nat)
    requires e <= |t|
    ensures Hole(t, e, n) == Some(s) <==> exists i: nat :: i < e && NthFreeInRun(t, n, s, i)
    ensures Hole(t, e, n) == None <==> n == 0 || FreeCount(t, e) < n
  {
    if i: nat :| i < e && NthFreeInRun(t, n, s, i) {
      HoleAt(t, e, n, i);
      RunBegins(t, s, i);
    }
    if Hole(t, e, n) == Some(s) {
      assert NthFreeInRun(t, n, s, NthFree(t, e, n));
    }
  }

  predicate NthFreeInRun(t: seq<u64>, n: nat, s: nat, i: nat)
    requires i < |t|
  {
    && n >= 1 && FreeTo(t, i, n) && s <= i
    && (forall j :: s <= j <= i ==> IsFree(t, j)) && (s == 0 || !IsFree(t, s - 1))
  }

  lemma {:induction false} RunBegins(t: seq<u64>, s: nat, i: nat)
    requires s <= i < |t| && (forall j :: s <= j <= i ==> IsFree(t, j)) && (s == 0 || !IsFree(t, s - 1))
    ensures RunStart(t, i) == s
  {
    if s < i { RunBegins(t, s, i - 1); }
  }

  /** The table after entries s to s + n - 1 are marked used. */
  function Marked(t: seq<u64>, base: nat, s: nat, n: nat): (r: seq<u64>)
    requires 1 <= n && s + n <= |t| && EntryAddr(base, s) + 1 < WORD
    ensures |r| == |t|
    ensures forall i :: 0 <= i < |t| ==>
              r[i] == if i == s then 1 else if s < i < s + n then EntryAddr(base, s) + 1 else t[i]
  {
    seq(|t|, i requires 0 <= i < |t| =>
      if i == s then 1 else if s < i < s + n then EntryAddr(base, s) + 1 else t[i])
  }

  /** The first index from k on whose word does not carry the (masked) tag. */
  function TagEnd(t: seq<u64>, k: nat, addr: nat): (r: nat)
    requires k <= |t|
    ensures k <= r <= |t|
    ensures forall i :: k <= i < r ==> PageEntryStartAddr(t[i]) == addr
    ensures r < |t| ==> PageEntryStartAddr(t[r]) != addr
    decreases |t| - k
  {
    if k < |t| && PageEntryStartAddr(t[k]) == addr then TagEnd(t, k + 1, addr) else k
  }

  function Zeroed(t: seq<u64>, a: nat, b: nat): (r: seq<u64>)
    requires b <= |t|
    ensures |r| == |t|
    ensures forall i :: 0 <= i < |t| ==> r[i] == if a <= i < b then 0 else t[i]
  {
    seq(|t|, i requires 0 <= i < |t| => if a <= i < b then 0 else t[i])
  }

  /** The table after the block whose first entry is s is freed. */
  function Freed(t: seq<u64>, base: nat, s: nat): (r: seq<u64>)
    requires s < |t|
    ensures |r| == |t|
  {
    Zeroed(t, s, TagEnd(t, s + 1, EntryAddr(base, s)))
  }

  /** In general free clears the first entry and the words behind it for as long as they carry, after
      masking, its address. */
  lemma FreedMeans(t: seq<u64>, base: nat, s: nat, i: nat)
    requires s < |t| && i < |t|
    ensures Freed(t, base, s)[i]
         == if i == s || (i > s && forall j :: s < j <= i ==> PageEntryStartAddr(t[j]) == EntryAddr(base, s)) then 0
            else t[i]
  {
    var r := TagEnd(t, s + 1, EntryAddr(base, s));
    if r <= i { assert PageEntryStartAddr(t[r]) != EntryAddr(base, s); }
  }
}
