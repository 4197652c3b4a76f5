/** Runs from a successful init in which malloc and free do not do what malloc.c documents. */
module HeapExamples {
  import opened Word
  import opened Wrappers
  import opened Util
  import opened HeapTable
  import opened HeapBlocks
  import opened HeapCalls
  import opened HeapRuns
  import opened HeapSafety

  /** A fresh heap grants a request for more pages than the region has,
      as long as the table has entries for them. */
  lemma FreshHeapOverruns(l: Layout, t: seq<u64>, bytes: nat)
    requires Laid(l, |t|) && forall i :: 0 <= i < l.entries ==> t[i] == 0
    requires Pages(l) < NumPages(l, bytes) <= l.entries
    ensures MallocHole(l, t, bytes) == Some(0) && BlockStart(l, NumPages(l, bytes)) > l.top + l.size
    ensures !RoomAtNthFree(t, l.entries, Pages(l), NumPages(l, bytes))
  {
    DivModParts(l.size, l.pageSize);
    MulMonotone(Pages(l) + 1, NumPages(l, bytes), l.pageSize);
    MulSum(Pages(l), 1, l.pageSize);
    var n := NumPages(l, bytes);
    HoleCounts(t, 0, l.entries);
    var i := NthFree(t, l.entries, n);
    HoleCounts(t, 0, i);
  }

  /** For instance, 32 KiB at 64 KiB in pages of 4 KiB give eight entries for seven pages, and a
      request for all 32 KiB is granted. */
  lemma SmallHeapOverruns(start: nat, bytes: nat, page: nat, t: seq<u64>)
    requires start == 0x1_0000 && bytes == 0x8000 && page == 4096
    requires |t| == 0x1000 && forall i :: 0 <= i < |t| ==> t[i] == 0
    ensures InitSucceeds(start, bytes, page) && Top(start, bytes, page) <= start + bytes
    ensures var l := InitLayout(start, bytes, page);
            && l.entries == 8 && Heap(l, t, map[]) && Pages(l) == 7
            && MallocHole(l, t, bytes) == Some(0) && BlockStart(l, 8) > start + bytes
  {
    SmallLayout(start, bytes, page);
    var l := Layout(0x1_1000, 0x7000, start, 8, page);
    EmptyHeap(l, t);
    FreshHeapOverruns(l, t, bytes);
  }

  lemma SmallLayout(start: nat, bytes: nat, page: nat)
    requires start == 0x1_0000 && bytes == 0x8000 && page == 4096
    ensures InitSucceeds(start, bytes, page) && Top(start, bytes, page) <= start + bytes
    ensures InitLayout(start, bytes, page) == Layout(0x1_1000, 0x7000, start, 8, page)
  {
    assert IsPowerOfTwo(page) by { assert Pow2(12) == page by { Pow2Values(); } }
    RoomyInit(start, bytes, page, 0x11, 7);
  }

  /** Init succeeds when page k is the first behind the table and n pages, n >= 1, follow. */
  lemma RoomyInit(start: nat, bytes: nat, page: nat, k: nat, n: nat)
    requires 4096 <= page <= bytes && IsPowerOfTwo(page) && start + bytes <= ADDRESS_SPACE && n >= 1
    requires var end := EntryAddr(start, Entries(bytes, page)); end <= k * page < end + page
    requires start + bytes == (k + n) * page
    ensures page < WORD && InitSucceeds(start, bytes, page) && Top(start, bytes, page) <= start + bytes
    ensures InitLayout(start, bytes, page) == Layout(k * page, n * page, start, Entries(bytes, page), page)
  {
    var top, size := k * page, n * page;
    MulSum(k, n, page);
    MulMonotone(1, n, page);
    RoomyTop(start, bytes, page, k);
    AlignedIsKept(n, page);
    PageIsEnough(start, bytes, page, k);
    LayoutIs(start, bytes, page, top, size);
  }

  lemma LayoutIs(start: nat, bytes: nat, page: nat, top: nat, size: nat)
    requires 0 < page < WORD && start + bytes == top + size
    requires Top(start, bytes, page) == top && AlignDown(size, page) == size
    ensures InitLayout(start, bytes, page) == Layout(top, size, start, Entries(bytes, page), page)
  {
    assert start + bytes - top == size;
  }

  lemma AlignedIsKept(n: nat, page: nat)
    requires IsPowerOfTwo(page) && n * page < WORD
    ensures page < WORD && AlignDown(n * page, page) == n * page
  {
    AlignDownRounds(n * page, page);
    ModUnique(n * page, page, n, 0);
  }

  lemma RoomyTop(start: nat, bytes: nat, page: nat, k: nat)
    requires 4096 <= page <= bytes && IsPowerOfTwo(page) && start + bytes + page < WORD
    requires var end := EntryAddr(start, Entries(bytes, page)); end <= k * page < end + page
    ensures page < WORD && Top(start, bytes, page) == k * page
  {
    var end := EntryAddr(start, Entries(bytes, page));
    EntriesSmall(bytes, page);
    Fits(end);
    AlignUpRounds(end, page);
    SameMultiple(CeilDiv(end, page), k, page, end);
  }

  // ----- following a run

  /** The rest of a run goes on from the state after its first call. */
  lemma RunVia(l: Layout, t: seq<u64>, b: Blocks, calls: seq<Call>, k: nat, t': seq<u64>, b': Blocks)
    requires Laid(l, |t|) && k < |calls| && After(l, t, calls[k]) == t' && Held(l, t, b, calls[k]) == b'
    ensures RunTable(l, t, calls[k..]) == RunTable(l, t', calls[k + 1..])
    ensures RunHeld(l, t, b, calls[k..]) == RunHeld(l, t', b', calls[k + 1..])
  {
    assert calls[k..][0] == calls[k] && calls[k..][1..] == calls[k + 1..];
  }

  lemma RunEnds(l: Layout, t: seq<u64>, b: Blocks, calls: seq<Call>, k: nat)
    requires Laid(l, |t|) && k == |calls|
    ensures RunTable(l, t, calls[k..]) == t && RunHeld(l, t, b, calls[k..]) == b
  {
  }

  /** The region of `SmallHeapOverruns`. */
  predicate IsSmall(l: Layout, t: seq<u64>) {
    l == Layout(0x1_1000, 0x7000, 0x1_0000, 8, 4096) && |t| == 0x1000
  }

  lemma SmallIsLaid(l: Layout, t: seq<u64>)
    requires IsSmall(l, t)
    ensures Laid(l, |t|) && Pages(l) == 7 && TableAt(l.base, t)
  {
  }

  /** A request for one page takes the first free one while the used ones are in front. */
  lemma TakesPage(l: Layout, t: seq<u64>, k: nat)
    requires IsSmall(l, t) && Laid(l, |t|) && k < 8 && IsFree(t, k) && forall i :: 0 <= i < k ==> !IsFree(t, i)
    ensures MallocHole(l, t, 1) == Some(k) && NumPages(l, 1) == 1 && After(l, t, Malloc(1)) == t[k := 1]
  {
    NoneFree(t, k);
    HoleAt(t, 8, 1, k);
    assert NumPages(l, 1) == 1;
  }

  lemma AcceptsPage(l: Layout, t: seq<u64>, k: nat, addr: nat)
    requires IsSmall(l, t) && Laid(l, |t|) && k < 7 && t[k] == 1 && addr == 0x1_1000 + k * 4096
    ensures l.top <= addr && PageIndex(l, addr) == k && Accepted(l, t, addr)
  {
    ModUnique(addr - l.top, l.pageSize, k, 0);
    MacrosMean(t[k]);
  }

  /** A block of one page is released whole. */
  lemma ReleasesPage(l: Layout, t: seq<u64>, b: Blocks, k: nat, addr: nat)
    requires IsSmall(l, t) && Laid(l, |t|) && k < 7 && t[k] == 1 && t[k + 1] < 4096 && addr == 0x1_1000 + k * 4096
    requires k in b
    ensures After(l, t, Free(addr)) == t[k := 0] && Held(l, t, b, Free(addr)) == b - {k}
  {
    AcceptsPage(l, t, k, addr);
    OneEntry(t, l.base, k);
  }

  lemma OneEntry(t: seq<u64>, base: nat, k: nat)
    requires k + 1 < |t| && t[k + 1] < 4096 && base >= 4096
    ensures Freed(t, base, k) == t[k := 0]
  {
    StartAddrMeans(t[k + 1]);
    assert t[k + 1] % 4096 == t[k + 1];
    assert TagEnd(t, k + 1, EntryAddr(base, k)) == k + 1;
  }

  /** Two pages from k on are taken when the second free page is page i and its run starts at k. */
  lemma TakesTwo(l: Layout, t: seq<u64>, k: nat, i: nat)
    requires IsSmall(l, t) && Laid(l, |t|) && k <= i < 8 && FreeTo(t, i, 2) && RunStart(t, i) == k
    ensures MallocHole(l, t, 0x2000) == Some(k) && NumPages(l, 0x2000) == 2 && k + 2 <= |t|
    ensures After(l, t, Malloc(0x2000)) == t[k := 1][k + 1 := 0x1_0001 + 8 * k]
  {
    HoleAt(t, 8, 2, i);
    assert NumPages(l, 0x2000) == 2;
    assert After(l, t, Malloc(0x2000)) == Marked(t, l.base, k, 2);
  }

  /** Four single pages, of which the first and third are freed. */
  predicate EveryOther(calls: seq<Call>) {
    && |calls| == 6 && (forall k :: 0 <= k < 4 ==> calls[k] == Malloc(1))
    && calls[4] == Free(0x1_1000) && calls[5] == Free(0x1_3000)
  }

  /** The table with four pages in use, and then with two. */
  function FourWords(t: seq<u64>): (r: seq<u64>)
    requires |t| >= 8
    ensures |r| == |t| && forall i :: 0 <= i < 4 ==> r[i] == 1
  {
    t[0 := 1][1 := 1][2 := 1][3 := 1]
  }

  function TwoWords(t: seq<u64>): (r: seq<u64>)
    requires |t| >= 8
    ensures |r| == |t| && r[1] == 1 && r[3] == 1 && forall i :: 0 <= i < |t| && i != 1 && i != 3 ==> r[i] == t[i]
  {
    t[1 := 1][3 := 1]
  }

  lemma SecondFree(l: Layout, t: seq<u64>, b: Blocks, c: seq<Call>)
    requires EveryOther(c) && IsSmall(l, t) && Laid(l, |t|) && t[2] == 1 && t[3] == 1 && 2 in b
    ensures RunTable(l, t, c[5..]) == t[2 := 0]
    ensures RunHeld(l, t, b, c[5..]) == b - {2}
  {
    ReleasesPage(l, t, b, 2, c[5].addr);
    RunVia(l, t, b, c, 5, t[2 := 0], b - {2});
    RunEnds(l, t[2 := 0], b - {2}, c, 6);
  }

  lemma FirstFree(l: Layout, t: seq<u64>, b: Blocks, c: seq<Call>)
    requires EveryOther(c) && IsSmall(l, t) && Laid(l, |t|) && t[0] == 1 && t[1] == 1 && 0 in b
    ensures RunTable(l, t, c[4..]) == RunTable(l, t[0 := 0], c[5..])
    ensures RunHeld(l, t, b, c[4..]) == RunHeld(l, t[0 := 0], b - {0}, c[5..])
  {
    ReleasesPage(l, t, b, 0, c[4].addr);
    RunVia(l, t, b, c, 4, t[0 := 0], b - {0});
  }

  lemma BothFrees(l: Layout, t: seq<u64>, b: Blocks, c: seq<Call>)
    requires EveryOther(c) && IsSmall(l, t) && Laid(l, |t|) && (forall i :: 0 <= i < 4 ==> t[i] == 1)
    requires 0 in b && 2 in b
    ensures RunTable(l, t, c[4..]) == t[0 := 0][2 := 0]
    ensures RunHeld(l, t, b, c[4..]) == b - {0} - {2}
  {
    FirstFree(l, t, b, c);
    SecondFree(l, t[0 := 0], b - {0}, c);
  }

  lemma FourPages(l: Layout, t: seq<u64>, c: seq<Call>, b: Blocks)
    requires EveryOther(c) && IsSmall(l, t) && Laid(l, |t|) && forall i :: 0 <= i < 8 ==> t[i] == 0
    requires b == map[0 := 1, 1 := 1, 2 := 1, 3 := 1]
    ensures RunTable(l, t, c) == FourWords(t)[0 := 0][2 := 0]
    ensures RunHeld(l, t, map[], c) == b - {0} - {2}
  {
    var t1: seq<u64> := t[0 := 1];
    var t2: seq<u64> := t1[1 := 1];
    var t3: seq<u64> := t2[2 := 1];
    assert c[0..] == c;
    TakesPage(l, t, 0);
    RunVia(l, t, map[], c, 0, t1, map[0 := 1]);
    TakesPage(l, t1, 1);
    RunVia(l, t1, map[0 := 1], c, 1, t2, map[0 := 1, 1 := 1]);
    TakesPage(l, t2, 2);
    RunVia(l, t2, map[0 := 1, 1 := 1], c, 2, t3, map[0 := 1, 1 := 1, 2 := 1]);
    TakesPage(l, t3, 3);
    RunVia(l, t3, map[0 := 1, 1 := 1, 2 := 1], c, 3, FourWords(t), b);
    BothFrees(l, FourWords(t), b, c);
  }

  lemma EveryOtherWords(t: seq<u64>)
    requires |t| >= 8 && forall i :: 0 <= i < 4 ==> t[i] == 0
    ensures FourWords(t)[0 := 0][2 := 0] == TwoWords(t)
  {
  }

  lemma EveryOtherBlocks(b: Blocks)
    requires b == map[0 := 1, 1 := 1, 2 := 1, 3 := 1]
    ensures b - {0} - {2} == map[1 := 1, 3 := 1]
  {
  }

  /** With every other page used, the second free page is page 2. */
  lemma FindsPageTwo(l: Layout, t: seq<u64>)
    requires IsSmall(l, t) && Laid(l, |t|) && t[0] == 0 && t[1] == 1 && t[2] == 0
    ensures MallocHole(l, t, 0x2000) == Some(2) && NumPages(l, 0x2000) == 2
  {
    assert FreeCount(t, 0) == 0 && FreeCount(t, 1) == 1 && FreeCount(t, 2) == 1;
    TakesTwo(l, t, 2, 2);
  }

  lemma Overlaps(l: Layout, b: Blocks)
    requires l.pageSize > 0 && 2 in b && 3 in b && b[2] == 2
    ensures !Separate(l, b, l.top + l.size)
  {
    assert BlockStart(l, 4) == BlockStart(l, 3) + l.pageSize by { MulSum(3, 1, l.pageSize); }
    assert 2 in b && 3 in b && BlockStart(l, 2 + b[2]) > BlockStart(l, 3);
  }

  /** The search is not right in general.  With every other page used, a request for two pages
      is granted page 2 and page 3, which is in use, although pages 4 and 5 are free. */
  lemma SearchMissesFirstFit(l: Layout, t: seq<u64>, c: seq<Call>)
    requires EveryOther(c) && IsSmall(l, t) && forall i :: 0 <= i < 8 ==> t[i] == 0
    ensures Laid(l, |t|)
    ensures var t6, b := RunTable(l, t, c), RunHeld(l, t, map[], c);
            && b == map[1 := 1, 3 := 1] && Room(b, Pages(l), 4, 2)
            && MallocHole(l, t6, 0x2000) == Some(2)
            && !Separate(l, Held(l, t6, b, Malloc(0x2000)), l.top + l.size)
  {
    SmallIsLaid(l, t);
    var b4: Blocks := map[0 := 1, 1 := 1, 2 := 1, 3 := 1];
    FourPages(l, t, c, b4);
    EveryOtherWords(t);
    EveryOtherBlocks(b4);
    FindsPageTwo(l, TwoWords(t));
    Overlaps(l, map[1 := 1, 3 := 1][2 := 2]);
  }

  /** A block of two pages whose first entry is not at a multiple of 4096 keeps its second page in
      use when it is freed, although nobody holds it any more. */
  lemma FreeLeavesPage(l: Layout, t: seq<u64>, c: seq<Call>)
    requires IsSmall(l, t) && forall i :: 0 <= i < 8 ==> t[i] == 0
    requires |c| == 3 && c[0] == Malloc(1) && c[1] == Malloc(0x2000) && c[2] == Free(0x1_2000)
    ensures Laid(l, |t|)
    ensures RunHeld(l, t, map[], c) == map[0 := 1]
    ensures Used(RunTable(l, t, c)[2]) && Vacant(RunHeld(l, t, map[], c), 2)
  {
    SmallIsLaid(l, t);
    var t1: seq<u64> := t[0 := 1];
    var t2: seq<u64> := t1[1 := 1][2 := 0x1_0009];
    assert c[0..] == c;
    TakesPage(l, t, 0);
    RunVia(l, t, map[], c, 0, t1, map[0 := 1]);
    FindsPageOne(l, t1);
    RunVia(l, t1, map[0 := 1], c, 1, t2, map[0 := 1, 1 := 2]);
    LosesTail(l, t2);
    assert map[0 := 1, 1 := 2] - {1} == map[0 := 1];
    RunVia(l, t2, map[0 := 1, 1 := 2], c, 2, t2[1 := 0], map[0 := 1]);
    RunEnds(l, t2[1 := 0], map[0 := 1], c, 3);
  }

  lemma FindsPageOne(l: Layout, t: seq<u64>)
    requires IsSmall(l, t) && Laid(l, |t|) && t[0] == 1 && t[1] == 0 && t[2] == 0
    ensures MallocHole(l, t, 0x2000) == Some(1) && NumPages(l, 0x2000) == 2
    ensures After(l, t, Malloc(0x2000)) == t[1 := 1][2 := 0x1_0009]
  {
    assert FreeCount(t, 0) == 0 && FreeCount(t, 1) == 0 && FreeCount(t, 2) == 1;
    TakesTwo(l, t, 1, 2);
  }

  lemma LosesTail(l: Layout, t: seq<u64>)
    requires IsSmall(l, t) && Laid(l, |t|) && t[1] == 1 && t[2] == 0x1_0009
    ensures After(l, t, Free(0x1_2000)) == t[1 := 0] && PageIndex(l, 0x1_2000) == 1
  {
    MacrosMean(t[1]);
    TagLost(t, l.base);
  }

  lemma TagLost(t: seq<u64>, base: nat)
    requires |t| > 2 && base == 0x1_0000 && t[2] == 0x1_0009
    ensures Freed(t, base, 1) == t[1 := 0]
  {
    StartAddrMeans(t[2]);
    assert t[2] % 4096 == 9 by { ModUnique(t[2], 4096, 0x10, 9); }
    assert TagEnd(t, 2, EntryAddr(base, 1)) == 2;
  }

  /** The end of the region is accepted by free.  With 0x1008 bytes at 0x10FF8 and pages of 4 KiB
      the only entry is the last word before the only page.  Its holder stores 1 in the first word
      of the page; freeing the end of the region then clears that word. */
  lemma EndOfRegionIsFreed(start: nat, bytes: nat, page: nat, t: seq<u64>)
    requires start == 0x1_0FF8 && bytes == 0x1008 && page == 4096 && |t| == 0x201 && t[0] == 0
    ensures InitSucceeds(start, bytes, page) && Top(start, bytes, page) <= start + bytes
    ensures var l := InitLayout(start, bytes, page);
            && Laid(l, |t|) && l.top + l.size == 0x1_2000
            && var calls := [Malloc(0x1000), Write(0x1_1000, 1)];
               && RunHeld(l, t, map[], calls) == map[0 := 1]
               && RunTable(l, t, calls)[1] == 1 && Heap(l, RunTable(l, t, calls), map[0 := 1])
               && Accepted(l, RunTable(l, t, calls), 0x1_2000)
               && Held(l, RunTable(l, t, calls), map[0 := 1], Free(0x1_2000)) == map[0 := 1]
               && After(l, RunTable(l, t, calls), Free(0x1_2000))[1] == 0
  {
    assert IsPowerOfTwo(page) by { assert Pow2(12) == page by { Pow2Values(); } }
    RoomyInit(start, bytes, page, 0x11, 1);
    EndRun(Layout(0x1_1000, 0x1000, start, 1, page), t);
  }

  lemma EndRun(l: Layout, t: seq<u64>)
    requires l == Layout(0x1_1000, 0x1000, 0x1_0FF8, 1, 4096) && |t| == 0x201 && t[0] == 0
    ensures Laid(l, |t|)
    ensures var calls := [Malloc(0x1000), Write(0x1_1000, 1)];
            && RunHeld(l, t, map[], calls) == map[0 := 1] && RunTable(l, t, calls) == t[0 := 1][1 := 1]
    ensures Heap(l, t[0 := 1][1 := 1], map[0 := 1]) && Accepted(l, t[0 := 1][1 := 1], 0x1_2000)
    ensures Held(l, t[0 := 1][1 := 1], map[0 := 1], Free(0x1_2000)) == map[0 := 1]
    ensures After(l, t[0 := 1][1 := 1], Free(0x1_2000))[1] == 0
  {
    var c, none: Blocks := [Malloc(0x1000), Write(0x1_1000, 1)], map[];
    var t1: seq<u64> := t[0 := 1];
    var t2: seq<u64> := t1[1 := 1];
    assert NumPages(l, 0x1000) == 1;
    HoleAt(t, 1, 1, 0);
    assert After(l, t, Malloc(0x1000)) == t1;
    assert After(l, t1, Write(0x1_1000, 1)) == t2;
    RunVia(l, t, none, c, 0, t1, map[0 := 1]);
    RunVia(l, t1, map[0 := 1], c, 1, t2, map[0 := 1]);
    RunEnds(l, t2, map[0 := 1], c, 2);
    assert c[0..] == c;
    assert Covers(map[0 := 1], 0, 0) && Accounted(t2, map[0 := 1], 0);
    MacrosMean(t2[1]);
  }
}
