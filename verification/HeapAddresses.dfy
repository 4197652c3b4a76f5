/** What a caller of malloc and free sees: the addresses returned over whole runs, the memory behind
    them, and what freeing such an address does. */
module HeapAddresses {
  import opened Word
  import opened Wrappers
  import opened Util
  import opened HeapTable
  import opened HeapBlocks
  import opened HeapCalls
  import opened HeapRuns
  import opened HeapSafety

  /** The page an address selects is the one it is the start of. */
  lemma IndexOfStart(l: Layout, s: nat)
    requires l.pageSize > 0
    ensures l.top <= BlockStart(l, s) && PageIndex(l, BlockStart(l, s)) == s
  {
    ModUnique(s * l.pageSize, l.pageSize, s, 0);
  }

  lemma BlockStartFits(l: Layout, words: nat, s: nat)
    requires Laid(l, words) && s < l.entries
    ensures 0 < BlockStart(l, s) < WORD
  {
    TopBounds(l, words);
    AddressBound(s, l.entries, l.pageSize, l.top);
  }

  lemma AddressBound(s: nat, e: nat, page: nat, top: nat)
    requires s < e && e * page <= ADDRESS_SPACE && 0 < top <= ADDRESS_SPACE + 7
    ensures 0 < top + s * page < WORD
  {
    MulMonotone(s, e, page);
  }

  lemma TopBounds(l: Layout, words: nat)
    requires Laid(l, words)
    ensures 0 < l.top <= ADDRESS_SPACE + 7
  {
  }

  /** Malloc returns the start of the block it marks, and NULL exactly when it marks none. */
  lemma MallocReturnsStart(l: Layout, t: seq<u64>, bytes: nat)
    requires Laid(l, |t|)
    ensures match MallocHole(l, t, bytes)
            case Some(s) => MallocAddr(l, t, bytes) == BlockStart(l, s) != NULL
            case None => MallocAddr(l, t, bytes) == NULL
  {
    HoleFitsMemory(t, l.entries, NumPages(l, bytes));
    match MallocHole(l, t, bytes) {
      case None =>
      case Some(s) =>
        BlockStartFits(l, |t|, s);
        Fits(BlockStart(l, s));
    }
  }

  /** The block is large enough, and a page less would not be. */
  lemma EnoughBytes(l: Layout, words: nat, bytes: nat)
    requires Laid(l, words) && bytes < WORD && NumPages(l, bytes) >= 1
    ensures bytes <= NumPages(l, bytes) * l.pageSize < bytes + l.pageSize
  {
    var sum := bytes + (l.pageSize - 1);
    if sum < WORD {
      Fits(sum);
    } else {
      ModUnique(sum, WORD, 1, sum - WORD);
      ModUnique(sum - WORD, l.pageSize, 0, sum - WORD);
    }
    DivBounds(sum, l.pageSize);
  }

  /** The memory a caller holds, going only by what malloc returned: addresses and sizes. */
  type Live = map<nat, nat>

  function SizeOf(pages: nat, page: nat): nat {
    pages * page
  }

  function LiveAfter(l: Layout, t: seq<u64>, live: Live, c: Call): Live
    requires Laid(l, |t|)
  {
    match c
    case Malloc(bytes) =>
      var a := MallocAddr(l, t, bytes);
      if a == NULL then live else live[a := SizeOf(NumPages(l, bytes), l.pageSize)]
    case Free(addr) => live - {addr}
    case Write(_, _) => live
  }

  function RunLive(l: Layout, t: seq<u64>, live: Live, calls: seq<Call>): Live
    requires Laid(l, |t|)
    decreases |calls|
  {
    if calls == [] then live else RunLive(l, After(l, t, calls[0]), LiveAfter(l, t, live, calls[0]), calls[1..])
  }

  /** The addresses are the starts of the blocks. */
  ghost predicate SameMemory(l: Layout, b: Blocks, live: Live)
    requires l.pageSize > 0
  {
    && (forall a :: a in live <==> StartsAt(l, b, a))
    && (forall a :: a in live ==> live[a] == b[PageIndex(l, a)] * l.pageSize)
  }

  lemma MallocKeepsSame(l: Layout, t: seq<u64>, b: Blocks, live: Live, bytes: u64)
    requires Laid(l, |t|) && SameMemory(l, b, live)
    ensures SameMemory(l, Held(l, t, b, Malloc(bytes)), LiveAfter(l, t, live, Malloc(bytes)))
  {
    MallocReturnsStart(l, t, bytes);
    var r := MallocHole(l, t, bytes);
    if r.Some? {
      var s, b', live' := r.value, Held(l, t, b, Malloc(bytes)), LiveAfter(l, t, live, Malloc(bytes));
      IndexOfStart(l, s);
      forall a: nat
        ensures a in live' <==> StartsAt(l, b', a)
        ensures a in live' ==> live'[a] == b'[PageIndex(l, a)] * l.pageSize
      {
      }
    }
  }

  lemma FreeKeepsSame(l: Layout, t: seq<u64>, b: Blocks, live: Live, addr: nat)
    requires Laid(l, |t|) && SameMemory(l, b, live)
    ensures SameMemory(l, Held(l, t, b, Free(addr)), LiveAfter(l, t, live, Free(addr)))
  {
  }

  lemma {:induction false} RunKeepsSame(l: Layout, t: seq<u64>, b: Blocks, live: Live, calls: seq<Call>)
    requires Laid(l, |t|) && SameMemory(l, b, live)
    ensures SameMemory(l, RunHeld(l, t, b, calls), RunLive(l, t, live, calls))
    decreases |calls|
  {
    if calls != [] {
      match calls[0] {
        case Malloc(bytes) => MallocKeepsSame(l, t, b, live, bytes);
        case Free(addr) => FreeKeepsSame(l, t, b, live, addr);
        case Write(_, _) =>
      }
      RunKeepsSame(l, After(l, t, calls[0]), Held(l, t, b, calls[0]), LiveAfter(l, t, live, calls[0]), calls[1..]);
    }
  }

  /** Page aligned, behind the page table, before the end, and pairwise disjoint. */
  ghost predicate Disjoint(l: Layout, live: Live, end: nat)
    requires l.pageSize > 0
  {
    && (forall a :: a in live ==>
          a % l.pageSize == 0 && EntryAddr(l.base, l.entries) <= a < a + live[a] <= end)
    && (forall a, c :: a in live && c in live && a < c ==> a + live[a] <= c)
  }

  lemma SeparateIsDisjoint(l: Layout, b: Blocks, live: Live, end: nat)
    requires l.pageSize > 0 && SameMemory(l, b, live) && Separate(l, b, end)
    ensures Disjoint(l, live, end)
  {
    forall a | a in live
      ensures a % l.pageSize == 0 && EntryAddr(l.base, l.entries) <= a < a + live[a] <= end
    {
      EndOfBlock(l, b, live, a);
    }
    forall a, c | a in live && c in live && a < c ensures a + live[a] <= c {
      EndOfBlock(l, b, live, a);
      StartOrder(l, PageIndex(l, c), PageIndex(l, a));
    }
  }

  lemma EndOfBlock(l: Layout, b: Blocks, live: Live, a: nat)
    requires l.pageSize > 0 && SameMemory(l, b, live) && a in live
    ensures var s := PageIndex(l, a); s in b && a == BlockStart(l, s) && a + live[a] == BlockStart(l, s + b[s])
  {
    MulSum(PageIndex(l, a), b[PageIndex(l, a)], l.pageSize);
  }

  /** After init and any run in which each malloc meets its guard, with any frees and stores, the
      memory at the addresses malloc returned and the caller has not freed is page aligned, behind the
      page table, inside the memory given to init, and disjoint. */
  lemma AddressesAreSafe(start: nat, bytes: nat, l: Layout, t: seq<u64>, calls: seq<Call>)
    requires 4096 <= start && LaidIn(l, start, bytes) && |t| == bytes / 8
    requires forall i :: 0 <= i < l.entries ==> t[i] == 0
    requires MallocsGuarded(l, t, calls)
    ensures Disjoint(l, RunLive(l, t, map[], calls), start + bytes)
  {
    RunIsSafe(start, bytes, l, t, calls);
    RunKeepsSame(l, t, map[], map[], calls);
    SeparateIsDisjoint(l, RunHeld(l, t, map[], calls), RunLive(l, t, map[], calls), start + bytes);
  }

  /** A granted malloc returns memory that is large enough and overlaps nothing the caller holds. */
  lemma MallocIsFresh(l: Layout, t: seq<u64>, b: Blocks, live: Live, bytes: u64, a: nat, size: nat)
    requires Sound(l, t, b) && SameMemory(l, b, live) && Fitting(l, t, b, Malloc(bytes))
    requires a == MallocAddr(l, t, bytes) != NULL && size == NumPages(l, bytes) * l.pageSize
    ensures a !in live && bytes <= size < bytes + l.pageSize
    ensures forall c :: c in live ==> c + live[c] <= a || a + size <= c
  {
    LiveStaysDisjoint(l, t, b, live, bytes);
    NewAddress(l, t, b, live, bytes);
    DisjointFromOthers(l, live, a, size, l.top + l.size);
    EnoughBytes(l, |t|, bytes);
  }

  lemma LiveStaysDisjoint(l: Layout, t: seq<u64>, b: Blocks, live: Live, bytes: u64)
    requires Sound(l, t, b) && SameMemory(l, b, live) && Fitting(l, t, b, Malloc(bytes))
    ensures Disjoint(l, LiveAfter(l, t, live, Malloc(bytes)), l.top + l.size)
  {
    var c := Malloc(bytes);
    MallocKeepsSame(l, t, b, live, bytes);
    HeldStaysSeparate(l, t, b, c, Held(l, t, b, c));
    SeparateIsDisjoint(l, Held(l, t, b, c), LiveAfter(l, t, live, c), l.top + l.size);
  }

  lemma HeldStaysSeparate(l: Layout, t: seq<u64>, b: Blocks, c: Call, b': Blocks)
    requires Sound(l, t, b) && Fitting(l, t, b, c) && b' == Held(l, t, b, c)
    ensures Separate(l, b', l.top + l.size)
  {
    CallStaysSeparate(l, t, b, c);
  }

  lemma NewAddress(l: Layout, t: seq<u64>, b: Blocks, live: Live, bytes: u64)
    requires Sound(l, t, b) && SameMemory(l, b, live) && MallocAddr(l, t, bytes) != NULL
    ensures MallocAddr(l, t, bytes) !in live && NumPages(l, bytes) >= 1
  {
    MallocReturnsStart(l, t, bytes);
    HoleIsNew(t, l.entries, l.base, Pages(l), b, NumPages(l, bytes));
    IndexOfStart(l, MallocHole(l, t, bytes).value);
  }

  lemma DisjointFromOthers(l: Layout, live: Live, a: nat, size: nat, end: nat)
    requires l.pageSize > 0 && a !in live && Disjoint(l, live[a := size], end)
    ensures forall c :: c in live ==> c + live[c] <= a || a + size <= c
  {
    var live' := live[a := size];
    forall c | c in live ensures c + live[c] <= a || a + size <= c {
      assert c in live' && live'[c] == live[c] && a in live' && live'[a] == size;
    }
  }

  /** The address is the start of the block now held, and freeing it gives back exactly that block. */
  lemma MallocIsHeld(l: Layout, t: seq<u64>, b: Blocks, bytes: u64, s: nat)
    requires Sound(l, t, b) && MallocHole(l, t, bytes) == Some(s)
    ensures var a, b' := MallocAddr(l, t, bytes), Held(l, t, b, Malloc(bytes));
            && StartsAt(l, b', a) && PageIndex(l, a) == s && b'[s] == NumPages(l, bytes)
            && Held(l, After(l, t, Malloc(bytes)), b', Free(a)) == b
  {
    MallocReturnsStart(l, t, bytes);
    IndexOfStart(l, s);
    HoleIsNew(t, l.entries, l.base, Pages(l), b, NumPages(l, bytes));
    assert b[s := NumPages(l, bytes)] - {s} == b;
  }

  /** Freeing the address malloc has just returned restores every word, if and only if the tags
      survive masking and the word behind the table does not carry the tag. */
  lemma FreeUndoesMallocCall(l: Layout, t: seq<u64>, b: Blocks, bytes: u64, s: nat)
    requires Heap(l, t, b) && RoomAtNthFree(t, l.entries, Pages(l), NumPages(l, bytes))
    requires MallocHole(l, t, bytes) == Some(s)
    ensures NumPages(l, bytes) >= 1 && s + NumPages(l, bytes) <= l.entries
    ensures FreeTable(l, MallocTable(l, t, bytes), MallocAddr(l, t, bytes)) == t
            <==> TagsRecoverable(t, l.entries, l.base, s, NumPages(l, bytes))
  {
    var n := NumPages(l, bytes);
    HeapIsSound(l, t, b);
    GuardGivesRoom(t, l.entries, l.base, Pages(l), b, n);
    MallocReturnsStart(l, t, bytes);
    FreeUndoesMalloc(t, l.entries, l.base, b, s, n);
    StartIsFreed(l, Marked(t, l.base, s, n), s);
  }

  lemma StartIsFreed(l: Layout, t: seq<u64>, s: nat)
    requires Laid(l, |t|) && s < Pages(l) && t[s] == 1
    ensures FreeTable(l, t, BlockStart(l, s)) == Freed(t, l.base, s)
  {
    IndexOfStart(l, s);
    BlockStartFits(l, |t|, s);
    MacrosMean(t[s]);
    RegionEnd(l, |t|);
    StartOrder(l, s, Pages(l));
  }
}
