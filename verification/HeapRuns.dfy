/** When a single call, and when a whole run of calls, does what malloc.c documents. */
module HeapRuns {
  import opened Word
  import opened Wrappers
  import opened Util
  import opened HeapTable
  import opened HeapBlocks
  import opened HeapCalls

  /** A heap whose table holds exactly the blocks b, all of them inside the region. */
  ghost predicate Heap(l: Layout, t: seq<u64>, b: Blocks) {
    && Laid(l, |t|) && TableAt(l.base, t)
    && Encodes(t, l.entries, l.base, b) && Within(b, Pages(l))
  }

  /** The address of page s. */
  function BlockStart(l: Layout, s: nat): nat {
    l.top + s * l.pageSize
  }

  /** The pages a request of that many bytes needs, without wrap-around. */
  function PagesFor(l: Layout, bytes: nat): nat
    requires l.pageSize > 0
  {
    (bytes + (l.pageSize - 1)) / l.pageSize
  }

  /** A request so large that the page count wraps finds nothing, as it should: it needs
      more pages than there are. */
  lemma WrappedRequest(l: Layout, t: seq<u64>, b: Blocks, bytes: nat)
    requires Heap(l, t, b) && bytes < WORD
    ensures NumPages(l, bytes) == PagesFor(l, bytes)
         || (NumPages(l, bytes) == 0 && forall s :: 0 <= s ==> !Room(b, Pages(l), s, PagesFor(l, bytes)))
  {
    var p := l.pageSize;
    var sum := bytes + (p - 1);
    if sum < WORD {
      Fits(sum);
    } else {
      var n, k := PagesFor(l, bytes), Pages(l);
      assert NumPages(l, bytes) == 0 by {
        var x := sum - WORD;
        assert sum % WORD == x < p;
        ModUnique(x, p, 0, x);
      }
      assert n > k by {
        DivBounds(sum, p);
        DivBounds(l.size, p);
        MulMonotone(1, k, p);
        if n <= k { MulMonotone(n, k, p); }
      }
    }
  }

  /** A malloc call takes the lowest room for the bytes asked if and only if the run of free
      pages holding the n-th free page has room below the end of the region. */
  lemma MallocCall(l: Layout, t: seq<u64>, b: Blocks, bytes: nat)
    requires Heap(l, t, b) && bytes < WORD
    ensures var r := MallocHole(l, t, bytes);
            (exists b' :: IntendedMalloc(b, Pages(l), PagesFor(l, bytes), r, b')
                          && Encodes(MallocTable(l, t, bytes), l.entries, l.base, b'))
            <==> RoomAtNthFree(t, l.entries, Pages(l), NumPages(l, bytes))
  {
    var n := NumPages(l, bytes);
    var r := MallocHole(l, t, bytes);
    MallocMeetsIntent(t, l.entries, l.base, b, Pages(l), n);
    WrappedRequest(l, t, b, bytes);
    if n != PagesFor(l, bytes) {
      assert r == None;
      assert IntendedMalloc(b, Pages(l), PagesFor(l, bytes), r, b);
    } else {
      HoleFitsMemory(t, l.entries, n);
      assert MallocTable(l, t, bytes) == AfterMalloc(t, l.base, r, n);
    }
  }

  /** The memory a successful call returns is page aligned, inside the region, large enough,
      and no larger than it must be. */
  lemma MallocMemory(l: Layout, t: seq<u64>, b: Blocks, bytes: nat, b': Blocks)
    requires Heap(l, t, b) && bytes < WORD
    requires IntendedMalloc(b, Pages(l), PagesFor(l, bytes), MallocHole(l, t, bytes), b')
    ensures Within(b', Pages(l))
    ensures MallocAddr(l, t, bytes) == NULL <==> MallocHole(l, t, bytes).None?
    ensures var a := MallocAddr(l, t, bytes);
            a != NULL ==> GoodBlock(l, a, bytes, NumPages(l, bytes))
  {
    match MallocHole(l, t, bytes) {
      case None =>
      case Some(s) =>
        WrappedRequest(l, t, b, bytes);
        BlockMemory(l, s, NumPages(l, bytes), bytes);
    }
  }

  predicate GoodBlock(l: Layout, a: nat, bytes: nat, n: nat)
    requires l.pageSize > 0
  {
    && a % l.pageSize == 0
    && l.top <= a && a + n * l.pageSize <= l.top + l.size
    && n * l.pageSize - l.pageSize < bytes <= n * l.pageSize
  }

  lemma BlockMemory(l: Layout, s: nat, n: nat, bytes: nat)
    requires IsPage(l.pageSize) && l.top % l.pageSize == 0 && l.size % l.pageSize == 0
    requires l.top + l.size < WORD && 1 <= n == PagesFor(l, bytes) && s + n <= Pages(l)
    ensures var a := (s * l.pageSize + l.top) % WORD;
            a == BlockStart(l, s) && GoodBlock(l, a, bytes, n)
  {
    DivBounds(bytes + (l.pageSize - 1), l.pageSize);
    BlockAddresses(l, s, n);
    MulSum(s, n, l.pageSize);
    Fits(BlockStart(l, s));
  }

  /** The live block that starts at an address. */
  predicate StartsAt(l: Layout, b: Blocks, addr: nat)
    requires l.pageSize > 0
  {
    l.top <= addr && PageIndex(l, addr) in b && addr == l.top + PageIndex(l, addr) * l.pageSize
  }

  /** What free is documented to do: release the block that starts at the address, and
      reject every other address. */
  ghost predicate IntendedFreeCall(l: Layout, t: seq<u64>, b: Blocks, addr: nat, t': seq<u64>)
    requires Laid(l, |t|)
  {
    if StartsAt(l, b, addr) then IntendedFree(t, l.entries, l.base, b, PageIndex(l, addr), t') else t' == t
  }

  /** The block's tag survives masking; and when every entry is a usable page, the word
      behind the table, which the end of the region selects, does not look like a block. */
  predicate FreeIsSafe(l: Layout, t: seq<u64>, b: Blocks, addr: nat)
    requires Laid(l, |t|)
    requires forall s :: s in b ==> 1 <= b[s] && s + b[s] <= l.entries
  {
    if StartsAt(l, b, addr) then
      var s := PageIndex(l, addr);
      TagsRecoverable(t, l.entries, l.base, s, b[s])
    else
      addr == l.top + l.size && Pages(l) == l.entries ==> !IsFirstPageInBlock(t[l.entries])
  }

  lemma BlockBounds(t: seq<u64>, e: nat, base: nat, b: Blocks)
    requires Encodes(t, e, base, b)
    ensures forall s :: s in b ==> 1 <= b[s] && s + b[s] <= e
  {
    forall s | s in b ensures 1 <= b[s] && s + b[s] <= e {
      assert BlockAt(t, base, s, b[s]);
    }
  }

  lemma OwnerOf(t: seq<u64>, e: nat, base: nat, b: Blocks, i: nat) returns (s: nat)
    requires Encodes(t, e, base, b) && i < e && t[i] != 0
    ensures Covers(b, s, i) && BlockAt(t, base, s, b[s])
  {
    assert Accounted(t, b, i);
    s :| Covers(b, s, i);
  }

  /** An entry of the table is taken for a first page exactly when a live block starts there. */
  lemma FirstPages(t: seq<u64>, e: nat, base: nat, b: Blocks, i: nat)
    requires Encodes(t, e, base, b) && TableAt(base, t) && i < e
    ensures IsFirstPageInBlock(t[i]) <==> i in b
  {
    MacrosMean(t[i]);
    FreeIsVacant(t, e, base, b, i);
    if i in b {
      assert BlockAt(t, base, i, b[i]);
    } else if Used(t[i]) {
      var s := OwnerOf(t, e, base, b, i);
      TagFacts(base, t, s);
    }
  }

  lemma IndexBounds(l: Layout, words: nat, addr: nat)
    requires Laid(l, words) && l.top <= addr <= l.top + l.size
    ensures PageIndex(l, addr) <= Pages(l)
    ensures addr == l.top + PageIndex(l, addr) * l.pageSize && PageIndex(l, addr) == Pages(l)
            <==> addr == l.top + l.size
  {
    var p := l.pageSize;
    DivModParts(l.size, p);
    DivBounds(addr - l.top, p);
    if PageIndex(l, addr) > Pages(l) { MulMonotone(Pages(l) + 1, PageIndex(l, addr), p); MulSum(Pages(l), 1, p); }
    ModUnique(Pages(l) * p, p, Pages(l), 0);
  }

  /** A block start is accepted, and apart from the end of the region nothing else is: NULL,
      addresses outside the region, addresses inside a block or a page, freed addresses. */
  lemma AcceptedAddresses(l: Layout, t: seq<u64>, b: Blocks, addr: nat)
    requires Heap(l, t, b)
    ensures StartsAt(l, b, addr) ==> Accepted(l, t, addr)
    ensures Accepted(l, t, addr) && !StartsAt(l, b, addr)
            <==> addr == l.top + l.size && Pages(l) == l.entries && IsFirstPageInBlock(t[l.entries])
  {
    BlockBounds(t, l.entries, l.base, b);
    if l.top <= addr <= l.top + l.size {
      IndexBounds(l, |t|, addr);
      var i := PageIndex(l, addr);
      if i < l.entries { FirstPages(t, l.entries, l.base, b, i); }
    } else if StartsAt(l, b, addr) {
      var i := PageIndex(l, addr);
      DivModParts(l.size, l.pageSize);
      MulMonotone(i, Pages(l), l.pageSize);
    }
  }

  /** A free call does what is documented if and only if it is safe. */
  lemma FreeCall(l: Layout, t: seq<u64>, b: Blocks, addr: nat)
    requires Heap(l, t, b)
    ensures forall s :: s in b ==> 1 <= b[s] && s + b[s] <= l.entries
    ensures IntendedFreeCall(l, t, b, addr, FreeTable(l, t, addr)) <==> FreeIsSafe(l, t, b, addr)
  {
    BlockBounds(t, l.entries, l.base, b);
    AcceptedAddresses(l, t, b, addr);
    if StartsAt(l, b, addr) {
      FreeMeetsIntent(t, l.entries, l.base, b, PageIndex(l, addr));
    } else if Accepted(l, t, addr) {
      IndexBounds(l, |t|, addr);
      MacrosMean(t[l.entries]);
      assert Freed(t, l.base, l.entries)[l.entries] == 0;
    }
  }

  /** A run consists of calls and of stores to words of the pages, by whoever holds them. */
  datatype Call = Malloc(bytes: u64) | Free(addr: nat) | Write(addr: nat, value: u64)

  /** The table followed by the pages, after a store to an aligned word; a store elsewhere is
      not part of a run. */
  function Stored(l: Layout, t: seq<u64>, addr: nat, value: u64): (r: seq<u64>)
    requires Laid(l, |t|)
    ensures |r| == |t|
  {
    if l.top <= addr < l.top + l.size && addr % 8 == 0 && (addr - l.base) / 8 < |t| then
      t[(addr - l.base) / 8 := value]
    else t
  }

  function After(l: Layout, t: seq<u64>, c: Call): (r: seq<u64>)
    requires Laid(l, |t|)
    ensures |r| == |t|
  {
    match c
    case Malloc(bytes) => MallocTable(l, t, bytes)
    case Free(addr) => FreeTable(l, t, addr)
    case Write(addr, value) => Stored(l, t, addr, value)
  }

  /** The blocks a caller holds after a call, going by the results it was given. */
  function Held(l: Layout, t: seq<u64>, b: Blocks, c: Call): Blocks
    requires Laid(l, |t|)
  {
    match c
    case Malloc(bytes) =>
      (match MallocHole(l, t, bytes) case Some(s) => b[s := NumPages(l, bytes)] case None => b)
    case Free(addr) => if StartsAt(l, b, addr) then b - {PageIndex(l, addr)} else b
    case Write(_, _) => b
  }

  /** One call did what is documented, and the table holds the blocks the caller holds. */
  ghost predicate CallIntended(l: Layout, t: seq<u64>, b: Blocks, c: Call)
    requires Laid(l, |t|)
  {
    match c
    case Malloc(bytes) =>
      IntendedMalloc(b, Pages(l), PagesFor(l, bytes), MallocHole(l, t, bytes), Held(l, t, b, c))
      && Encodes(After(l, t, c), l.entries, l.base, Held(l, t, b, c))
    case Free(addr) => IntendedFreeCall(l, t, b, addr, After(l, t, c))
    case Write(_, _) => Encodes(After(l, t, c), l.entries, l.base, b)
  }

  /** What a caller can check before the call; a store needs no check. */
  ghost predicate Guard(l: Layout, t: seq<u64>, b: Blocks, c: Call)
    requires Laid(l, |t|)
  {
    match c
    case Malloc(bytes) => RoomAtNthFree(t, l.entries, Pages(l), NumPages(l, bytes))
    case Free(addr) => (forall s :: s in b ==> 1 <= b[s] && s + b[s] <= l.entries) && FreeIsSafe(l, t, b, addr)
    case Write(_, _) => true
  }

  /** A store to a page changes no entry of the table. */
  lemma StoreKeepsHeap(l: Layout, t: seq<u64>, b: Blocks, addr: nat, value: u64)
    requires Heap(l, t, b)
    ensures Heap(l, Stored(l, t, addr, value), b)
  {
    var t' := Stored(l, t, addr, value);
    forall i | 0 <= i < l.entries ensures t'[i] == t[i] {}
    forall s | s in b ensures BlockAt(t', l.base, s, b[s]) && s + b[s] <= l.entries {
      assert BlockAt(t, l.base, s, b[s]);
    }
    forall i | 0 <= i < l.entries ensures Accounted(t', b, i) {
      assert Accounted(t, b, i);
    }
  }

  /** One call keeps a heap a heap when, and only when, its guard holds. */
  lemma CallKeepsHeap(l: Layout, t: seq<u64>, b: Blocks, c: Call)
    requires Heap(l, t, b)
    ensures CallIntended(l, t, b, c) <==> Guard(l, t, b, c)
    ensures Guard(l, t, b, c) ==> Heap(l, After(l, t, c), Held(l, t, b, c))
  {
    match c
    case Malloc(bytes) =>
      MallocCall(l, t, b, bytes);
      var r := MallocHole(l, t, bytes);
      if b' :| IntendedMalloc(b, Pages(l), PagesFor(l, bytes), r, b')
               && Encodes(MallocTable(l, t, bytes), l.entries, l.base, b') {
        WrappedRequest(l, t, b, bytes);
        assert b' == Held(l, t, b, c);
        MallocMemory(l, t, b, bytes, b');
      }
    case Free(addr) =>
      FreeCall(l, t, b, addr);
    case Write(addr, value) =>
      StoreKeepsHeap(l, t, b, addr, value);
  }

  /** Every call of a run does what is documented. */
  ghost predicate RunIntended(l: Layout, t: seq<u64>, b: Blocks, calls: seq<Call>)
    requires Laid(l, |t|)
    decreases |calls|
  {
    calls == [] ||
    (CallIntended(l, t, b, calls[0]) && RunIntended(l, After(l, t, calls[0]), Held(l, t, b, calls[0]), calls[1..]))
  }

  ghost predicate RunGuarded(l: Layout, t: seq<u64>, b: Blocks, calls: seq<Call>)
    requires Laid(l, |t|)
    decreases |calls|
  {
    calls == [] ||
    (Guard(l, t, b, calls[0]) && RunGuarded(l, After(l, t, calls[0]), Held(l, t, b, calls[0]), calls[1..]))
  }

  function RunTable(l: Layout, t: seq<u64>, calls: seq<Call>): (r: seq<u64>)
    requires Laid(l, |t|)
    ensures |r| == |t|
    decreases |calls|
  {
    if calls == [] then t else RunTable(l, After(l, t, calls[0]), calls[1..])
  }

  function RunHeld(l: Layout, t: seq<u64>, b: Blocks, calls: seq<Call>): Blocks
    requires Laid(l, |t|)
    decreases |calls|
  {
    if calls == [] then b else RunHeld(l, After(l, t, calls[0]), Held(l, t, b, calls[0]), calls[1..])
  }

  /** Over every run of calls and stores: all calls do what is documented if and only if each meets
      its guard, and then the table still holds exactly the blocks the caller holds. */
  lemma {:induction false} RunKeepsHeap(l: Layout, t: seq<u64>, b: Blocks, calls: seq<Call>)
    requires Heap(l, t, b)
    ensures RunIntended(l, t, b, calls) <==> RunGuarded(l, t, b, calls)
    ensures RunGuarded(l, t, b, calls) ==> Heap(l, RunTable(l, t, calls), RunHeld(l, t, b, calls))
    decreases |calls|
  {
    if calls != [] {
      CallKeepsHeap(l, t, b, calls[0]);
      if Guard(l, t, b, calls[0]) {
        RunKeepsHeap(l, After(l, t, calls[0]), Held(l, t, b, calls[0]), calls[1..]);
      }
    }
  }

  lemma EmptyHeap(l: Layout, t: seq<u64>)
    requires Laid(l, |t|) && TableAt(l.base, t) && forall i :: 0 <= i < l.entries ==> t[i] == 0
    ensures Heap(l, t, map[])
  {
    forall i | 0 <= i < l.entries ensures Accounted(t, map[], i) {}
  }

  lemma BlockAddresses(l: Layout, s: nat, n: nat)
    requires IsPage(l.pageSize) && l.top % l.pageSize == 0 && l.size % l.pageSize == 0 && 1 <= n && s + n <= Pages(l)
    ensures BlockStart(l, s) % l.pageSize == 0
    ensures BlockStart(l, s) < BlockStart(l, s + n) <= l.top + l.size
  {
    var p := l.pageSize;
    DivModParts(l.size, p);
    MulMonotone(s + n, Pages(l), p);
    MulMonotone(s + 1, s + n, p);
    MulSum(s, 1, p);
    DivModParts(l.top, p);
    MulSum(s, l.top / p, p);
    ModUnique(s * p + l.top, p, s + l.top / p, 0);
  }
}
