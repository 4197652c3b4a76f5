/** The memory handed out over whole runs never overlaps and stays in the region, even when frees
    leave pages behind. */
module HeapSafety {
  import opened Word
  import opened Wrappers
  import opened Util
  import opened HeapTable
  import opened HeapBlocks
  import opened HeapCalls
  import opened HeapRuns

  /** The blocks are page aligned, lie between the end of the page table and `end`, and no
      two of them overlap. */
  ghost predicate Separate(l: Layout, b: Blocks, end: nat)
    requires l.pageSize > 0
  {
    && (forall s {:trigger s in b} :: s in b ==>
          && BlockStart(l, s) % l.pageSize == 0
          && EntryAddr(l.base, l.entries) <= BlockStart(l, s)
          && BlockStart(l, s) < BlockStart(l, s + b[s]) <= end)
    && (forall r, s {:trigger r in b, s in b} ::
          r in b && s in b && r < s ==> BlockStart(l, r + b[r]) <= BlockStart(l, s))
  }

  /** What safety needs of the first e entries: the blocks the caller holds are there, below the
      limit, and nothing else looks like the first entry of a block.  Other entries may be in use:
      free leaves some behind. */
  ghost predicate Holds(t: seq<u64>, e: nat, base: nat, limit: nat, b: Blocks) {
    && TableAt(base, t) && limit <= e <= |t| && Within(b, limit)
    && (forall s :: s in b ==> BlockAt(t, base, s, b[s]))
    && (forall i :: 0 <= i < e ==> Owned(t, b, i))
  }

  /** A first entry belongs to the caller. */
  predicate Owned(t: seq<u64>, b: Blocks, i: nat) {
    i < |t| && (Used(t[i]) && t[i] < 4096 ==> i in b)
  }

  ghost predicate Sound(l: Layout, t: seq<u64>, b: Blocks) {
    Laid(l, |t|) && Holds(t, l.entries, l.base, Pages(l), b)
  }

  lemma HeapIsSound(l: Layout, t: seq<u64>, b: Blocks)
    requires Heap(l, t, b)
    ensures Sound(l, t, b)
  {
    forall s | s in b ensures BlockAt(t, l.base, s, b[s]) {}
    forall i | 0 <= i < l.entries ensures Owned(t, b, i) {
      FirstPages(t, l.entries, l.base, b, i);
      MacrosMean(t[i]);
    }
  }

  /** Blocks that are there do not overlap. */
  lemma Apart(t: seq<u64>, e: nat, base: nat, limit: nat, b: Blocks, r: nat, s: nat)
    requires Holds(t, e, base, limit, b) && r in b && s in b && r < s
    ensures r + b[r] <= s
  {
    assert BlockAt(t, base, r, b[r]) && BlockAt(t, base, s, b[s]);
  }

  lemma BlockIsUsed(t: seq<u64>, e: nat, base: nat, limit: nat, b: Blocks, r: nat, i: nat)
    requires Holds(t, e, base, limit, b) && Covers(b, r, i)
    ensures i < |t| && Used(t[i])
  {
    assert BlockAt(t, base, r, b[r]);
    TagFacts(base, t, r);
  }

  /** Words behind the entries do not matter. */
  lemma KeptBelow(t: seq<u64>, e: nat, base: nat, limit: nat, b: Blocks, t': seq<u64>)
    requires Holds(t, e, base, limit, b) && |t'| == |t| && forall i :: 0 <= i < e ==> t'[i] == t[i]
    ensures Holds(t', e, base, limit, b)
  {
    forall s | s in b ensures BlockAt(t', base, s, b[s]) {
      assert BlockAt(t, base, s, b[s]);
    }
    forall i | 0 <= i < e ensures Owned(t', b, i) {
      assert Owned(t, b, i);
    }
  }

  // ----- malloc

  lemma MarkKeepsHolds(t: seq<u64>, e: nat, base: nat, limit: nat, b: Blocks, s: nat, n: nat)
    requires Holds(t, e, base, limit, b) && Room(b, limit, s, n)
    ensures s + n <= |t| && EntryAddr(base, s) + 1 < WORD
    ensures Holds(Marked(t, base, s, n), e, base, limit, b[s := n])
  {
    var t', b' := Marked(t, base, s, n), b[s := n];
    forall r | r in b' ensures BlockAt(t', base, r, b'[r]) {
      if r != s {
        assert BlockAt(t, base, r, b[r]);
        MarkKeepsBlock(t, base, b, s, n, r);
      }
    }
    forall i | 0 <= i < e ensures Owned(t', b', i) {
      assert Owned(t, b, i);
    }
  }

  lemma MarkKeepsBlock(t: seq<u64>, base: nat, b: Blocks, s: nat, n: nat, r: nat)
    requires 1 <= n && s + n <= |t| && EntryAddr(base, s) + 1 < WORD && forall i :: s <= i < s + n ==> Vacant(b, i)
    requires r in b && BlockAt(t, base, r, b[r])
    ensures BlockAt(Marked(t, base, s, n), base, r, b[r])
  {
    var t' := Marked(t, base, s, n);
    forall i | r <= i < r + b[r] ensures t'[i] == t[i] {
      assert Covers(b, r, i);
      assert s <= i < s + n ==> Vacant(b, i);
    }
  }

  /** The search starts a block at a free entry, so at no block the caller holds. */
  lemma HoleIsNew(t: seq<u64>, e: nat, base: nat, limit: nat, b: Blocks, n: nat)
    requires Holds(t, e, base, limit, b)
    ensures var r := Hole(t, e, n); r.Some? ==> r.value !in b && 1 <= n
  {
    var r := Hole(t, e, n);
    if r.Some? {
      assert IsFree(t, r.value);
      FreeIsNoBlock(t, base, b, r.value);
    }
  }

  lemma FreeIsNoBlock(t: seq<u64>, base: nat, b: Blocks, i: nat)
    requires i < |t| && forall s :: s in b ==> BlockAt(t, base, s, b[s])
    ensures IsFree(t, i) ==> i !in b
  {
    if i in b { assert BlockAt(t, base, i, b[i]); }
  }

  /** The run of free pages the search looks at has room, so the block found has. */
  lemma GuardGivesRoom(t: seq<u64>, e: nat, base: nat, limit: nat, b: Blocks, n: nat)
    requires Holds(t, e, base, limit, b) && RoomAtNthFree(t, e, limit, n)
    ensures var r := Hole(t, e, n); r.Some? ==> Room(b, limit, r.value, n)
  {
    HoleIsFirstFit(t, e, limit, n);
    var r := Hole(t, e, n);
    if r.Some? {
      assert IsHole(t, limit, r.value, n);
      forall i | r.value <= i < r.value + n ensures Vacant(b, i) {
        assert IsFree(t, i);
        FreeIsVacantHere(t, e, base, limit, b, i);
      }
    }
  }

  lemma FreeIsVacantHere(t: seq<u64>, e: nat, base: nat, limit: nat, b: Blocks, i: nat)
    requires Holds(t, e, base, limit, b) && i < |t|
    ensures IsFree(t, i) ==> Vacant(b, i)
  {
    forall r | Covers(b, r, i) ensures Used(t[i]) {
      BlockIsUsed(t, e, base, limit, b, r, i);
    }
  }

  // ----- free

  /** The release loop stops at every other block, whatever its tags say. */
  lemma FreedKeepsHolds(t: seq<u64>, e: nat, base: nat, limit: nat, b: Blocks, s: nat)
    requires Holds(t, e, base, limit, b) && s in b
    ensures s < |t| && Holds(Freed(t, base, s), e, base, limit, b - {s})
  {
    assert BlockAt(t, base, s, b[s]);
    var t', b' := Freed(t, base, s), b - {s};
    forall r | r in b' ensures BlockAt(t', base, r, b'[r]) {
      FreedKeepsBlock(t, e, base, limit, b, s, r);
    }
    forall i | 0 <= i < e ensures Owned(t', b', i) {
      assert Owned(t, b, i);
    }
  }

  lemma FreedKeepsBlock(t: seq<u64>, e: nat, base: nat, limit: nat, b: Blocks, s: nat, r: nat)
    requires Holds(t, e, base, limit, b) && s in b && r in b && r != s && s < |t|
    ensures BlockAt(Freed(t, base, s), base, r, b[r])
  {
    assert BlockAt(t, base, r, b[r]);
    if r < s {
      Apart(t, e, base, limit, b, r, s);
    } else {
      StartAddrMeans(t[r]);
      assert TagEnd(t, s + 1, EntryAddr(base, s)) <= r;
    }
  }

  lemma FreeKeepsSound(l: Layout, t: seq<u64>, b: Blocks, addr: nat)
    requires Sound(l, t, b)
    ensures Sound(l, FreeTable(l, t, addr), Held(l, t, b, Free(addr)))
  {
    if StartsAt(l, b, addr) {
      StartIsAccepted(l, t, b, addr);
      FreedKeepsHolds(t, l.entries, l.base, Pages(l), b, PageIndex(l, addr));
    } else if Accepted(l, t, addr) {
      IndexBounds(l, |t|, addr);
      var i := PageIndex(l, addr);
      FirstIsHeld(l, t, b, i);
      KeptBelow(t, l.entries, l.base, Pages(l), b, Freed(t, l.base, i));
    }
  }

  lemma FirstIsHeld(l: Layout, t: seq<u64>, b: Blocks, i: nat)
    requires Sound(l, t, b) && i < |t| && IsFirstPageInBlock(t[i])
    ensures i < l.entries ==> i in b
  {
    MacrosMean(t[i]);
    if i < l.entries { assert Owned(t, b, i); }
  }

  lemma StartIsAccepted(l: Layout, t: seq<u64>, b: Blocks, addr: nat)
    requires Sound(l, t, b) && StartsAt(l, b, addr)
    ensures Accepted(l, t, addr)
  {
    var i := PageIndex(l, addr);
    assert BlockAt(t, l.base, i, b[i]);
    MacrosMean(t[i]);
    DivModParts(l.size, l.pageSize);
    MulMonotone(i, Pages(l), l.pageSize);
  }

  // ----- single calls and runs

  /** A malloc that finds a hole finds one where the block fits: in the region, on pages nobody
      holds.  Frees and stores need no check. */
  ghost predicate Fitting(l: Layout, t: seq<u64>, b: Blocks, c: Call)
    requires Laid(l, |t|)
  {
    c.Malloc? && MallocHole(l, t, c.bytes).Some? ==>
      Room(b, Pages(l), MallocHole(l, t, c.bytes).value, NumPages(l, c.bytes))
  }

  lemma FittingKeepsSound(l: Layout, t: seq<u64>, b: Blocks, c: Call)
    requires Sound(l, t, b) && Fitting(l, t, b, c)
    ensures Sound(l, After(l, t, c), Held(l, t, b, c))
  {
    match c
    case Malloc(bytes) =>
      var r := MallocHole(l, t, bytes);
      if r.Some? {
        MarkKeepsHolds(t, l.entries, l.base, Pages(l), b, r.value, NumPages(l, bytes));
      }
    case Free(addr) => FreeKeepsSound(l, t, b, addr);
    case Write(addr, value) => KeptBelow(t, l.entries, l.base, Pages(l), b, Stored(l, t, addr, value));
  }

  lemma StartOrder(l: Layout, i: nat, j: nat)
    requires l.pageSize > 0
    ensures BlockStart(l, i) <= BlockStart(l, j) <==> i <= j
  {
    if i <= j { MulMonotone(i, j, l.pageSize); } else { MulMonotone(j + 1, i, l.pageSize); MulSum(j, 1, l.pageSize); }
  }

  lemma RegionEnd(l: Layout, words: nat)
    requires Laid(l, words)
    ensures BlockStart(l, Pages(l)) == l.top + l.size
  {
    DivModParts(l.size, l.pageSize);
  }

  lemma SoundIsSeparate(l: Layout, t: seq<u64>, b: Blocks, end: nat)
    requires Sound(l, t, b) && l.top + l.size <= end
    ensures Separate(l, b, end)
  {
    forall s | s in b
      ensures BlockStart(l, s) % l.pageSize == 0 && l.top <= BlockStart(l, s) < BlockStart(l, s + b[s]) <= end
    {
      BlockPlaced(l, t, b, s);
    }
    forall r, s | r in b && s in b && r < s ensures BlockStart(l, r + b[r]) <= BlockStart(l, s) {
      BlocksInOrder(l, t, b, r, s);
    }
  }

  lemma BlockPlaced(l: Layout, t: seq<u64>, b: Blocks, s: nat)
    requires Sound(l, t, b) && s in b
    ensures BlockStart(l, s) % l.pageSize == 0
    ensures l.top <= BlockStart(l, s) < BlockStart(l, s + b[s]) <= l.top + l.size
  {
    assert BlockAt(t, l.base, s, b[s]);
    BlockAddresses(l, s, b[s]);
  }

  lemma BlocksInOrder(l: Layout, t: seq<u64>, b: Blocks, r: nat, s: nat)
    requires Sound(l, t, b) && r in b && s in b && r < s
    ensures BlockStart(l, r + b[r]) <= BlockStart(l, s)
  {
    Apart(t, l.entries, l.base, Pages(l), b, r, s);
    MulMonotone(r + b[r], s, l.pageSize);
  }

  /** Blocks that are separate and in the region leave room for each other. */
  lemma SeparateGivesRoom(l: Layout, t: seq<u64>, b: Blocks, s: nat, n: nat)
    requires Sound(l, t, b) && s !in b && n >= 1 && Separate(l, b[s := n], l.top + l.size)
    ensures Room(b, Pages(l), s, n)
  {
    var b' := b[s := n];
    assert s in b';
    RegionEnd(l, |t|);
    StartOrder(l, s + n, Pages(l));
    forall i | s <= i < s + n ensures Vacant(b, i) {
      forall r | r in b ensures !Covers(b, r, i) {
        assert r in b' && b'[r] == b[r];
        StartOrder(l, r + b[r], s);
        StartOrder(l, s + n, r);
      }
    }
  }

  /** One call leaves the caller with separate blocks inside the region exactly when it is fitting. */
  lemma CallStaysSeparate(l: Layout, t: seq<u64>, b: Blocks, c: Call)
    requires Sound(l, t, b)
    ensures Separate(l, Held(l, t, b, c), l.top + l.size) <==> Fitting(l, t, b, c)
    ensures Sound(l, After(l, t, c), Held(l, t, b, c)) <==> Fitting(l, t, b, c)
  {
    if Fitting(l, t, b, c) {
      FittingKeepsSound(l, t, b, c);
    }
    if Sound(l, After(l, t, c), Held(l, t, b, c)) {
      SoundIsSeparate(l, After(l, t, c), Held(l, t, b, c), l.top + l.size);
    }
    if c.Malloc? && MallocHole(l, t, c.bytes).Some? && Separate(l, Held(l, t, b, c), l.top + l.size) {
      HoleIsNew(t, l.entries, l.base, Pages(l), b, NumPages(l, c.bytes));
      SeparateGivesRoom(l, t, b, MallocHole(l, t, c.bytes).value, NumPages(l, c.bytes));
    }
  }

  /** At every moment of a run the caller's blocks are separate and inside the region. */
  ghost predicate RunSeparate(l: Layout, t: seq<u64>, b: Blocks, calls: seq<Call>)
    requires Laid(l, |t|)
    decreases |calls|
  {
    Separate(l, b, l.top + l.size) &&
    (calls == [] || RunSeparate(l, After(l, t, calls[0]), Held(l, t, b, calls[0]), calls[1..]))
  }

  ghost predicate RunFitting(l: Layout, t: seq<u64>, b: Blocks, calls: seq<Call>)
    requires Laid(l, |t|)
    decreases |calls|
  {
    calls == [] ||
    (Fitting(l, t, b, calls[0]) && RunFitting(l, After(l, t, calls[0]), Held(l, t, b, calls[0]), calls[1..]))
  }

  lemma {:induction false} RunKeepsSound(l: Layout, t: seq<u64>, b: Blocks, calls: seq<Call>)
    requires Sound(l, t, b) && RunFitting(l, t, b, calls)
    ensures Sound(l, RunTable(l, t, calls), RunHeld(l, t, b, calls))
    decreases |calls|
  {
    if calls != [] {
      FittingKeepsSound(l, t, b, calls[0]);
      RunKeepsSound(l, After(l, t, calls[0]), Held(l, t, b, calls[0]), calls[1..]);
    }
  }

  lemma {:induction false} FittingIsSeparate(l: Layout, t: seq<u64>, b: Blocks, calls: seq<Call>)
    requires Sound(l, t, b) && RunFitting(l, t, b, calls)
    ensures RunSeparate(l, t, b, calls)
    decreases |calls|
  {
    SoundIsSeparate(l, t, b, l.top + l.size);
    if calls != [] {
      FittingKeepsSound(l, t, b, calls[0]);
      FittingIsSeparate(l, After(l, t, calls[0]), Held(l, t, b, calls[0]), calls[1..]);
    }
  }

  lemma {:induction false} SeparateIsFitting(l: Layout, t: seq<u64>, b: Blocks, calls: seq<Call>)
    requires Sound(l, t, b) && RunSeparate(l, t, b, calls)
    ensures RunFitting(l, t, b, calls)
    decreases |calls|
  {
    if calls != [] {
      CallStaysSeparate(l, t, b, calls[0]);
      SeparateIsFitting(l, After(l, t, calls[0]), Held(l, t, b, calls[0]), calls[1..]);
    }
  }

  /** Over every run, with any frees and stores, the caller's blocks stay separate and inside the
      region if and only if every malloc that finds a hole finds one that fits. */
  lemma RunStaysSeparate(l: Layout, t: seq<u64>, b: Blocks, calls: seq<Call>)
    requires Sound(l, t, b)
    ensures RunSeparate(l, t, b, calls) <==> RunFitting(l, t, b, calls)
  {
    if RunFitting(l, t, b, calls) { FittingIsSeparate(l, t, b, calls); }
    if RunSeparate(l, t, b, calls) { SeparateIsFitting(l, t, b, calls); }
  }

  /** The check a caller can make before each malloc; there is none for free. */
  predicate MallocsGuarded(l: Layout, t: seq<u64>, calls: seq<Call>)
    requires Laid(l, |t|)
    decreases |calls|
  {
    calls == [] ||
    ((calls[0].Malloc? ==> RoomAtNthFree(t, l.entries, Pages(l), NumPages(l, calls[0].bytes)))
     && MallocsGuarded(l, After(l, t, calls[0]), calls[1..]))
  }

  lemma {:induction false} GuardedRunFits(l: Layout, t: seq<u64>, b: Blocks, calls: seq<Call>)
    requires Sound(l, t, b) && MallocsGuarded(l, t, calls)
    ensures RunFitting(l, t, b, calls)
    decreases |calls|
  {
    if calls != [] {
      if calls[0].Malloc? {
        GuardGivesRoom(t, l.entries, l.base, Pages(l), b, NumPages(l, calls[0].bytes));
      }
      FittingKeepsSound(l, t, b, calls[0]);
      GuardedRunFits(l, After(l, t, calls[0]), Held(l, t, b, calls[0]), calls[1..]);
    }
  }

  /** After init and any run in which each malloc meets its guard, with any frees and stores, the
      blocks the caller holds are page aligned, above the page table, inside the memory given to
      init, and disjoint.  If the frees meet their guards too, the table holds exactly them. */
  lemma RunIsSafe(start: nat, bytes: nat, l: Layout, t: seq<u64>, calls: seq<Call>)
    requires 4096 <= start && LaidIn(l, start, bytes) && |t| == bytes / 8
    requires forall i :: 0 <= i < l.entries ==> t[i] == 0
    ensures MallocsGuarded(l, t, calls) ==> Separate(l, RunHeld(l, t, map[], calls), start + bytes)
    ensures RunGuarded(l, t, map[], calls) ==>
              Encodes(RunTable(l, t, calls), l.entries, l.base, RunHeld(l, t, map[], calls))
              && Separate(l, RunHeld(l, t, map[], calls), start + bytes)
  {
    EmptyHeap(l, t);
    if RunGuarded(l, t, map[], calls) {
      DocumentedIsSeparate(l, t, map[], calls, start + bytes);
    }
    if MallocsGuarded(l, t, calls) {
      HeapIsSound(l, t, map[]);
      GuardedIsSeparate(l, t, map[], calls, start + bytes);
    }
  }

  lemma DocumentedIsSeparate(l: Layout, t: seq<u64>, b: Blocks, calls: seq<Call>, end: nat)
    requires Heap(l, t, b) && RunGuarded(l, t, b, calls) && l.top + l.size <= end
    ensures Encodes(RunTable(l, t, calls), l.entries, l.base, RunHeld(l, t, b, calls))
    ensures Separate(l, RunHeld(l, t, b, calls), end)
  {
    RunKeepsHeap(l, t, b, calls);
    HeapIsSound(l, RunTable(l, t, calls), RunHeld(l, t, b, calls));
    SoundIsSeparate(l, RunTable(l, t, calls), RunHeld(l, t, b, calls), end);
  }

  lemma GuardedIsSeparate(l: Layout, t: seq<u64>, b: Blocks, calls: seq<Call>, end: nat)
    requires Sound(l, t, b) && MallocsGuarded(l, t, calls) && l.top + l.size <= end
    ensures Separate(l, RunHeld(l, t, b, calls), end)
  {
    GuardedRunFits(l, t, b, calls);
    RunKeepsSound(l, t, b, calls);
    SoundIsSeparate(l, RunTable(l, t, calls), RunHeld(l, t, b, calls), end);
  }
}
