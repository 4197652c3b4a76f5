/** malloc.c: the memory region, its page table, and the calls that change them in place. */
module Heap {
  import opened Word
  import opened Wrappers
  import opened Util
  import opened HeapTable
  import opened HeapCalls

  class MemoryRegion {
    var top: nat
    var size: nat
    var pageTable: nat
    var pageTableEntries: nat
    var pageSize: nat
    var sem: nat

    // The words of memory from address pageTable to the end of the memory given to init.
    var memory: array<u64>

    constructor (memory: array<u64>)
      ensures this.memory == memory
    {
      top, size, pageTable, pageTableEntries, pageSize, sem := 0, 0, 0, 0, 0, 0;
      this.memory := memory;
    }

    function Shape(): Layout
      reads this
    {
      Layout(top, size, pageTable, pageTableEntries, pageSize)
    }

    /** What a successful init establishes and every other call keeps. */
    predicate Ready()
      reads this
    {
      Laid(Shape(), memory.Length) && sem == 0
    }

    /** The layout is the one computed, in the memory given, and the region is ready for use. */
    predicate Initialised(start: nat, bytes: nat, page: u64)
      reads this
    {
      && 0 < page && Top(start, bytes, page) <= start + bytes && Shape() == InitLayout(start, bytes, page)
      && Ready() && LaidIn(Shape(), start, bytes)
    }

    /** Prepare `bytes` bytes of memory at address `start` as a heap.  The fields that are
        assigned before a check fails keep their new values. */
    method InitMemoryRegion(start: nat, bytes: nat, page: u64) returns (status: int)
      requires start % 8 == 0 && start + bytes <= ADDRESS_SPACE && memory.Length == bytes / 8
      modifies this, memory
      ensures memory == old(memory)
      ensures status == 0 || status == -1
      ensures status == 0 <==> InitSucceeds(start, bytes, page)
      ensures status == 0 ==> Initialised(start, bytes, page)
      ensures status == 0 ==> memory[..] == Zeroed(old(memory[..]), 0, Entries(bytes, page))
      ensures status != 0 ==> memory[..] == old(memory[..]) && sem == old(sem) && size == old(size)
    {
      var pow2 := IsPow2(page);
      if !pow2 || page < 4096 {
        return -1;
      }
      PlaceTable(start, bytes, page);
      if bytes < page {
        return -1;
      }
      if (top + page) % WORD > start + bytes {
        return -1;
      }
      assert InitSucceeds(start, bytes, page);
      OpenRegion(start, bytes, page);
      return 0;
    }

    /** The second half of init: the usable size, an empty table, a free semaphore. */
    method OpenRegion(start: nat, bytes: nat, page: u64)
      requires start % 8 == 0 && start + bytes <= ADDRESS_SPACE && memory.Length == bytes / 8
      requires InitSucceeds(start, bytes, page)
      requires pageTableEntries == Entries(bytes, page) && pageTable == start && top == Top(start, bytes, page)
      modifies this, memory
      ensures memory == old(memory) && Initialised(start, bytes, page)
      ensures memory[..] == Zeroed(old(memory[..]), 0, Entries(bytes, page))
    {
      InitLaysOut(start, bytes, page);
      size := AlignDown(start + bytes - top, page);
      pageSize := page;
      ghost var l := InitLayout(start, bytes, page);
      assert Shape() == l;
      ClearTable();
      sem := 0;
      assert Shape() == l;
    }

    /** The fields assigned before the size checks; `TablePlaced` says what they mean. */
    method PlaceTable(start: nat, bytes: nat, page: u64)
      requires page > 0
      modifies this
      ensures pageTableEntries == Entries(bytes, page) && pageTable == start && top == Top(start, bytes, page)
      ensures memory == old(memory) && sem == old(sem) && size == old(size) && pageSize == old(pageSize)
    {
      pageTableEntries := bytes / page;
      pageTable := start;
      top := AlignUp((pageTable + 8 * pageTableEntries) % WORD, page);
    }

    /** The loop of init that makes every entry zero. */
    method ClearTable()
      requires pageTableEntries <= memory.Length
      modifies memory
      ensures memory[..] == Zeroed(old(memory[..]), 0, pageTableEntries)
    {
      ghost var t := memory[..];
      var cur := 0;
      while cur < pageTableEntries
        invariant 0 <= cur <= pageTableEntries && memory[..] == Zeroed(t, 0, cur)
        modifies memory
      {
        memory[cur] := 0;
        cur := cur + 1;
      }
    }

    /** The caller spins until the word is clear; alone on the table it is clear already. */
    method TakeSemaphore()
      requires sem == 0
      modifies this`sem
      ensures sem == 1
    {
      sem := 1;
    }

    method PutSemaphore()
      modifies this`sem
      ensures sem == 0
    {
      sem := 0;
    }

    /** The index of the entry found, or None for NULL.  A used page clears `start` but not
        the number of pages found. */
    method FindHole(numPages: nat) returns (r: Option<nat>)
      requires Laid(Shape(), memory.Length)
      ensures r == Hole(memory[..], pageTableEntries, numPages)
    {
      ghost var t := memory[..];
      var cur, numFound := 0, 0;
      var start: Option<nat> := None;
      while cur < pageTableEntries
        invariant 0 <= cur <= pageTableEntries && numFound == FreeCount(t, cur)
        invariant numPages > 0 ==> numFound < numPages
        invariant start == if cur > 0 && IsFree(t, cur - 1) then Some(RunStart(t, cur)) else None
      {
        ValidMeans(memory[cur]);
        if PageEntryValid(memory[cur]) == 0 {
          numFound := numFound + 1;
          start := if start == None then Some(cur) else start;
          if numFound == numPages {
            NthFreeIs(t, pageTableEntries, numPages, cur);
            return start;
          }
        } else {
          start := None;
        }
        cur := cur + 1;
      }
      return None;
    }

    method MarkPagesUsed(start: nat, numPages: nat)
      requires pageTable % 2 == 0 && EntryAddr(pageTable, memory.Length) < WORD
      requires 1 <= numPages && start + numPages <= memory.Length
      modifies memory
      ensures memory[..] == Marked(old(memory[..]), pageTable, start, numPages)
    {
      ghost var t := memory[..];
      var startEntry := EntryAddr(pageTable, start);
      memory[start] := 1;
      var i := 1;
      while i < numPages
        invariant 1 <= i <= numPages
        invariant memory[..] == Marked(t, pageTable, start, i)
        modifies memory
      {
        memory[start + i] := Tag(startEntry);
        i := i + 1;
      }
    }

    /** `1 | address`, the entry of every page of a block but the first. */
    static method Tag(startEntry: nat) returns (tag: u64)
      requires startEntry % 2 == 0 && startEntry + 1 < WORD
      ensures tag == startEntry + 1
    {
      TagIsOr(startEntry);
      tag := Or(1, startEntry);
    }

    /** Allocate memory for `bytes` bytes; the semaphore is put twice on success. */
    method Malloc(bytes: u64) returns (addr: nat)
      requires Ready()
      modifies this`sem, memory
      ensures Ready()
      ensures addr == MallocAddr(Shape(), old(memory[..]), bytes)
      ensures memory[..] == MallocTable(Shape(), old(memory[..]), bytes)
    {
      ghost var l, t := Shape(), memory[..];
      var numPages := CeilDiv(bytes, pageSize);
      TakeSemaphore();
      var entry := FindHole(numPages);
      assert entry == MallocHole(l, t, bytes);
      match entry {
        case None =>
          addr := NULL;
        case Some(s) =>
          HoleFitsMemory(t, l.entries, numPages);
          TableIsAligned(pageTable);
          MarkPagesUsed(s, numPages);
          assert memory[..] == MallocTable(l, t, bytes);
          PutSemaphore();
          addr := (s * pageSize + top) % WORD;
      }
      PutSemaphore();
      assert Shape() == l;
    }

    /** Release the block at `addr`.  An address that is not accepted changes nothing. */
    method Free(addr: nat)
      requires Ready()
      modifies this`sem, memory
      ensures Ready()
      ensures memory[..] == FreeTable(Shape(), old(memory[..]), addr)
    {
      if addr == NULL {
        return;
      }
      if addr < top || addr > top + size {
        return;
      }
      HeapIndexFits(Shape(), memory.Length, addr);
      var idx := (addr - top) / pageSize;
      TakeSemaphore();
      if addr != top + idx * pageSize || !IsFirstPageInBlock(memory[idx]) {
        PutSemaphore();
        return;
      }
      ReleaseFrom(idx);
      PutSemaphore();
    }

    /** The loop of free: clear the first entry and every entry that carries its tag. */
    method ReleaseFrom(idx: nat)
      requires idx < memory.Length
      modifies memory
      ensures memory[..] == Freed(old(memory[..]), pageTable, idx)
    {
      ghost var t := memory[..];
      var startEntry := EntryAddr(pageTable, idx);
      var cur := idx;
      memory[cur] := 0;
      cur := cur + 1;
      while cur < memory.Length && PageEntryStartAddr(memory[cur]) == startEntry
        invariant idx < cur <= memory.Length
        invariant memory[..] == Zeroed(t, idx, cur)
        invariant TagEnd(t, idx + 1, startEntry) == TagEnd(t, cur, startEntry)
        decreases memory.Length - cur
        modifies memory
      {
        memory[cur] := 0;
        cur := cur + 1;
      }
    }
  }

  lemma TableIsAligned(base: nat)
    requires base % 8 == 0
    ensures base % 2 == 0
  {
    assert base == 2 * (4 * (base / 8));
  }

  lemma HeapIndexFits(l: Layout, words: nat, addr: nat)
    requires Laid(l, words) && l.top <= addr <= l.top + l.size
    ensures PageIndex(l, addr) < words
  {
    DivBounds(addr - l.top, l.pageSize);
    DivBounds(l.size, l.pageSize);
    if PageIndex(l, addr) > Pages(l) {
      MulMonotone(Pages(l) + 1, PageIndex(l, addr), l.pageSize);
      MulSum(Pages(l), 1, l.pageSize);
    }
  }
}
