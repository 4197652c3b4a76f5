/** Whole calls of init, malloc and free: addresses and sizes. */
module HeapCalls {
  import opened Word
  import opened Wrappers
  import opened Util
  import opened HeapTable
  import opened HeapBlocks

  const NULL: nat := 0

  /** The constant fields of a `memory_region`. */
  datatype Layout = Layout(top: nat, size: nat, base: nat, entries: nat, pageSize: nat)

  /** Pages that really lie in the region. */
  function Pages(l: Layout): nat
    requires l.pageSize > 0
  {
    l.size / l.pageSize
  }

  /** What a successful init establishes for a table backed by `words` words of memory. */
  predicate Laid(l: Layout, words: nat) {
    && IsPage(l.pageSize)
    && l.base % 8 == 0 && EntryAddr(l.base, l.entries) <= l.top
    && 1 <= Pages(l) <= l.entries && 2 * l.entries < words
    && l.top % l.pageSize == 0 && l.size % l.pageSize == 0
    && l.top + l.size <= EntryAddr(l.base, words) + 7
    && EntryAddr(l.base, words) <= ADDRESS_SPACE
    && l.entries * l.pageSize <= ADDRESS_SPACE
  }

  /** A layout whose table starts the given memory and whose pages end inside it. */
  predicate LaidIn(l: Layout, start: nat, bytes: nat) {
    Laid(l, bytes / 8) && l.base == start && l.top + l.size <= start + bytes
  }

  predicate IsPage(p: nat) {
    4096 <= p < WORD
  }

  /** Entries, top and usable size computed by init for `bytes` bytes at `start`. */
  function Entries(bytes: nat, page: nat): nat
    requires page > 0
  {
    bytes / page
  }

  function Top(start: nat, bytes: nat, page: nat): nat
    requires 0 < page < WORD
  {
    AlignUp(EntryAddr(start, Entries(bytes, page)) % WORD, page)
  }

  /** The conditions under which init succeeds. */
  ghost predicate InitSucceeds(start: nat, bytes: nat, page: nat) {
    && 4096 <= page < WORD && IsPowerOfTwo(page)
    && page <= bytes
    && (Top(start, bytes, page) + page) % WORD <= start + bytes
  }

  function InitLayout(start: nat, bytes: nat, page: nat): Layout
    requires 0 < page < WORD && Top(start, bytes, page) <= start + bytes
  {
    var top := Top(start, bytes, page);
    Layout(top, AlignDown(start + bytes - top, page), start, Entries(bytes, page), page)
  }

  lemma DivBounds(a: nat, m: nat)
    requires m > 0
    ensures (a / m) * m <= a < (a / m) * m + m
  {
    DivModParts(a, m);
  }

  lemma DivLeast(a: nat, m: nat, q: nat)
    requires m > 0 && q * m <= a
    ensures q <= a / m
  {
    DivModParts(a, m);
    if a / m + 1 <= q { MulMonotone(a / m + 1, q, m); }
  }

  /** Two multiples of m in a window of width m are the same. */
  lemma SameMultiple(a: nat, b: nat, m: nat, low: nat)
    requires low <= a * m < low + m && low <= b * m < low + m
    ensures a == b
  {
    if a < b { MulMonotone(a + 1, b, m); MulSum(a, 1, m); }
    if b < a { MulMonotone(b + 1, a, m); MulSum(b, 1, m); }
  }

  /** A region of e pages and r bytes whose first `gap` bytes are taken has n pages left. */
  lemma CountBounds(e: nat, n: nat, c: nat, page: nat, r: nat, gap: nat)
    requires r < page && 8 * e <= gap < 8 * e + page && 8 * e <= c * page < 8 * e + page
    requires n * page + gap <= e * page + r < n * page + page + gap
    ensures n <= e && e - n <= c + 1
    ensures gap == c * page ==> e - n == c
  {
    if n > e { MulMonotone(e + 1, n, page); MulSum(e, 1, page); }
    if e > n + c + 1 { MulMonotone(n + c + 2, e, page); MulSum(n + c, 2, page); MulSum(n, c, page); }
    if gap == c * page && n + c < e { MulMonotone(n + c + 1, e, page); MulSum(n + c, 1, page); MulSum(n, c, page); }
    if gap == c * page && n + c > e { MulMonotone(e + 1, n + c, page); MulSum(e, 1, page); MulSum(n, c, page); }
  }

  /** There is an entry for each whole page, and the pages start at the first page boundary behind
      the table, whether or not init goes on to succeed. */
  lemma TablePlaced(start: nat, bytes: nat, page: nat)
    requires IsPowerOfTwo(page) && 4096 <= page && start + bytes + page <= WORD
    ensures page < WORD
    ensures var e := Entries(bytes, page); e * page <= bytes < e * page + page
    ensures var end, top := EntryAddr(start, Entries(bytes, page)), Top(start, bytes, page);
            top % page == 0 && end <= top < end + page
  {
    var e := Entries(bytes, page);
    DivBounds(bytes, page);
    MulMonotone(4096, page, e);
    var end := EntryAddr(start, e);
    assert end <= start + bytes;
    Fits(end);
    AlignUpRounds(end, page);
  }

  /** A whole page, at a page boundary, in the memory from low to high. */
  predicate PageBetween(k: nat, page: nat, low: nat, high: nat) {
    low <= k * page && k * page + page <= high
  }

  ghost predicate HasPage(page: nat, low: nat, high: nat) {
    exists k: nat :: PageBetween(k, page, low, high)
  }

  /** Init accepts memory exactly when a whole page lies behind the table it needs. */
  lemma {:induction false} InitAccepts(start: nat, bytes: nat, page: nat)
    requires start + bytes <= ADDRESS_SPACE
    ensures InitSucceeds(start, bytes, page)
            <==> 4096 <= page < WORD && IsPowerOfTwo(page)
                 && HasPage(page, EntryAddr(start, Entries(bytes, page)), start + bytes)
  {
    if InitSucceeds(start, bytes, page) {
      LastPage(start, bytes, page);
    }
    if 4096 <= page < WORD && IsPowerOfTwo(page) {
      var low, high := EntryAddr(start, Entries(bytes, page)), start + bytes;
      if HasPage(page, low, high) {
        var k: nat :| PageBetween(k, page, low, high);
        PageIsEnough(start, bytes, page, k);
      }
    }
  }

  lemma LastPage(start: nat, bytes: nat, page: nat)
    requires start + bytes <= ADDRESS_SPACE && InitSucceeds(start, bytes, page)
    ensures HasPage(page, EntryAddr(start, Entries(bytes, page)), start + bytes)
  {
    TableIsSmall(start, bytes, page);
    var top := Top(start, bytes, page);
    DivModParts(top, page);
    assert PageBetween(top / page, page, EntryAddr(start, Entries(bytes, page)), start + bytes);
  }

  lemma PageIsEnough(start: nat, bytes: nat, page: nat, k: nat)
    requires start + bytes <= ADDRESS_SPACE && 4096 <= page < WORD && IsPowerOfTwo(page)
    requires PageBetween(k, page, EntryAddr(start, Entries(bytes, page)), start + bytes)
    ensures InitSucceeds(start, bytes, page)
  {
    var e, p := Entries(bytes, page), k * page;
    var end := EntryAddr(start, e);
    PageFits(bytes, page, p, end, start + bytes, start);
    TopBelow(end, page, k);
    SumFits(AlignUp(end % WORD, page), page, p, start + bytes);
    TopIs(start, bytes, page, e);
  }

  lemma TopIs(start: nat, bytes: nat, page: nat, e: nat)
    requires 0 < page < WORD && e == Entries(bytes, page)
    ensures Top(start, bytes, page) == AlignUp(EntryAddr(start, e) % WORD, page)
  {
  }

  lemma PageFits(bytes: nat, page: nat, p: nat, low: nat, high: nat, start: nat)
    requires start <= low <= p && p + page <= high == start + bytes
    ensures page <= bytes
  {
  }

  lemma SumFits(top: nat, page: nat, p: nat, high: nat)
    requires top <= p && p + page <= high < WORD
    ensures (top + page) % WORD <= high
  {
    Fits(top + page);
  }

  lemma TopBelow(end: nat, page: nat, k: nat)
    requires IsPowerOfTwo(page) && 4096 <= page < WORD && end <= k * page && k * page + page <= ADDRESS_SPACE
    ensures end < WORD && AlignUp(end % WORD, page) <= k * page
  {
    Fits(end);
    AlignUpRounds(end, page);
    NotAbove(AlignUp(end, page), end, page, k);
  }

  /** The first multiple at or above a bound is not above any other. */
  lemma NotAbove(top: nat, end: nat, page: nat, k: nat)
    requires page > 0 && top % page == 0 && end <= top < end + page && end <= k * page
    ensures top <= k * page
  {
    DivModParts(top, page);
    FirstMultiple(top / page, end, page, k);
  }

  lemma FirstMultiple(q: nat, end: nat, page: nat, k: nat)
    requires q * page < end + page && end <= k * page
    ensures q * page <= k * page
  {
    if q <= k {
      MulMonotone(q, k, page);
    } else {
      MulMonotone(k + 1, q, page);
      MulSum(k, 1, page);
    }
  }

  /** A successful init leaves a table followed by whole pages, all inside the memory given. */
  lemma InitLaysOut(start: nat, bytes: nat, page: nat)
    requires start % 8 == 0 && start + bytes <= ADDRESS_SPACE && InitSucceeds(start, bytes, page)
    ensures Top(start, bytes, page) + page <= start + bytes
    ensures LaidIn(InitLayout(start, bytes, page), start, bytes)
  {
    TableIsSmall(start, bytes, page);
    InitUsable(start, bytes, page);
  }

  /** The top is the first page boundary at or after the table, and the pages lost to the
      table are as few as they can be. */
  lemma InitArithmetic(start: nat, bytes: nat, page: nat)
    requires start % 8 == 0 && start + bytes <= ADDRESS_SPACE && InitSucceeds(start, bytes, page)
    ensures Top(start, bytes, page) + page <= start + bytes
    ensures var l := InitLayout(start, bytes, page);
            && 1 <= Pages(l) <= l.entries
            && EntryAddr(start, l.entries) <= l.top < EntryAddr(start, l.entries) + page
    ensures var l := InitLayout(start, bytes, page);
            l.entries - Pages(l) <= CeilDiv(8 * l.entries, page) + 1
    ensures var l := InitLayout(start, bytes, page);
            start % page == 0 ==> l.entries - Pages(l) == CeilDiv(8 * l.entries, page)
  {
    var e := Entries(bytes, page);
    TableIsSmall(start, bytes, page);
    var top := Top(start, bytes, page);
    InitUsable(start, bytes, page);
    var l := InitLayout(start, bytes, page);
    var n, c := Pages(l), CeilDiv(8 * e, page);
    DivBounds(bytes, page);
    var up := 8 * e + (page - 1);
    assert up < WORD;
    Fits(up);
    assert c == up / page;
    DivBounds(up, page);
    assert l.size == n * page;
    CountBounds(e, n, c, page, bytes - e * page, top - start);
    if start % page == 0 {
      AlignedGap(start, top, page, c, 8 * e);
    }
  }

  lemma AlignedGap(start: nat, top: nat, page: nat, c: nat, low: nat)
    requires page > 0 && start % page == 0 && top % page == 0
    requires start + low <= top < start + low + page && low <= c * page < low + page
    ensures top - start == c * page
  {
    DivModParts(start, page);
    DivModParts(top, page);
    var q, s := top / page, start / page;
    if q < s { MulMonotone(q, s, page); }
    MulSum(q - s, s, page);
    SameMultiple(q - s, c, page, low);
  }

  /** The table is far smaller than the region, so no address computed by init wraps. */
  lemma TableIsSmall(start: nat, bytes: nat, page: nat)
    requires start + bytes <= ADDRESS_SPACE && InitSucceeds(start, bytes, page)
    ensures var e := Entries(bytes, page); 1 <= e && e * page <= bytes && e * 4096 <= bytes
    ensures var end := start + 8 * Entries(bytes, page);
            Top(start, bytes, page) == AlignUp(end, page) && end <= Top(start, bytes, page) < end + page
    ensures Top(start, bytes, page) % page == 0 && Top(start, bytes, page) + page <= start + bytes
  {
    var e := Entries(bytes, page);
    EntriesSmall(bytes, page);
    var end := start + 8 * e;
    assert page <= bytes <= ADDRESS_SPACE && end <= start + bytes;
    Fits(end);
    AlignUpRounds(end, page);
    var top := Top(start, bytes, page);
    assert top == AlignUp(end, page);
    Fits(top + page);
  }

  lemma EntriesSmall(bytes: nat, page: nat)
    requires 4096 <= page <= bytes
    ensures var e := Entries(bytes, page); 1 <= e && e * page <= bytes && e * 4096 <= bytes
  {
    var e := Entries(bytes, page);
    DivBounds(bytes, page);
    DivLeast(bytes, page, 1);
    MulMonotone(4096, page, e);
  }

  /** What is left above the table is a whole number of pages. */
  lemma InitUsable(start: nat, bytes: nat, page: nat)
    requires start % 8 == 0 && start + bytes <= ADDRESS_SPACE && InitSucceeds(start, bytes, page)
    requires Top(start, bytes, page) + page <= start + bytes
    ensures var l := InitLayout(start, bytes, page);
            var room := start + bytes - l.top;
            && Laid(l, bytes / 8) && l.size == Pages(l) * page && l.size <= room < l.size + page
  {
    TableIsSmall(start, bytes, page);
    var e, top := Entries(bytes, page), Top(start, bytes, page);
    var room := start + bytes - top;
    WholePages(room, page);
    EntriesAreEnough(bytes, page, room);
    UsableIsLaid(start, bytes, Layout(top, AlignDown(room, page), start, e, page));
  }

  lemma UsableIsLaid(start: nat, bytes: nat, l: Layout)
    requires start % 8 == 0 && start + bytes <= ADDRESS_SPACE && l.base == start && IsPage(l.pageSize)
    requires EntryAddr(start, l.entries) <= l.top && l.top + l.size <= start + bytes
    requires l.top % l.pageSize == 0 && l.size % l.pageSize == 0 && 1 <= Pages(l) <= l.entries
    requires l.entries * l.pageSize <= bytes && l.entries * 4096 <= bytes
    ensures Laid(l, bytes / 8)
  {
    var words := bytes / 8;
    assert 8 * words <= bytes < 8 * words + 8;
    assert 2 * l.entries < words;
  }

  lemma WholePages(room: nat, page: nat)
    requires IsPage(page) && IsPowerOfTwo(page) && page <= room < WORD
    ensures var size := AlignDown(room, page);
            && size % page == 0 && size == (size / page) * page && size / page == room / page >= 1
            && size <= room < size + page
  {
    AlignDownRounds(room, page);
    DivLeast(room, page, 1);
    ModUnique((room / page) * page, page, room / page, 0);
  }

  lemma EntriesAreEnough(bytes: nat, page: nat, room: nat)
    requires page > 0 && room <= bytes
    ensures room / page <= Entries(bytes, page)
  {
    DivBounds(room, page);
    DivLeast(bytes, page, room / page);
  }

  /** Pages a request takes; the sum in the numerator wraps around. */
  function NumPages(l: Layout, bytes: nat): nat
    requires l.pageSize > 0
  {
    CeilDiv(bytes, l.pageSize)
  }

  function MallocHole(l: Layout, t: seq<u64>, bytes: nat): Option<nat>
    requires Laid(l, |t|)
  {
    Hole(t, l.entries, NumPages(l, bytes))
  }

  lemma HoleFitsMemory(t: seq<u64>, e: nat, n: nat)
    requires 2 * e < |t|
    ensures var r := Hole(t, e, n); r.Some? ==> 1 <= n && r.value < e && r.value + n <= |t|
  {
  }

  /** The table after a malloc, and the address it returns. */
  function MallocTable(l: Layout, t: seq<u64>, bytes: nat): (r: seq<u64>)
    requires Laid(l, |t|)
    ensures |r| == |t|
  {
    HoleFitsMemory(t, l.entries, NumPages(l, bytes));
    AfterMalloc(t, l.base, MallocHole(l, t, bytes), NumPages(l, bytes))
  }

  function MallocAddr(l: Layout, t: seq<u64>, bytes: nat): nat
    requires Laid(l, |t|)
  {
    match MallocHole(l, t, bytes)
    case Some(s) => (s * l.pageSize + l.top) % WORD
    case None => NULL
  }

  /** The entry an address selects in free. */
  function PageIndex(l: Layout, addr: nat): nat
    requires l.pageSize > 0 && l.top <= addr
  {
    (addr - l.top) / l.pageSize
  }

  predicate Accepted(l: Layout, t: seq<u64>, addr: nat)
    requires Laid(l, |t|)
  {
    addr != NULL && l.top <= addr <= l.top + l.size &&
    var i := PageIndex(l, addr);
    addr == l.top + i * l.pageSize && i < |t| && IsFirstPageInBlock(t[i])
  }

  /** The table after a free. */
  function FreeTable(l: Layout, t: seq<u64>, addr: nat): (r: seq<u64>)
    requires Laid(l, |t|)
    ensures |r| == |t|
  {
    if Accepted(l, t, addr) then Freed(t, l.base, PageIndex(l, addr)) else t
  }
}
