/** The live blocks a page table stands for, what malloc and free are documented to do to
    them, and exactly when the table operations of malloc.c do that. */
module HeapBlocks {
  import opened Word
  import opened Wrappers
  import opened HeapTable

  /** First entry of each live block, mapped to its number of pages. */
  type Blocks = map<nat, nat>

  predicate Covers(b: Blocks, s: nat, i: nat) {
    s in b && s <= i < s + b[s]
  }

  ghost predicate Vacant(b: Blocks, i: nat) {
    forall s :: s in b ==> !Covers(b, s, i)
  }

  /** The entries of the block at s: a one, then tags that name the first entry. */
  predicate BlockAt(t: seq<u64>, base: nat, s: nat, n: nat) {
    && 1 <= n && s + n <= |t|
    && t[s] == 1
    && forall i :: s < i < s + n ==> t[i] == EntryAddr(base, s) + 1
  }

  /** The table holds exactly the blocks b, and every other entry is zero. */
  ghost predicate Encodes(t: seq<u64>, e: nat, base: nat, b: Blocks) {
    && e <= |t|
    && (forall s :: s in b ==> BlockAt(t, base, s, b[s]) && s + b[s] <= e)
    && (forall i :: 0 <= i < e ==> Accounted(t, b, i))
  }

  /** Entry i is zero or part of a block. */
  ghost predicate Accounted(t: seq<u64>, b: Blocks, i: nat) {
    i < |t| && (t[i] == 0 || exists s :: Covers(b, s, i))
  }

  /** Every block lies in the first `limit` pages. */
  ghost predicate Within(b: Blocks, limit: nat) {
    forall s :: s in b ==> s + b[s] <= limit
  }

  /** The table sits above the first page and its entries are aligned words. */
  predicate TableAt(base: nat, t: seq<u64>) {
    4096 <= base && base % 8 == 0 && EntryAddr(base, |t|) < WORD
  }

  /** Tags are odd and too large for a first entry. */
  lemma TagFacts(base: nat, t: seq<u64>, s: nat)
    requires TableAt(base, t) && s < |t|
    ensures var a := EntryAddr(base, s);
            a % 2 == 0 && a + 1 < WORD && Used(a + 1) && a + 1 != 1
    ensures var a := EntryAddr(base, s);
            PageEntryStartAddr(a + 1) == a - a % 4096
  {
    var a := EntryAddr(base, s);
    assert a == 8 * (base / 8 + s);
    Parity(a, base / 8 + s);
    MaskedTag(a, base / 8 + s);
  }

  lemma Parity(a: nat, m: nat)
    requires a == 8 * m && a + 1 < WORD
    ensures a % 2 == 0 && Used(a + 1)
  {
    ModUnique(a, 2, 4 * m, 0);
    ModUnique(a + 1, 2, 4 * m, 1);
  }

  lemma MaskedTag(a: nat, m: nat)
    requires a == 8 * m && a + 1 < WORD
    ensures PageEntryStartAddr(a + 1) == a - a % 4096
  {
    var q, r := a / 4096, a % 4096;
    assert a == 4096 * q + r;
    AlignedRemainder(m, q, r);
    ModUnique(a + 1, 4096, q, r + 1);
    StartAddrMeans(a + 1);
  }

  /** The remainder of a multiple of 8 is a multiple of 8, so it leaves room for the tag bit. */
  lemma AlignedRemainder(m: nat, q: nat, r: nat)
    requires 8 * m == 4096 * q + r && r < 4096
    ensures r <= 4088
  {
    assert r == 8 * (m - 512 * q);
  }

  /** No page belongs to two live blocks. */
  lemma BlocksDisjoint(t: seq<u64>, e: nat, base: nat, b: Blocks, s1: nat, s2: nat)
    requires Encodes(t, e, base, b) && TableAt(base, t) && s1 in b && s2 in b && s1 < s2
    ensures s1 + b[s1] <= s2
  {
    assert BlockAt(t, base, s1, b[s1]) && BlockAt(t, base, s2, b[s2]);
    TagFacts(base, t, s1);
  }

  /** An entry is marked in use exactly when its page belongs to a live block. */
  lemma FreeIsVacant(t: seq<u64>, e: nat, base: nat, b: Blocks, i: nat)
    requires Encodes(t, e, base, b) && TableAt(base, t) && i < e
    ensures IsFree(t, i) <==> Vacant(b, i)
    ensures IsFree(t, i) ==> t[i] == 0
  {
    assert Accounted(t, b, i);
    if s :| Covers(b, s, i) {
      assert BlockAt(t, base, s, b[s]);
      TagFacts(base, t, s);
    }
  }

  /** The table determines the blocks. */
  lemma EncodesUnique(t: seq<u64>, e: nat, base: nat, b: Blocks, b': Blocks)
    requires Encodes(t, e, base, b) && Encodes(t, e, base, b') && TableAt(base, t)
    ensures b == b'
  {
    BlocksIncluded(t, e, base, b, b');
    BlocksIncluded(t, e, base, b', b);
  }

  lemma BlocksIncluded(t: seq<u64>, e: nat, base: nat, b: Blocks, b': Blocks)
    requires Encodes(t, e, base, b) && Encodes(t, e, base, b') && TableAt(base, t)
    ensures forall s :: s in b ==> s in b' && b[s] <= b'[s]
  {
    forall s | s in b ensures s in b' && b[s] <= b'[s] {
      FirstEntryInBoth(t, e, base, b, b', s);
      assert BlockAt(t, base, s, b[s]) && BlockAt(t, base, s, b'[s]);
      if b'[s] < b[s] {
        var i := s + b'[s];
        assert t[i] == EntryAddr(base, s) + 1;
        TagFacts(base, t, s);
        assert Accounted(t, b', i);
        var r: nat :| Covers(b', r, i);
        if r < s { BlocksDisjoint(t, e, base, b', r, s); }
      }
    }
  }

  lemma FirstEntryInBoth(t: seq<u64>, e: nat, base: nat, b: Blocks, b': Blocks, s: nat)
    requires Encodes(t, e, base, b) && Encodes(t, e, base, b') && TableAt(base, t) && s in b
    ensures s in b'
  {
    assert BlockAt(t, base, s, b[s]);
    assert Accounted(t, b', s);
    var r: nat :| Covers(b', r, s);
    assert BlockAt(t, base, r, b'[r]);
    TagFacts(base, t, r);
  }

  /** n consecutive pages at s that no block uses, below limit. */
  ghost predicate Room(b: Blocks, limit: nat, s: nat, n: nat) {
    1 <= n && s + n <= limit && forall i :: s <= i < s + n ==> Vacant(b, i)
  }

  /** What malloc is documented to do: take the lowest room, or nothing when there is none. */
  ghost predicate IntendedMalloc(b: Blocks, limit: nat, n: nat, r: Option<nat>, b': Blocks) {
    match r
    case Some(s) => Room(b, limit, s, n) && (forall s' :: 0 <= s' < s ==> !Room(b, limit, s', n)) && b' == b[s := n]
    case None => (forall s' :: 0 <= s' ==> !Room(b, limit, s', n)) && b' == b
  }

  /** The table after malloc's search and marking. */
  function AfterMalloc(t: seq<u64>, base: nat, r: Option<nat>, n: nat): seq<u64>
    requires r.Some? ==> 1 <= n && r.value + n <= |t| && EntryAddr(base, |t|) < WORD
  {
    match r case Some(s) => Marked(t, base, s, n) case None => t
  }

  lemma RoomIsHole(t: seq<u64>, e: nat, base: nat, b: Blocks, limit: nat, s: nat, n: nat)
    requires Encodes(t, e, base, b) && TableAt(base, t) && limit <= e
    ensures Room(b, limit, s, n) <==> IsHole(t, limit, s, n)
  {
    forall i: nat | i < e ensures IsFree(t, i) <==> Vacant(b, i) { FreeIsVacant(t, e, base, b, i); }
  }

  /** Marking a hole adds one block. */
  lemma MarkedEncodes(t: seq<u64>, e: nat, base: nat, b: Blocks, s: nat, n: nat)
    requires Encodes(t, e, base, b) && TableAt(base, t) && Room(b, e, s, n)
    ensures Encodes(Marked(t, base, s, n), e, base, b[s := n])
  {
    var t', b' := Marked(t, base, s, n), b[s := n];
    assert Vacant(b, s);
    assert s !in b by { if s in b { assert BlockAt(t, base, s, b[s]) && Covers(b, s, s); } }
    forall r | r in b' ensures BlockAt(t', base, r, b'[r]) && r + b'[r] <= e {
      if r != s {
        assert BlockAt(t, base, r, b[r]);
        forall i | r <= i < r + b[r] ensures t'[i] == t[i] {
          assert s <= i < s + n ==> Vacant(b, i);
          assert Covers(b, r, i);
        }
      }
    }
    forall i | 0 <= i < e ensures Accounted(t', b', i) {
      assert Accounted(t, b, i);
      if s <= i < s + n {
        assert Covers(b', s, i);
      } else if r :| Covers(b, r, i) {
        assert Covers(b', r, i);
      }
    }
  }

  /** What the documentation asks of malloc holds of the search and the marking exactly when
      the run of free pages that holds the n-th one has room for the block. */
  lemma MallocMeetsIntent(t: seq<u64>, e: nat, base: nat, b: Blocks, limit: nat, n: nat)
    requires Encodes(t, e, base, b) && TableAt(base, t) && limit <= e && 2 * e <= |t|
    ensures var r := Hole(t, e, n);
            r.Some? ==> r.value + n <= |t|
    ensures var r := Hole(t, e, n);
            (exists b' :: IntendedMalloc(b, limit, n, r, b') && Encodes(AfterMalloc(t, base, r, n), e, base, b'))
            <==> RoomAtNthFree(t, e, limit, n)
  {
    var r := Hole(t, e, n);
    HoleIsFirstFit(t, e, limit, n);
    forall s: nat ensures Room(b, limit, s, n) <==> IsHole(t, limit, s, n) {
      RoomIsHole(t, e, base, b, limit, s, n);
    }
    if RoomAtNthFree(t, e, limit, n) {
      match r {
        case Some(s) =>
          assert Room(b, e, s, n);
          MarkedEncodes(t, e, base, b, s, n);
          assert IntendedMalloc(b, limit, n, r, b[s := n]);
        case None =>
          assert IntendedMalloc(b, limit, n, r, b);
      }
    }
  }

  /** Freeing the block at s as documented: all its pages, and no other word of memory. */
  ghost predicate IntendedFree(t: seq<u64>, e: nat, base: nat, b: Blocks, s: nat, t': seq<u64>) {
    && |t'| == |t|
    && Encodes(t', e, base, b - {s})
    && forall i :: e <= i < |t| ==> t'[i] == t[i]
  }

  /** The masked tag still names the first entry, and the word after the block does not. */
  predicate TagsRecoverable(t: seq<u64>, e: nat, base: nat, s: nat, n: nat)
    requires s < s + n <= e < |t|
  {
    var a := EntryAddr(base, s);
    && (n == 1 || a % 4096 == 0)
    && (s + n == e ==> PageEntryStartAddr(t[e]) != a)
  }

  lemma ZeroedEncodes(t: seq<u64>, e: nat, base: nat, b: Blocks, s: nat)
    requires Encodes(t, e, base, b) && TableAt(base, t) && s in b
    ensures IntendedFree(t, e, base, b, s, Zeroed(t, s, s + b[s]))
  {
    var t', b' := Zeroed(t, s, s + b[s]), b - {s};
    assert BlockAt(t, base, s, b[s]);
    forall r | r in b' ensures BlockAt(t', base, r, b'[r]) && r + b'[r] <= e {
      assert BlockAt(t, base, r, b[r]);
      if r < s { BlocksDisjoint(t, e, base, b, r, s); } else { BlocksDisjoint(t, e, base, b, s, r); }
    }
    forall i | 0 <= i < e ensures Accounted(t', b', i) {
      assert Accounted(t, b, i);
      if t'[i] != 0 {
        var r: nat :| Covers(b, r, i);
        assert Covers(b', r, i);
      }
    }
  }

  /** The loop of free stops no earlier than the end of the block when the tags survive masking,
      and then exactly there unless the word after the table happens to carry the tag. */
  lemma TagEndOfBlock(t: seq<u64>, e: nat, base: nat, b: Blocks, s: nat)
    requires Encodes(t, e, base, b) && TableAt(base, t) && s in b && e < |t|
    ensures var a := EntryAddr(base, s);
            var stop := TagEnd(t, s + 1, a);
            if b[s] > 1 && a % 4096 != 0 then stop == s + 1
            else stop >= s + b[s] && (stop == s + b[s] <==> PageEntryStartAddr(t[s + b[s]]) != a)
    ensures var a := EntryAddr(base, s);
            s + b[s] < e ==> PageEntryStartAddr(t[s + b[s]]) != a
  {
    var n := b[s];
    assert BlockAt(t, base, s, n);
    BlockTags(t, base, s, n);
    if n == 1 || EntryAddr(base, s) % 4096 == 0 {
      TagEndPast(t, s + 1, s + n, EntryAddr(base, s));
    }
    if s + n < e {
      WordAfterBlock(t, e, base, b, s);
    }
  }

  /** The masked tags of a block. */
  lemma BlockTags(t: seq<u64>, base: nat, s: nat, n: nat)
    requires TableAt(base, t) && BlockAt(t, base, s, n)
    ensures var a := EntryAddr(base, s);
            forall i :: s < i < s + n ==> PageEntryStartAddr(t[i]) == a - a % 4096
  {
    TagFacts(base, t, s);
  }

  /** When masking destroys the tag of a longer block, free clears its first entry and no other word. */
  lemma FreedLosesPages(t: seq<u64>, base: nat, s: nat, n: nat)
    requires TableAt(base, t) && BlockAt(t, base, s, n)
    requires n > 1 && EntryAddr(base, s) % 4096 != 0
    ensures Freed(t, base, s) == t[s := 0]
  {
    BlockTags(t, base, s, n);
  }

  lemma {:induction false} TagEndPast(t: seq<u64>, k: nat, m: nat, a: nat)
    requires k <= m < |t| && forall i :: k <= i < m ==> PageEntryStartAddr(t[i]) == a
    ensures TagEnd(t, k, a) >= m && (TagEnd(t, k, a) == m <==> PageEntryStartAddr(t[m]) != a)
    decreases m - k
  {
    if k < m { TagEndPast(t, k + 1, m, a); }
  }

  /** After a block the next entry is free or the first of another block. */
  lemma WordAfterBlock(t: seq<u64>, e: nat, base: nat, b: Blocks, s: nat)
    requires Encodes(t, e, base, b) && TableAt(base, t) && s in b && s + b[s] < e
    ensures PageEntryStartAddr(t[s + b[s]]) == 0
  {
    var i := s + b[s];
    assert BlockAt(t, base, s, b[s]);
    assert Accounted(t, b, i);
    if t[i] != 0 {
      var r: nat :| Covers(b, r, i);
      assert BlockAt(t, base, r, b[r]);
      if r < s { BlocksDisjoint(t, e, base, b, r, s); }
      if s < r < i { BlocksDisjoint(t, e, base, b, s, r); }
    }
    MacrosMean(t[i]);
  }

  /** Freeing releases exactly the pages of the block if and only if the masked tag still
      names the block and the word behind the table does not. */
  lemma FreeMeetsIntent(t: seq<u64>, e: nat, base: nat, b: Blocks, s: nat)
    requires Encodes(t, e, base, b) && TableAt(base, t) && s in b && e < |t|
    ensures IntendedFree(t, e, base, b, s, Freed(t, base, s)) <==> TagsRecoverable(t, e, base, s, b[s])
  {
    var a, n := EntryAddr(base, s), b[s];
    assert BlockAt(t, base, s, n);
    TagEndOfBlock(t, e, base, b, s);
    TagFacts(base, t, s);
    var stop := TagEnd(t, s + 1, a);
    var t' := Freed(t, base, s);
    ZeroedEncodes(t, e, base, b, s);
    if n > 1 && a % 4096 != 0 {
      LeakedPage(t, e, base, b, s, t');
    } else if s + n == e && PageEntryStartAddr(t[e]) == a {
      assert t'[e] == 0;
      MacrosMean(t[e]);
      assert t[e] != 0;
    } else {
      assert stop == s + n || n == 1;
    }
  }

  /** A continuation entry left behind belongs to no remaining block. */
  lemma LeakedPage(t: seq<u64>, e: nat, base: nat, b: Blocks, s: nat, t': seq<u64>)
    requires Encodes(t, e, base, b) && TableAt(base, t) && s in b && b[s] > 1
    requires |t'| == |t| && t'[s + 1] != 0
    ensures !Encodes(t', e, base, b - {s})
  {
    assert BlockAt(t, base, s, b[s]);
    var b', i := b - {s}, s + 1;
    forall r: nat ensures !Covers(b', r, i) {
      if r in b' {
        if r < s { BlocksDisjoint(t, e, base, b, r, s); } else { BlocksDisjoint(t, e, base, b, s, r); }
      }
    }
    assert !Accounted(t', b', i);
  }

  /** Freeing a block right after it was allocated restores every word, under the same condition. */
  lemma FreeUndoesMalloc(t: seq<u64>, e: nat, base: nat, b: Blocks, s: nat, n: nat)
    requires Encodes(t, e, base, b) && TableAt(base, t) && Room(b, e, s, n) && e < |t|
    ensures Freed(Marked(t, base, s, n), base, s) == t <==> TagsRecoverable(t, e, base, s, n)
  {
    var t', b' := Marked(t, base, s, n), b[s := n];
    MarkedEncodes(t, e, base, b, s, n);
    TagEndOfBlock(t', e, base, b', s);
    forall i | s <= i < s + n ensures t[i] == 0 {
      assert Vacant(b, i);
      FreeIsVacant(t, e, base, b, i);
    }
    TagFacts(base, t, s);
    MacrosMean(t[e]);
    var a := EntryAddr(base, s);
    var t'' := Freed(t', base, s);
    assert t'[e] == t[e];
    if TagsRecoverable(t, e, base, s, n) {
      assert TagEnd(t', s + 1, a) == s + n;
      assert t'' == t;
    } else if n > 1 && a % 4096 != 0 {
      assert t''[s + 1] != t[s + 1];
    } else {
      assert t''[e] == 0 != t[e];
    }
  }
}
