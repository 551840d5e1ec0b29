/** Which blocks an object owns, and why no write makes two owners of a block.
    The invariant holds in every state that creates and in-order appends reach. */
module StoreInvariant {
  import opened Basics
  import opened Bitmap
  import opened Blocks
  import opened StoreModel

  ghost predicate InShape(fs: FS, s: nat, r: nat) {
    Shape(fs) && s < SLOTS && r < REFS
  }

  ghost function Count(fs: FS, s: nat): nat
    requires Shape(fs) && s < SLOTS
  {
    BlocksFor(fs.table[s].size)
  }

  ghost function LocOf(fs: FS, s: nat, r: nat): nat
    requires InShape(fs, s, r)
  {
    Loc(fs.table[s], fs.view, r)
  }

  ghost predicate UsedRef(fs: FS, s: nat, r: nat) {
    InShape(fs, s, r) && Uses(Count(fs, s), r)
  }

  /** Block `b` is a data block and its bitmap bit is set. */
  ghost predicate IsTaken(dbits: seq<Word>, b: nat)
    requires |dbits| == DBIT_WORDS
  {
    DATA_START <= b < DISK_BLOCKS && Bit(dbits, b - DATA_START)
  }

  /** A live slot holds the id that `create_object` gave it. */
  ghost predicate SlotOk(fs: FS, s: nat)
    requires Shape(fs) && s < SLOTS
  {
    if Live(fs, s) then fs.table[s].id == s + 2 && fs.table[s].size <= BLOCK_SIZE * MAX_BLOCKS
    else fs.table[s].size == 0
  }

  ghost predicate UsedAreTaken(fs: FS) {
    forall s: nat, r: nat :: UsedRef(fs, s, r) ==> IsTaken(fs.dbits, LocOf(fs, s, r))
  }

  ghost predicate UsedAreDistinct(fs: FS) {
    forall s: nat, r: nat, s': nat, r': nat ::
      UsedRef(fs, s, r) && UsedRef(fs, s', r') && LocOf(fs, s, r) == LocOf(fs, s', r') ==> s == s' && r == r'
  }

  ghost predicate IsUsed(fs: FS, b: nat) {
    exists s: nat, r: nat :: UsedRef(fs, s, r) && LocOf(fs, s, r) == b
  }

  ghost predicate TakenAreUsed(fs: FS)
    requires Shape(fs)
  {
    forall b: nat :: IsTaken(fs.dbits, b) ==> IsUsed(fs, b)
  }

  /** The table a reference is an entry of, if it is one, is in use. */
  ghost predicate TableUsed(fs: FS, s: nat, r: nat) {
    r >= 8 ==> UsedRef(fs, s, 4 + (r - 8) / INTS)
  }

  ghost predicate UnusedAreZero(fs: FS) {
    forall s: nat, r: nat ::
      InShape(fs, s, r) && !UsedRef(fs, s, r) && TableUsed(fs, s, r) ==> LocOf(fs, s, r) == 0
  }

  ghost predicate Inv(fs: FS) {
    && Shape(fs)
    && (forall s: nat :: s < SLOTS ==> SlotOk(fs, s))
    && UsedAreTaken(fs) && UsedAreDistinct(fs) && TakenAreUsed(fs) && UnusedAreZero(fs)
  }

  // ----- one more block for one object

  ghost predicate LocsKept(fs: FS, fs': FS) {
    forall s: nat, r: nat :: UsedRef(fs, s, r) ==> InShape(fs', s, r) && LocOf(fs', s, r) == LocOf(fs, s, r)
  }

  ghost predicate RefsGrow(fs: FS, fs': FS, s: nat, news: map<nat, nat>)
    requires Shape(fs') && s < SLOTS
  {
    && (forall r: nat | r < REFS :: UsedRef(fs', s, r) <==> UsedRef(fs, s, r) || r in news)
    && (forall r | r in news :: r < REFS && !UsedRef(fs, s, r) && LocOf(fs', s, r) == news[r])
  }

  ghost predicate AreFresh(fs: FS, news: map<nat, nat>)
    requires Shape(fs)
  {
    && (forall r, r' | r in news && r' in news && r != r' :: news[r] != news[r'])
    && (forall r | r in news :: DATA_START <= news[r] < DISK_BLOCKS && !IsTaken(fs.dbits, news[r]))
  }

  ghost predicate TakenGrow(fs: FS, fs': FS, news: map<nat, nat>)
    requires Shape(fs) && Shape(fs')
  {
    forall b: nat :: IsTaken(fs'.dbits, b) <==> IsTaken(fs.dbits, b) || b in news.Values
  }

  /** `fs'` is `fs` with one more block in slot `s`; `news` are the references
      this brings into use and the blocks they name, all of them free before. */
  ghost predicate OneMoreBlock(fs: FS, fs': FS, s: nat, news: map<nat, nat>) {
    && Inv(fs) && Shape(fs') && s < SLOTS && Live(fs, s)
    && fs'.ibits == fs.ibits && SlotOk(fs', s)
    && (forall s' | 0 <= s' < SLOTS && s' != s :: fs'.table[s'] == fs.table[s'])
    && RefsGrow(fs, fs', s, news) && AreFresh(fs, news) && TakenGrow(fs, fs', news)
    && LocsKept(fs, fs') && UnusedAreZero(fs')
  }

  lemma NewRefs(fs: FS, fs': FS, s: nat, news: map<nat, nat>, s': nat, r: nat)
    requires OneMoreBlock(fs, fs', s, news)
    ensures UsedRef(fs', s', r) <==> UsedRef(fs, s', r) || (s' == s && r in news)
  {
    if s' < SLOTS && s' != s {
      assert fs'.table[s'] == fs.table[s'];
    }
  }

  lemma OneMoreBlockKeepsDistinct(fs: FS, fs': FS, s: nat, news: map<nat, nat>)
    requires OneMoreBlock(fs, fs', s, news)
    ensures UsedAreTaken(fs') && UsedAreDistinct(fs')
  {
    forall s1: nat, r1: nat | UsedRef(fs', s1, r1)
      ensures IsTaken(fs'.dbits, LocOf(fs', s1, r1))
      ensures UsedRef(fs, s1, r1) || LocOf(fs', s1, r1) == news[r1]
    {
      NewRefs(fs, fs', s, news, s1, r1);
    }
    forall s1: nat, r1: nat, s2: nat, r2: nat
      | UsedRef(fs', s1, r1) && UsedRef(fs', s2, r2) && LocOf(fs', s1, r1) == LocOf(fs', s2, r2)
      ensures s1 == s2 && r1 == r2
    {
      NewRefs(fs, fs', s, news, s1, r1);
      NewRefs(fs, fs', s, news, s2, r2);
    }
  }

  lemma OneMoreBlockKeepsUsed(fs: FS, fs': FS, s: nat, news: map<nat, nat>)
    requires OneMoreBlock(fs, fs', s, news)
    ensures TakenAreUsed(fs')
  {
    forall b: nat | IsTaken(fs'.dbits, b)
      ensures IsUsed(fs', b)
    {
      if IsTaken(fs.dbits, b) {
        var s', r :| UsedRef(fs, s', r) && LocOf(fs, s', r) == b;
        NewRefs(fs, fs', s, news, s', r);
        assert UsedRef(fs', s', r) && LocOf(fs', s', r) == b;
      } else {
        var r :| r in news && news[r] == b;
        assert UsedRef(fs', s, r) && LocOf(fs', s, r) == b;
      }
    }
  }

  lemma OneMoreBlockKeepsInv(fs: FS, fs': FS, s: nat, news: map<nat, nat>)
    requires OneMoreBlock(fs, fs', s, news)
    ensures Inv(fs')
  {
    OneMoreBlockKeepsDistinct(fs, fs', s, news);
    OneMoreBlockKeepsUsed(fs, fs', s, news);
    forall s': nat | s' < SLOTS
      ensures SlotOk(fs', s')
    {
      assert SlotOk(fs, s');
    }
  }

  // ----- the three ways a write adds a block

  /** A write at the next block offset of a live object whose blocks are full. */
  ghost predicate InOrder(fs: FS, s: nat, len: nat, a: nat) {
    && Inv(fs) && s < SLOTS && Live(fs, s)
    && fs.table[s].size == BLOCK_SIZE * a && a < MAX_BLOCKS
    && 1 <= len <= BLOCK_SIZE && HasRoom(fs, a)
  }

  lemma RefOfEntry(a: nat, r: nat)
    requires DIRECT <= a < MAX_BLOCKS && 8 <= r < REFS
    ensures RefOf(a) == 8 + INTS * TableOf(a) + EntryOf(a)
    ensures (r - 8) / INTS == TableOf(a) && (r - 8) % INTS == EntryOf(a) <==> r == RefOf(a)
    ensures 4 <= 4 + (r - 8) / INTS < 8 && (r - 8) % INTS < INTS
  {
  }

  /** One block more brings into use the reference to it and, when it is the
      first one of a block table, the reference to the table. */
  lemma NextUses(n: nat, r: nat)
    requires n < MAX_BLOCKS && r < REFS
    ensures Uses(n + 1, r) <==> Uses(n, r) || r == RefOf(n) || (NeedsTable(n) && r == 4 + TableOf(n))
    ensures !Uses(n, RefOf(n)) && RefOf(n) < REFS
    ensures NeedsTable(n) ==> !Uses(n, 4 + TableOf(n)) && RefOf(n) == 8 + INTS * TableOf(n)
  {
  }

  lemma NextUsedRefs(fs: FS, fs': FS, s: nat, n: nat)
    requires Shape(fs) && Shape(fs') && s < SLOTS && n < MAX_BLOCKS
    requires Count(fs, s) == n && Count(fs', s) == n + 1
    ensures forall r: nat | r < REFS ::
              UsedRef(fs', s, r) <==> UsedRef(fs, s, r) || r == RefOf(n) || (NeedsTable(n) && r == 4 + TableOf(n))
    ensures !UsedRef(fs, s, RefOf(n)) && RefOf(n) < REFS
    ensures NeedsTable(n) ==> !UsedRef(fs, s, 4 + TableOf(n)) && RefOf(n) == 8 + INTS * TableOf(n)
  {
    NextUses(n, 0);
    forall r: nat | r < REFS
      ensures UsedRef(fs', s, r) <==> UsedRef(fs, s, r) || r == RefOf(n) || (NeedsTable(n) && r == 4 + TableOf(n))
    {
      NextUses(n, r);
    }
  }

  lemma UsedIsTaken(fs: FS, s: nat, r: nat)
    requires Inv(fs) && UsedRef(fs, s, r)
    ensures IsTaken(fs.dbits, LocOf(fs, s, r))
  {
  }

  lemma UnusedIsZero(fs: FS, s: nat, r: nat)
    requires Inv(fs) && InShape(fs, s, r) && !UsedRef(fs, s, r) && TableUsed(fs, s, r)
    ensures LocOf(fs, s, r) == 0
  {
  }

  lemma DistinctRefs(fs: FS, s: nat, r: nat, s': nat, r': nat)
    requires Inv(fs) && UsedRef(fs, s, r) && UsedRef(fs, s', r') && (s != s' || r != r')
    ensures LocOf(fs, s, r) != LocOf(fs, s', r')
  {
  }

  lemma TableOfUsedEntryIsUsed(fs: FS, s: nat, r: nat)
    requires UsedRef(fs, s, r)
    ensures TableUsed(fs, s, r)
  {
  }

  lemma InOrderIsDefined(fs: FS, s: nat, len: nat, a: nat)
    requires InOrder(fs, s, len, a)
    ensures WriteDefined(fs, s, len, a)
    ensures Count(fs, s) == a && BlocksFor(fs.table[s].size + len) == a + 1
  {
    assert SlotOk(fs, s);
    if DIRECT <= a && EntryOf(a) != 0 {
      assert UsedRef(fs, s, 4 + TableOf(a));
    }
  }

  /** A free block is a data block that is not taken. */
  lemma FreshBlock(dbits: seq<Word>)
    requires |dbits| == DBIT_WORDS && HasClear(dbits)
    ensures DATA_START <= BlockFor(dbits) < DISK_BLOCKS && !IsTaken(dbits, BlockFor(dbits))
    ensures forall c: nat :: IsTaken(Taken(dbits), c) <==> IsTaken(dbits, c) || c == BlockFor(dbits)
  {
    OneCallTakesOneFreeBlock(dbits);
  }

  /** A reference keeps its block while the object's pointers and the contents
      of its block table are kept. */
  lemma LocIsKept(fs: FS, fs': FS, s: nat, r: nat)
    requires InShape(fs, s, r) && TableUsed(fs, s, r) && Shape(fs') && Inv(fs)
    requires r < 4 ==> fs'.table[s].direct[r] == fs.table[s].direct[r]
    requires 4 <= r < 8 ==> fs'.table[s].indirect[r - 4] == fs.table[s].indirect[r - 4]
    requires r >= 8 ==> fs'.table[s].indirect[(r - 8) / INTS] == fs.table[s].indirect[(r - 8) / INTS]
    requires forall b: nat :: IsTaken(fs.dbits, b) ==> fs'.view[b] == fs.view[b]
    ensures LocOf(fs', s, r) == LocOf(fs, s, r)
  {
    hide Inv;
    if r >= 8 {
      UsedIsTaken(fs, s, 4 + (r - 8) / INTS);
    }
  }

  // a direct pointer

  lemma DirectWriteKeepsLocs(fs: FS, s: nat, buff: seq<Byte>, a: nat)
    requires InOrder(fs, s, |buff|, a) && WriteDefined(fs, s, |buff|, a) && a < DIRECT
    ensures LocsKept(fs, WriteDirect(fs, s, buff, a))
  {
    FreshBlock(fs.dbits);
    var fs' := WriteDirect(fs, s, buff, a);
    forall s1: nat, r: nat | UsedRef(fs, s1, r)
      ensures LocOf(fs', s1, r) == LocOf(fs, s1, r)
    {
      TableOfUsedEntryIsUsed(fs, s1, r);
      LocIsKept(fs, fs', s1, r);
    }
  }

  lemma DirectWriteKeepsZeros(fs: FS, s: nat, buff: seq<Byte>, a: nat)
    requires InOrder(fs, s, |buff|, a) && WriteDefined(fs, s, |buff|, a) && a < DIRECT
    ensures UnusedAreZero(WriteDirect(fs, s, buff, a))
  {
    InOrderIsDefined(fs, s, |buff|, a);
    FreshBlock(fs.dbits);
    var fs' := WriteDirect(fs, s, buff, a);
    forall s1: nat, r: nat | InShape(fs', s1, r) && !UsedRef(fs', s1, r) && TableUsed(fs', s1, r)
      ensures LocOf(fs', s1, r) == 0
    {
      assert TableUsed(fs, s1, r);
      UnusedIsZero(fs, s1, r);
      LocIsKept(fs, fs', s1, r);
    }
  }

  lemma DirectWriteAddsABlock(fs: FS, s: nat, buff: seq<Byte>, a: nat)
    requires InOrder(fs, s, |buff|, a) && a < DIRECT
    ensures WriteDefined(fs, s, |buff|, a)
    ensures OneMoreBlock(fs, WriteDirect(fs, s, buff, a), s, map[a := BlockFor(fs.dbits)])
  {
    InOrderIsDefined(fs, s, |buff|, a);
    FreshBlock(fs.dbits);
    DirectWriteKeepsLocs(fs, s, buff, a);
    DirectWriteKeepsZeros(fs, s, buff, a);
    NextUsedRefs(fs, WriteDirect(fs, s, buff, a), s, a);
    assert SlotOk(fs, s);
  }

  // the first entry of a new block table

  lemma TwoFreshBlocks(dbits: seq<Word>)
    requires |dbits| == DBIT_WORDS && HasClear(dbits) && HasClear(Taken(dbits))
    ensures DATA_START <= BlockFor(dbits) < DISK_BLOCKS && !IsTaken(dbits, BlockFor(dbits))
    ensures DATA_START <= BlockFor(Taken(dbits)) < DISK_BLOCKS && !IsTaken(dbits, BlockFor(Taken(dbits)))
    ensures BlockFor(dbits) != BlockFor(Taken(dbits))
    ensures forall d: nat :: IsTaken(Taken(Taken(dbits)), d)
                             <==> IsTaken(dbits, d) || d == BlockFor(dbits) || d == BlockFor(Taken(dbits))
  {
    FreshBlock(dbits);
    FreshBlock(Taken(dbits));
  }

  lemma FirstEntryHolds(b: U32, e: nat)
    requires e < INTS
    ensures IntAt(FirstEntry(b), e) == if e == 0 then b else 0
  {
    PutIntChangesOneInt(ZeroBlock(), 0, b, e);
    ZeroBlockHoldsZeros(e);
  }

  ghost predicate StartsTable(fs: FS, s: nat, len: nat, a: nat) {
    InOrder(fs, s, len, a) && WriteDefined(fs, s, len, a) && NeedsTable(a)
  }

  /** The state after the write, as far as references go. */
  lemma NewTableState(fs: FS, s: nat, buff: seq<Byte>, a: nat)
    requires StartsTable(fs, s, |buff|, a)
    ensures var fs', t, d := WriteNewTable(fs, s, buff, a), BlockFor(fs.dbits), BlockFor(Taken(fs.dbits));
            && Shape(fs') && Count(fs, s) == a && Count(fs', s) == a + 1
            && (forall s1 | 0 <= s1 < SLOTS && s1 != s :: fs'.table[s1] == fs.table[s1])
            && fs'.table[s].direct == fs.table[s].direct
            && fs'.table[s].indirect == fs.table[s].indirect[TableOf(a) := t]
            && DATA_START <= t < DISK_BLOCKS && 0 <= d && fs'.view[t] == FirstEntry(d)
            && forall b: nat :: IsTaken(fs.dbits, b) ==> fs'.view[b] == fs.view[b]
  {
    hide Inv, BlockFor, Taken, Bit;
    TwoFreshBlocks(fs.dbits);
    InOrderIsDefined(fs, s, |buff|, a);
  }

  lemma NewTableKeepsRef(fs: FS, s: nat, buff: seq<Byte>, a: nat, s1: nat, r: nat)
    requires StartsTable(fs, s, |buff|, a) && InShape(fs, s1, r) && TableUsed(fs, s1, r)
    requires s1 == s ==> r != 4 + TableOf(a)
    ensures InShape(WriteNewTable(fs, s, buff, a), s1, r)
    ensures LocOf(WriteNewTable(fs, s, buff, a), s1, r) == LocOf(fs, s1, r)
  {
    hide Inv, WriteNewTable;
    NewTableState(fs, s, buff, a);
    NextUsedRefs(fs, WriteNewTable(fs, s, buff, a), s, a);
    LocIsKept(fs, WriteNewTable(fs, s, buff, a), s1, r);
  }

  lemma NewTableKeepsLocs(fs: FS, s: nat, buff: seq<Byte>, a: nat)
    requires StartsTable(fs, s, |buff|, a)
    ensures LocsKept(fs, WriteNewTable(fs, s, buff, a))
  {
    hide Inv, WriteNewTable;
    var fs' := WriteNewTable(fs, s, buff, a);
    NewTableState(fs, s, buff, a);
    NextUsedRefs(fs, fs', s, a);
    forall s1: nat, r: nat | UsedRef(fs, s1, r)
      ensures InShape(fs', s1, r) && LocOf(fs', s1, r) == LocOf(fs, s1, r)
    {
      TableOfUsedEntryIsUsed(fs, s1, r);
      NewTableKeepsRef(fs, s, buff, a, s1, r);
    }
  }

  lemma NewTableEntriesAreZero(fs: FS, s: nat, buff: seq<Byte>, a: nat, r: nat)
    requires StartsTable(fs, s, |buff|, a)
    requires 8 <= r < REFS && (r - 8) / INTS == TableOf(a) && r != RefOf(a)
    ensures InShape(WriteNewTable(fs, s, buff, a), s, r) && LocOf(WriteNewTable(fs, s, buff, a), s, r) == 0
  {
    hide Inv, WriteNewTable;
    NewTableState(fs, s, buff, a);
    RefOfEntry(a, r);
    FirstEntryHolds(BlockFor(Taken(fs.dbits)), (r - 8) % INTS);
  }

  lemma NewTableKeepsZero(fs: FS, s: nat, buff: seq<Byte>, a: nat, s1: nat, r: nat)
    requires StartsTable(fs, s, |buff|, a)
    requires InShape(WriteNewTable(fs, s, buff, a), s1, r)
    requires !UsedRef(WriteNewTable(fs, s, buff, a), s1, r) && TableUsed(WriteNewTable(fs, s, buff, a), s1, r)
    ensures LocOf(WriteNewTable(fs, s, buff, a), s1, r) == 0
  {
    hide Inv, WriteNewTable, LocOf;
    var fs' := WriteNewTable(fs, s, buff, a);
    NewTableState(fs, s, buff, a);
    NextUsedRefs(fs, fs', s, a);
    if s1 == s && r >= 8 && (r - 8) / INTS == TableOf(a) {
      NewTableEntriesAreZero(fs, s, buff, a, r);
    } else {
      assert s1 != s ==> fs'.table[s1] == fs.table[s1];
      assert !UsedRef(fs, s1, r) && TableUsed(fs, s1, r);
      UnusedIsZero(fs, s1, r);
      NewTableKeepsRef(fs, s, buff, a, s1, r);
    }
  }

  lemma NewTableKeepsZeros(fs: FS, s: nat, buff: seq<Byte>, a: nat)
    requires StartsTable(fs, s, |buff|, a)
    ensures UnusedAreZero(WriteNewTable(fs, s, buff, a))
  {
    var fs' := WriteNewTable(fs, s, buff, a);
    forall s1: nat, r: nat | InShape(fs', s1, r) && !UsedRef(fs', s1, r) && TableUsed(fs', s1, r)
      ensures LocOf(fs', s1, r) == 0
    {
      NewTableKeepsZero(fs, s, buff, a, s1, r);
    }
  }

  lemma NewTableNamesItsBlocks(fs: FS, s: nat, buff: seq<Byte>, a: nat)
    requires StartsTable(fs, s, |buff|, a)
    ensures InShape(WriteNewTable(fs, s, buff, a), s, RefOf(a))
    ensures LocOf(WriteNewTable(fs, s, buff, a), s, 4 + TableOf(a)) == BlockFor(fs.dbits)
    ensures LocOf(WriteNewTable(fs, s, buff, a), s, RefOf(a)) == BlockFor(Taken(fs.dbits))
  {
    hide Inv, WriteNewTable;
    NewTableState(fs, s, buff, a);
    FirstEntryHolds(BlockFor(Taken(fs.dbits)), 0);
    RefOfEntry(a, RefOf(a));
  }

  ghost function NewTableRefs(fs: FS, a: nat): map<nat, nat>
    requires NeedsTable(a) && HasRoom(fs, a)
  {
    map[4 + TableOf(a) := BlockFor(fs.dbits), RefOf(a) := BlockFor(Taken(fs.dbits))]
  }

  lemma NewTableRefsGrow(fs: FS, s: nat, buff: seq<Byte>, a: nat)
    requires StartsTable(fs, s, |buff|, a)
    ensures Shape(WriteNewTable(fs, s, buff, a))
    ensures RefsGrow(fs, WriteNewTable(fs, s, buff, a), s, NewTableRefs(fs, a))
  {
    hide Inv, WriteNewTable, LocOf;
    NewTableState(fs, s, buff, a);
    NextUsedRefs(fs, WriteNewTable(fs, s, buff, a), s, a);
    NewTableNamesItsBlocks(fs, s, buff, a);
  }

  lemma ValuesOfTwo(k: nat, v: nat, k': nat, v': nat)
    requires k != k'
    ensures map[k := v, k' := v'].Values == {v, v'}
  {
    var m := map[k := v, k' := v'];
    assert m[k] == v && m[k'] == v';
  }

  lemma NewTableTakenGrow(fs: FS, s: nat, buff: seq<Byte>, a: nat)
    requires StartsTable(fs, s, |buff|, a)
    ensures AreFresh(fs, NewTableRefs(fs, a))
    ensures TakenGrow(fs, WriteNewTable(fs, s, buff, a), NewTableRefs(fs, a))
  {
    hide Inv, BlockFor, Taken, Bit;
    TwoFreshBlocks(fs.dbits);
    NextUses(a, 0);
    ValuesOfTwo(4 + TableOf(a), BlockFor(fs.dbits), RefOf(a), BlockFor(Taken(fs.dbits)));
  }

  lemma NewTableAddsABlock(fs: FS, s: nat, buff: seq<Byte>, a: nat)
    requires InOrder(fs, s, |buff|, a) && NeedsTable(a)
    ensures WriteDefined(fs, s, |buff|, a)
    ensures OneMoreBlock(fs, WriteNewTable(fs, s, buff, a), s, NewTableRefs(fs, a))
  {
    InOrderIsDefined(fs, s, |buff|, a);
    NewTableRefsGrow(fs, s, buff, a);
    NewTableTakenGrow(fs, s, buff, a);
    NewTableKeepsLocs(fs, s, buff, a);
    NewTableKeepsZeros(fs, s, buff, a);
    assert SlotOk(fs, s);
  }

  // a further entry of a block table in use

  ghost predicate ExtendsTable(fs: FS, s: nat, len: nat, a: nat) {
    InOrder(fs, s, len, a) && WriteDefined(fs, s, len, a) && DIRECT <= a && EntryOf(a) != 0
  }

  lemma OldTableState(fs: FS, s: nat, buff: seq<Byte>, a: nat)
    requires ExtendsTable(fs, s, |buff|, a)
    ensures var fs', t, d := WriteOldTable(fs, s, buff, a), fs.table[s].indirect[TableOf(a)], BlockFor(fs.dbits);
            && Shape(fs') && Count(fs, s) == a && Count(fs', s) == a + 1
            && (forall s1 | 0 <= s1 < SLOTS && s1 != s :: fs'.table[s1] == fs.table[s1])
            && fs'.table[s].direct == fs.table[s].direct && fs'.table[s].indirect == fs.table[s].indirect
            && UsedRef(fs, s, 4 + TableOf(a)) && LocOf(fs, s, 4 + TableOf(a)) == t && IsTaken(fs.dbits, t)
            && DATA_START <= d < DISK_BLOCKS && fs'.view[t] == PutInt(fs.view[t], EntryOf(a), d)
            && forall b: nat :: IsTaken(fs.dbits, b) && b != t ==> fs'.view[b] == fs.view[b]
  {
    hide Inv, BlockFor, Taken, Bit;
    FreshBlock(fs.dbits);
    InOrderIsDefined(fs, s, |buff|, a);
    UsedIsTaken(fs, s, 4 + TableOf(a));
  }

  lemma EntriesAfterOldTable(fs: FS, s: nat, buff: seq<Byte>, a: nat, s1: nat, r: nat)
    requires ExtendsTable(fs, s, |buff|, a)
    requires InShape(fs, s1, r) && r >= 8 && UsedRef(fs, s1, 4 + (r - 8) / INTS)
    ensures InShape(WriteOldTable(fs, s, buff, a), s1, r)
    ensures LocOf(WriteOldTable(fs, s, buff, a), s1, r)
            == if s1 == s && r == RefOf(a) then BlockFor(fs.dbits) else LocOf(fs, s1, r)
  {
    hide Inv, WriteOldTable, BlockFor, Bit;
    OldTableState(fs, s, buff, a);
    RefOfEntry(a, r);
    var u, t := 4 + (r - 8) / INTS, fs.table[s].indirect[TableOf(a)];
    UsedIsTaken(fs, s1, u);
    if s1 == s && u == 4 + TableOf(a) {
      PutIntChangesOneInt(fs.view[t], EntryOf(a), BlockFor(fs.dbits), (r - 8) % INTS);
    } else {
      DistinctRefs(fs, s, 4 + TableOf(a), s1, u);
    }
  }

  lemma OldTableKeepsLocs(fs: FS, s: nat, buff: seq<Byte>, a: nat)
    requires ExtendsTable(fs, s, |buff|, a)
    ensures LocsKept(fs, WriteOldTable(fs, s, buff, a))
  {
    hide Inv, WriteOldTable, BlockFor, IntAt;
    OldTableState(fs, s, buff, a);
    var fs' := WriteOldTable(fs, s, buff, a);
    NextUsedRefs(fs, fs', s, a);
    forall s1: nat, r: nat | UsedRef(fs, s1, r)
      ensures InShape(fs', s1, r) && LocOf(fs', s1, r) == LocOf(fs, s1, r)
    {
      if r >= 8 {
        TableOfUsedEntryIsUsed(fs, s1, r);
        EntriesAfterOldTable(fs, s, buff, a, s1, r);
      }
    }
  }

  lemma OldTableKeepsZeros(fs: FS, s: nat, buff: seq<Byte>, a: nat)
    requires ExtendsTable(fs, s, |buff|, a)
    ensures UnusedAreZero(WriteOldTable(fs, s, buff, a))
  {
    hide Inv, WriteOldTable, BlockFor, IntAt;
    OldTableState(fs, s, buff, a);
    var fs' := WriteOldTable(fs, s, buff, a);
    NextUsedRefs(fs, fs', s, a);
    forall s1: nat, r: nat | InShape(fs', s1, r) && !UsedRef(fs', s1, r) && TableUsed(fs', s1, r)
      ensures LocOf(fs', s1, r) == 0
    {
      assert s1 != s ==> fs'.table[s1] == fs.table[s1];
      assert !UsedRef(fs, s1, r) && TableUsed(fs, s1, r);
      UnusedIsZero(fs, s1, r);
      if r >= 8 {
        EntriesAfterOldTable(fs, s, buff, a, s1, r);
      }
    }
  }

  lemma OldTableRefsGrow(fs: FS, s: nat, buff: seq<Byte>, a: nat)
    requires ExtendsTable(fs, s, |buff|, a)
    ensures Shape(WriteOldTable(fs, s, buff, a))
    ensures RefsGrow(fs, WriteOldTable(fs, s, buff, a), s, map[RefOf(a) := BlockFor(fs.dbits)])
  {
    hide Inv, WriteOldTable, BlockFor, LocOf;
    OldTableState(fs, s, buff, a);
    NextUsedRefs(fs, WriteOldTable(fs, s, buff, a), s, a);
    RefOfEntry(a, RefOf(a));
    EntriesAfterOldTable(fs, s, buff, a, s, RefOf(a));
  }

  lemma OldTableAddsABlock(fs: FS, s: nat, buff: seq<Byte>, a: nat)
    requires InOrder(fs, s, |buff|, a) && DIRECT <= a && EntryOf(a) != 0
    ensures WriteDefined(fs, s, |buff|, a)
    ensures OneMoreBlock(fs, WriteOldTable(fs, s, buff, a), s, map[RefOf(a) := BlockFor(fs.dbits)])
  {
    InOrderIsDefined(fs, s, |buff|, a);
    FreshBlock(fs.dbits);
    var news: map<nat, nat> := map[RefOf(a) := BlockFor(fs.dbits)];
    assert news[RefOf(a)] == BlockFor(fs.dbits);
    assert news.Values == {BlockFor(fs.dbits)};
    OldTableRefsGrow(fs, s, buff, a);
    OldTableKeepsLocs(fs, s, buff, a);
    OldTableKeepsZeros(fs, s, buff, a);
    assert SlotOk(fs, s);
  }

  // a write of any kind

  ghost function NewRefsOf(fs: FS, a: nat): map<nat, nat>
    requires HasRoom(fs, a)
  {
    if NeedsTable(a) then NewTableRefs(fs, a) else map[RefOf(a) := BlockFor(fs.dbits)]
  }

  lemma WriteAddsABlock(fs: FS, s: nat, buff: seq<Byte>, a: nat)
    requires InOrder(fs, s, |buff|, a)
    ensures WriteDefined(fs, s, |buff|, a)
    ensures OneMoreBlock(fs, WriteAt(fs, s, buff, a), s, NewRefsOf(fs, a))
  {
    InOrderIsDefined(fs, s, |buff|, a);
    if a < DIRECT {
      DirectWriteAddsABlock(fs, s, buff, a);
    } else if EntryOf(a) == 0 {
      NewTableAddsABlock(fs, s, buff, a);
    } else {
      OldTableAddsABlock(fs, s, buff, a);
    }
  }

  lemma WriteKeepsInv(fs: FS, s: nat, buff: seq<Byte>, a: nat)
    requires InOrder(fs, s, |buff|, a)
    ensures WriteDefined(fs, s, |buff|, a) && Inv(WriteAt(fs, s, buff, a))
  {
    WriteAddsABlock(fs, s, buff, a);
    OneMoreBlockKeepsInv(fs, WriteAt(fs, s, buff, a), s, NewRefsOf(fs, a));
  }

  // ----- the largest object

  /** A write at the end of an object whose blocks are full, of whatever size. */
  ghost predicate AtEnd(fs: FS, s: nat, len: nat, a: nat) {
    && Inv(fs) && s < SLOTS && Live(fs, s) && fs.table[s].size == BLOCK_SIZE * a
    && 1 <= len <= BLOCK_SIZE && HasRoom(fs, a)
  }

  /** Below the largest size, and only there, a write keeps the invariant. To an
      object of 4100 blocks it stores nothing, although it grows the size, takes a
      block that no object refers to, and returns the length like any other write. */
  lemma WriteKeepsInvIffBelowLimit(fs: FS, s: nat, buff: seq<Byte>, a: nat)
    requires AtEnd(fs, s, |buff|, a)
    ensures WriteDefined(fs, s, |buff|, a)
    ensures Inv(WriteAt(fs, s, buff, a)) <==> a < MAX_BLOCKS
    ensures a >= MAX_BLOCKS ==>
              var fs', b := WriteAt(fs, s, buff, a), BlockFor(fs.dbits);
              && fs'.view == fs.view && IsTaken(fs'.dbits, b) && !IsTaken(fs.dbits, b)
              && fs'.table[s].size == fs.table[s].size + |buff| && !TakenAreUsed(fs')
              && forall s1: nat, r: nat | UsedRef(fs, s1, r) :: LocOf(fs', s1, r) == LocOf(fs, s1, r) != b
  {
    assert SlotOk(fs, s);
    if a < MAX_BLOCKS {
      WriteKeepsInv(fs, s, buff, a);
    } else {
      FreshBlock(fs.dbits);
      BeyondLeaks(fs, s, buff, a);
    }
  }

  /** The block that such a write takes belongs to nobody. */
  lemma BeyondLeaks(fs: FS, s: nat, buff: seq<Byte>, a: nat)
    requires AtEnd(fs, s, |buff|, a) && WriteDefined(fs, s, |buff|, a) && a >= MAX_BLOCKS
    ensures var fs', b := WriteAt(fs, s, buff, a), BlockFor(fs.dbits);
            && 0 <= b && !IsUsed(fs', b) && !TakenAreUsed(fs')
            && forall s1: nat, r: nat | UsedRef(fs, s1, r) :: LocOf(fs', s1, r) == LocOf(fs, s1, r) != b
  {
    FreshBlock(fs.dbits);
    var fs', b := WriteAt(fs, s, buff, a), BlockFor(fs.dbits);
    forall s1: nat, r: nat | InShape(fs, s1, r)
      ensures UsedRef(fs', s1, r) ==> UsedRef(fs, s1, r)
      ensures UsedRef(fs, s1, r) ==> LocOf(fs', s1, r) == LocOf(fs, s1, r) != b
    {
      assert s1 != s ==> fs'.table[s1] == fs.table[s1];
      if UsedRef(fs, s1, r) {
        TableOfUsedEntryIsUsed(fs, s1, r);
        LocIsKept(fs, fs', s1, r);
        UsedIsTaken(fs, s1, r);
      }
    }
    assert IsTaken(fs'.dbits, b);
  }

  // ----- how many blocks an object owns

  ghost function RefsOf(n: nat): set<nat> {
    set r: nat | r < REFS && Uses(n, r)
  }

  ghost function Locs(fs: FS, s: nat): map<nat, nat>
    requires Shape(fs) && s < SLOTS
  {
    map r | r in RefsOf(Count(fs, s)) :: LocOf(fs, s, r)
  }

  ghost function Image(loc: map<nat, nat>, refs: set<nat>): set<nat>
    requires refs <= loc.Keys
  {
    set r | r in refs :: loc[r]
  }

  /** The blocks of the object in slot `s`. */
  ghost function OwnedBlocks(fs: FS, s: nat): set<nat>
    requires Shape(fs) && s < SLOTS
  {
    Image(Locs(fs, s), RefsOf(Count(fs, s)))
  }

  lemma OwnedCountStep(n: nat)
    requires n < MAX_BLOCKS
    ensures OwnedCount(n + 1) == OwnedCount(n) + if NeedsTable(n) then 2 else 1
  {
  }

  ghost function RefsAdded(n: nat): set<nat> {
    if NeedsTable(n) then {RefOf(n), 4 + TableOf(n)} else {RefOf(n)}
  }

  lemma RefsOfStep(n: nat)
    requires n < MAX_BLOCKS
    ensures RefsOf(n + 1) == RefsOf(n) + RefsAdded(n) && RefsOf(n) !! RefsAdded(n)
    ensures |RefsAdded(n)| == if NeedsTable(n) then 2 else 1
  {
    NextUses(n, 0);
    forall r: nat | r < REFS
      ensures r in RefsOf(n + 1) <==> r in RefsOf(n) || r in RefsAdded(n)
    {
      NextUses(n, r);
    }
  }

  lemma {:induction false} RefsOfCount(n: nat)
    requires n <= MAX_BLOCKS
    ensures |RefsOf(n)| == OwnedCount(n)
  {
    if n == 0 {
      assert RefsOf(0) == {};
    } else {
      RefsOfCount(n - 1);
      RefsOfStep(n - 1);
      OwnedCountStep(n - 1);
    }
  }

  lemma {:induction false} InjectiveImageSize(loc: map<nat, nat>, refs: set<nat>)
    requires refs <= loc.Keys
    requires forall r, r' | r in refs && r' in refs && loc[r] == loc[r'] :: r == r'
    ensures |Image(loc, refs)| == |refs|
    decreases refs
  {
    if refs != {} {
      var r :| r in refs;
      var rest := refs - {r};
      InjectiveImageSize(loc, rest);
      assert loc[r] !in Image(loc, rest);
      assert Image(loc, refs) == Image(loc, rest) + {loc[r]};
    }
  }

  /** An object of `n` blocks owns `n` blocks when they are all direct, and one
      more for every 1024 blocks, or part of them, that are not. */
  lemma OwnedBlocksCount(fs: FS, s: nat)
    requires Inv(fs) && s < SLOTS
    ensures |OwnedBlocks(fs, s)| == OwnedCount(Count(fs, s))
  {
    assert SlotOk(fs, s);
    var n := Count(fs, s);
    RefsOfCount(n);
    forall r, r' | r in RefsOf(n) && r' in RefsOf(n) && Locs(fs, s)[r] == Locs(fs, s)[r']
      ensures r == r'
    {
      assert UsedRef(fs, s, r) && UsedRef(fs, s, r');
    }
    InjectiveImageSize(Locs(fs, s), RefsOf(n));
  }

  /** Every bit of the data bitmap belongs to exactly one object. */
  lemma OwnersShareNoBlock(fs: FS, b: nat)
    requires Inv(fs)
    ensures IsTaken(fs.dbits, b) <==> exists s: nat :: s < SLOTS && b in OwnedBlocks(fs, s)
    ensures forall s: nat, s': nat | s < SLOTS && s' < SLOTS && b in OwnedBlocks(fs, s) && b in OwnedBlocks(fs, s') ::
              s == s'
  {
    if IsTaken(fs.dbits, b) {
      assert IsUsed(fs, b);
      var s, r :| UsedRef(fs, s, r) && LocOf(fs, s, r) == b;
      assert r in RefsOf(Count(fs, s)) && Locs(fs, s)[r] == b;
      assert b in OwnedBlocks(fs, s);
    }
    forall s: nat | s < SLOTS && b in OwnedBlocks(fs, s)
      ensures IsTaken(fs.dbits, b)
    {
      var r :| r in RefsOf(Count(fs, s)) && Locs(fs, s)[r] == b;
      assert UsedRef(fs, s, r);
    }
    forall s: nat, s': nat | s < SLOTS && s' < SLOTS && b in OwnedBlocks(fs, s) && b in OwnedBlocks(fs, s')
      ensures s == s'
    {
      var r :| r in RefsOf(Count(fs, s)) && Locs(fs, s)[r] == b;
      var r' :| r' in RefsOf(Count(fs, s')) && Locs(fs, s')[r'] == b;
      assert UsedRef(fs, s, r) && UsedRef(fs, s', r');
    }
  }
}
