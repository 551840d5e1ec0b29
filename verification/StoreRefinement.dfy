/** Each operation of the object store does to the files it represents what
    `ObjectMap` says, and keeps the invariant. */
module StoreRefinement {
  import opened Basics
  import opened Bitmap
  import opened Blocks
  import opened StoreModel
  import opened StoreInvariant
  import opened ObjectMap

  function DataBlock(fs: FS, s: nat, k: nat): Block
    requires s < |fs.table|
  {
    if RefOf(k) < REFS then BlockIn(fs.view, Loc(fs.table[s], fs.view, RefOf(k))) else ZeroBlock()
  }

  function FileOf(fs: FS, s: nat): File
    requires s < |fs.table|
  {
    File(CString(fs.table[s].key), fs.table[s].size,
         seq(BlocksFor(fs.table[s].size), k requires 0 <= k => DataBlock(fs, s, k)))
  }

  /** The pointer to block `k`: the four direct ones, then the entries of the four tables. */
  function PointerTo(o: Inode, view: seq<Block>, k: nat): U32
    requires k < 4100
  {
    if k < 4 then o.direct[k]
    else if k < 1028 then IntAt(BlockIn(view, o.indirect[0]), k - 4)
    else if k < 2052 then IntAt(BlockIn(view, o.indirect[1]), k - 1028)
    else if k < 3076 then IntAt(BlockIn(view, o.indirect[2]), k - 2052)
    else IntAt(BlockIn(view, o.indirect[3]), k - 3076)
  }

  /** A file is read off its inode: the key up to its zero, the size, and of every
      4096 bytes or part of them the block whose number is stored for it. */
  lemma FileIs(fs: FS, s: nat, k: nat)
    requires Inv(fs) && s < SLOTS && Live(fs, s) && k < |FileOf(fs, s).blocks|
    ensures FileOf(fs, s).key == CString(fs.table[s].key) && FileOf(fs, s).size == fs.table[s].size
    ensures 4096 * k < fs.table[s].size && fs.table[s].size <= 4096 * |FileOf(fs, s).blocks| && k < 4100
    ensures var p := PointerTo(fs.table[s], fs.view, k);
            22815 <= p < DISK_BLOCKS && FileOf(fs, s).blocks[k] == fs.view[p]
  {
    assert SlotOk(fs, s);
    assert UsedRef(fs, s, RefOf(k));
    UsedIsTaken(fs, s, RefOf(k));
    PointerIsLoc(fs, s, k);
  }

  lemma PointerIsLoc(fs: FS, s: nat, k: nat)
    requires Shape(fs) && s < SLOTS && k < MAX_BLOCKS
    ensures LocOf(fs, s, RefOf(k)) == PointerTo(fs.table[s], fs.view, k)
  {
    hide IntAt, BlockIn;
    if k >= 4 {
      assert RefOf(k) == k + 4;
    }
  }

  ghost predicate HasFile(fs: FS, id: int)
    requires Shape(fs)
  {
    FIRST_ID <= id <= LAST_ID && Live(fs, id - 2)
  }

  /** The files a store represents. */
  ghost function FilesOf(fs: FS): (r: Files)
    requires Shape(fs)
    ensures forall id :: id in r <==> HasFile(fs, id)
    ensures forall id :: id in r ==> HasFile(fs, id) && r[id] == FileOf(fs, id - 2)
  {
    map id | FIRST_ID <= id <= LAST_ID && HasFile(fs, id) :: FileOf(fs, id - 2)
  }

  /** Two stores that differ in one object represent files that differ in one. */
  lemma OneFileChanges(fs: FS, fs': FS, s: nat)
    requires Shape(fs) && Shape(fs') && s < SLOTS
    requires forall t: nat | t < SLOTS :: Live(fs', t) <==> Live(fs, t) || t == s
    requires forall t: nat | t < SLOTS && t != s && Live(fs, t) :: FileOf(fs', t) == FileOf(fs, t)
    ensures FilesOf(fs') == FilesOf(fs)[s + 2 := FileOf(fs', s)]
  {
    var files, expected := FilesOf(fs'), FilesOf(fs)[s + 2 := FileOf(fs', s)];
    forall id
      ensures id in files <==> id in expected
      ensures id in files ==> files[id] == expected[id]
    {
      assert HasFile(fs', id) <==> HasFile(fs, id) || id == s + 2;
    }
  }

  // ----- looking up

  /** Slot `s` of a live object holds id `s + 2`, so the scan for an id is an index. */
  lemma FindTargetIsIndexing(fs: FS, objid: int)
    requires Inv(fs)
    ensures FindTarget(fs, objid) == if HasFile(fs, objid) then objid - 2 else SLOTS
  {
    var r := FindTarget(fs, objid);
    if r < SLOTS {
      assert SlotOk(fs, r);
    }
    if HasFile(fs, objid) {
      assert SlotOk(fs, objid - 2);
      assert HasId(fs.ibits, fs.table, objid - 2, objid);
    }
  }

  lemma HasKeyIsFileKey(fs: FS, s: nat, key: seq<Byte>)
    requires Inv(fs) && s < SLOTS
    ensures HasKey(fs.ibits, fs.table, s, key) <==> s + 2 in FilesOf(fs) && FilesOf(fs)[s + 2].key == key
  {
    assert SlotOk(fs, s);
  }

  lemma FindObjectIdRefines(fs: FS, key: seq<Byte>)
    requires Inv(fs)
    ensures FindObjectId(fs, key) == Lookup(FilesOf(fs), key)
  {
    hide FilesOf, FileOf, HasKey, SlotWithKey, IdWithKey;
    var files := FilesOf(fs);
    var s, id := SlotWithKey(fs.ibits, fs.table, key), IdWithKey(files, key);
    if s < SLOTS {
      HasKeyIsFileKey(fs, s, key);
      assert SlotOk(fs, s);
    }
    if id <= LAST_ID {
      HasKeyIsFileKey(fs, id - 2, key);
    }
  }

  // ----- create_object

  lemma CreateKeepsRefs(fs: FS, key: seq<Byte>, s: nat, r: nat)
    requires Inv(fs) && NoZero(key) && |key| < 32
    ensures var fs' := CreateObject(fs, key).0;
            && (InShape(fs', s, r) <==> InShape(fs, s, r)) && (UsedRef(fs', s, r) <==> UsedRef(fs, s, r))
            && (InShape(fs, s, r) ==> LocOf(fs', s, r) == LocOf(fs, s, r))
  {
  }

  lemma CreateKeepsInv(fs: FS, key: seq<Byte>)
    requires Inv(fs) && NoZero(key) && |key| < 32
    ensures Inv(CreateObject(fs, key).0)
  {
    var fs' := CreateObject(fs, key).0;
    forall s: nat, r: nat
      ensures InShape(fs', s, r) <==> InShape(fs, s, r)
      ensures UsedRef(fs', s, r) <==> UsedRef(fs, s, r)
      ensures InShape(fs, s, r) ==> LocOf(fs', s, r) == LocOf(fs, s, r)
    {
      CreateKeepsRefs(fs, key, s, r);
    }
    forall s: nat | s < SLOTS
      ensures SlotOk(fs', s)
    {
      assert SlotOk(fs, s);
    }
    forall b: nat | IsTaken(fs'.dbits, b)
      ensures IsUsed(fs', b)
    {
      assert IsUsed(fs, b);
      var s, r :| UsedRef(fs, s, r) && LocOf(fs, s, r) == b;
      assert UsedRef(fs', s, r) && LocOf(fs', s, r) == b;
    }
    forall s: nat, r: nat | InShape(fs', s, r) && !UsedRef(fs', s, r) && TableUsed(fs', s, r)
      ensures LocOf(fs', s, r) == 0
    {
      assert TableUsed(fs, s, r);
    }
  }

  lemma FreeIdIs(files: Files, id: int)
    requires FIRST_ID <= id <= LAST_ID + 1
    requires forall i :: FIRST_ID <= i < id ==> i in files
    requires id <= LAST_ID ==> id !in files
    ensures FreeId(files) == id
  {
  }

  lemma FirstClearIsFreeId(fs: FS)
    requires Shape(fs)
    ensures FreeId(FilesOf(fs)) == FirstClear(fs.ibits) + 2
  {
    hide FilesOf, FileOf, FirstClear, FreeId;
    var files, s := FilesOf(fs), FirstClear(fs.ibits);
    forall i | FIRST_ID <= i < s + 2
      ensures i in files
    {
      assert Bit(fs.ibits, i - 2);
      assert HasFile(fs, i);
    }
    assert s < SLOTS ==> !HasFile(fs, s + 2);
    FreeIdIs(files, s + 2);
  }

  lemma NewFile(fs: FS, key: seq<Byte>)
    requires Inv(fs) && NoZero(key) && |key| < 32 && FirstClear(fs.ibits) < SLOTS
    ensures FileOf(CreateObject(fs, key).0, FirstClear(fs.ibits)) == File(key, 0, [])
  {
    var s := FirstClear(fs.ibits);
    assert fs.table[s].size == 0 by { assert SlotOk(fs, s); }
    CStringStopsAtZero(key, fs.table[s].key[|key| + 1..]);
  }

  lemma SameInodeSameFile(fs: FS, fs': FS, s: nat)
    requires s < |fs.table| && s < |fs'.table| && fs'.table[s] == fs.table[s] && fs'.view == fs.view
    ensures FileOf(fs', s) == FileOf(fs, s)
  {
    assert FileOf(fs', s).blocks == FileOf(fs, s).blocks;
  }

  lemma CreateAddsAFile(fs: FS, key: seq<Byte>)
    requires Inv(fs) && NoZero(key) && |key| < 32 && FirstClear(fs.ibits) < SLOTS
    ensures FilesOf(CreateObject(fs, key).0) == FilesOf(fs)[FirstClear(fs.ibits) + 2 := File(key, 0, [])]
  {
    hide UsedAreTaken, UsedAreDistinct, TakenAreUsed, UnusedAreZero, FileOf, FilesOf, FirstClear;
    var fs', s := CreateObject(fs, key).0, FirstClear(fs.ibits);
    NewFile(fs, key);
    forall t: nat | t < SLOTS && t != s
      ensures FileOf(fs', t) == FileOf(fs, t)
    {
      SameInodeSameFile(fs, fs', t);
    }
    OneFileChanges(fs, fs', s);
  }

  /** A new object has the smallest free id, the given key and no blocks; every
      other file is as before. */
  lemma CreateObjectRefines(fs: FS, key: seq<Byte>)
    requires Inv(fs) && NoZero(key) && |key| < 32
    ensures Inv(CreateObject(fs, key).0)
    ensures (FilesOf(CreateObject(fs, key).0), CreateObject(fs, key).1) == Create(FilesOf(fs), key)
  {
    hide UsedAreTaken, UsedAreDistinct, TakenAreUsed, UnusedAreZero, FilesOf, FirstClear, FreeId;
    CreateKeepsInv(fs, key);
    FirstClearIsFreeId(fs);
    if FirstClear(fs.ibits) < SLOTS {
      CreateAddsAFile(fs, key);
    }
  }

  // ----- objstore_write

  /** No write touches a data block that an object already has. */
  lemma WriteKeepsData(fs: FS, s: nat, buff: seq<Byte>, a: nat, s1: nat, k: nat)
    requires InOrder(fs, s, |buff|, a) && WriteDefined(fs, s, |buff|, a)
    requires UsedRef(fs, s1, RefOf(k))
    ensures LocOf(fs, s1, RefOf(k)) < DISK_BLOCKS
    ensures WriteAt(fs, s, buff, a).view[LocOf(fs, s1, RefOf(k))] == fs.view[LocOf(fs, s1, RefOf(k))]
  {
    hide Inv, BlockFor, Taken, Bit;
    InOrderIsDefined(fs, s, |buff|, a);
    var b := LocOf(fs, s1, RefOf(k));
    UsedIsTaken(fs, s1, RefOf(k));
    if a < DIRECT {
      FreshBlock(fs.dbits);
    } else if EntryOf(a) == 0 {
      TwoFreshBlocks(fs.dbits);
    } else {
      FreshBlock(fs.dbits);
      OldTableState(fs, s, buff, a);
      DistinctRefs(fs, s, 4 + TableOf(a), s1, RefOf(k));
    }
  }

  lemma WriteKeepsDataBlock(fs: FS, s: nat, buff: seq<Byte>, a: nat, s1: nat, k: nat)
    requires InOrder(fs, s, |buff|, a) && WriteDefined(fs, s, |buff|, a)
    requires s1 < SLOTS && k < Count(fs, s1)
    ensures |WriteAt(fs, s, buff, a).table| == |fs.table|
    ensures DataBlock(WriteAt(fs, s, buff, a), s1, k) == DataBlock(fs, s1, k)
  {
    assert SlotOk(fs, s1);
    assert UsedRef(fs, s1, RefOf(k));
    WriteKeepsData(fs, s, buff, a, s1, k);
    WriteAddsABlock(fs, s, buff, a);
    assert LocOf(WriteAt(fs, s, buff, a), s1, RefOf(k)) == LocOf(fs, s1, RefOf(k));
  }

  lemma AddedBlockHoldsData(fs: FS, s: nat, buff: seq<Byte>, a: nat)
    requires InOrder(fs, s, |buff|, a) && WriteDefined(fs, s, |buff|, a)
    ensures RefOf(a) in NewRefsOf(fs, a) && NewRefsOf(fs, a)[RefOf(a)] < DISK_BLOCKS
    ensures |WriteAt(fs, s, buff, a).view| == DISK_BLOCKS
    ensures WriteAt(fs, s, buff, a).view[NewRefsOf(fs, a)[RefOf(a)]] == Pad(buff)
  {
    hide Inv, BlockFor, Taken, Bit;
    if NeedsTable(a) {
      TwoFreshBlocks(fs.dbits);
      NextUses(a, 0);
    } else {
      FreshBlock(fs.dbits);
    }
  }

  /** The block that a write adds holds the data, padded with zeros. */
  lemma WriteStoresData(fs: FS, s: nat, buff: seq<Byte>, a: nat)
    requires InOrder(fs, s, |buff|, a) && WriteDefined(fs, s, |buff|, a)
    ensures |WriteAt(fs, s, buff, a).table| == |fs.table|
    ensures DataBlock(WriteAt(fs, s, buff, a), s, a) == Pad(buff)
  {
    hide Inv, WriteAt, NewRefsOf, BlockFor, Taken, Bit;
    WriteAddsABlock(fs, s, buff, a);
    AddedBlockHoldsData(fs, s, buff, a);
    assert LocOf(WriteAt(fs, s, buff, a), s, RefOf(a)) == NewRefsOf(fs, a)[RefOf(a)];
  }

  lemma WriteGrowsInode(fs: FS, s: nat, buff: seq<Byte>, a: nat)
    requires InOrder(fs, s, |buff|, a) && WriteDefined(fs, s, |buff|, a)
    ensures |WriteAt(fs, s, buff, a).table| == |fs.table|
    ensures WriteAt(fs, s, buff, a).table[s].key == fs.table[s].key
    ensures WriteAt(fs, s, buff, a).table[s].size == fs.table[s].size + |buff|
    ensures BlocksFor(fs.table[s].size) == a && BlocksFor(fs.table[s].size + |buff|) == a + 1
  {
    InOrderIsDefined(fs, s, |buff|, a);
  }

  lemma WriteAppendsToFile(fs: FS, s: nat, buff: seq<Byte>, a: nat)
    requires InOrder(fs, s, |buff|, a) && WriteDefined(fs, s, |buff|, a)
    ensures |WriteAt(fs, s, buff, a).table| == |fs.table|
    ensures FileOf(WriteAt(fs, s, buff, a), s) == Appended(FileOf(fs, s), buff)
  {
    hide Inv, WriteAt, DataBlock, CString;
    WriteGrowsInode(fs, s, buff, a);
    WriteStoresData(fs, s, buff, a);
    var f', f := FileOf(WriteAt(fs, s, buff, a), s), FileOf(fs, s);
    forall k | 0 <= k < a
      ensures f'.blocks[k] == f.blocks[k]
    {
      WriteKeepsDataBlock(fs, s, buff, a, s, k);
    }
    assert f'.blocks == f.blocks + [Pad(buff)];
  }

  lemma WriteKeepsOtherFile(fs: FS, s: nat, buff: seq<Byte>, a: nat, s1: nat)
    requires InOrder(fs, s, |buff|, a) && WriteDefined(fs, s, |buff|, a)
    requires s1 < SLOTS && s1 != s
    ensures |WriteAt(fs, s, buff, a).table| == |fs.table|
    ensures FileOf(WriteAt(fs, s, buff, a), s1) == FileOf(fs, s1)
  {
    var f', f := FileOf(WriteAt(fs, s, buff, a), s1), FileOf(fs, s1);
    forall k | 0 <= k < Count(fs, s1)
      ensures f'.blocks[k] == f.blocks[k]
    {
      WriteKeepsDataBlock(fs, s, buff, a, s1, k);
    }
    assert f'.blocks == f.blocks;
  }

  /** An append changes the target's file and no other one. */
  lemma WriteRefines(fs: FS, s: nat, buff: seq<Byte>, a: nat)
    requires InOrder(fs, s, |buff|, a)
    ensures WriteDefined(fs, s, |buff|, a) && Inv(WriteAt(fs, s, buff, a))
    ensures FilesOf(WriteAt(fs, s, buff, a)) == Append(FilesOf(fs), s + 2, buff).0
  {
    WriteKeepsInv(fs, s, buff, a);
    var fs' := WriteAt(fs, s, buff, a);
    WriteAppendsToFile(fs, s, buff, a);
    forall t: nat | t < SLOTS && t != s && Live(fs, t)
      ensures FileOf(fs', t) == FileOf(fs, t)
    {
      WriteKeepsOtherFile(fs, s, buff, a, t);
    }
    assert fs'.ibits == fs.ibits by { WriteAddsABlock(fs, s, buff, a); }
    OneFileChanges(fs, fs', s);
    assert HasFile(fs, s + 2);
  }

  // ----- objstore_read

  lemma OffsetInBlock(a: nat, i: nat)
    ensures (BLOCK_SIZE * a + i) / BLOCK_SIZE == a + i / BLOCK_SIZE
    ensures (BLOCK_SIZE * a + i) % BLOCK_SIZE == i % BLOCK_SIZE
  {
  }

  lemma ReadByte(fs: FS, s: nat, a: nat, size: nat, i: nat)
    requires Shape(fs) && s < SLOTS && i < size && a + BlocksFor(size) <= MAX_BLOCKS
    requires BLOCK_SIZE * a + size <= BLOCK_SIZE * Count(fs, s)
    ensures ReadBytes(fs, s, a, size)[i] == Read(FileOf(fs, s), BLOCK_SIZE * a, size)[i]
  {
    hide Loc, BlockIn, CString;
    var k := a + i / BLOCK_SIZE;
    OffsetInBlock(a, i);
    assert FileOf(fs, s).blocks[k] == DataBlock(fs, s, k);
  }

  /** A read of written blocks from a block boundary on gives the bytes of the file. */
  lemma ReadRefines(fs: FS, s: nat, a: nat, size: nat)
    requires Inv(fs) && s < SLOTS
    requires BLOCK_SIZE * a + size <= BLOCK_SIZE * Count(fs, s)
    ensures a + BlocksFor(size) <= MAX_BLOCKS
    ensures ReadBytes(fs, s, a, size) == Read(FileOf(fs, s), BLOCK_SIZE * a, size)
  {
    assert a + BlocksFor(size) <= Count(fs, s) <= MAX_BLOCKS by {
      assert SlotOk(fs, s);
    }
    forall i | 0 <= i < size
      ensures ReadBytes(fs, s, a, size)[i] == Read(FileOf(fs, s), BLOCK_SIZE * a, size)[i]
    {
      ReadByte(fs, s, a, size, i);
    }
  }
}
