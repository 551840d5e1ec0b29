/** The object store as the source keeps it: arrays that the operations scan and
    update in place, and a block device that may be cached. Every operation is
    proved against `StoreModel`. */
module ObjStore {
  import opened Basics
  import opened Bitmap
  import opened Blocks
  import opened BlockCache
  import opened StoreModel
  import opened StoreImage
  import opened StoreInvariant
  import opened StoreRefinement

  class ObjectStore {
    const dev: BlockDevice
    const a: array<Inode>
    const inode_bitmap: array<Word>
    const data_bitmap: array<Word>
    const dirty_array: array<int>

    /** The heap a store lives in, apart from the disk. */
    ghost function Memory(): set<object> {
      {a as object, inode_bitmap as object, data_bitmap as object, dirty_array as object,
       dev.lines as object, dev.index as object, dev.dirty as object}
    }

    ghost predicate Shaped()
      reads dev.disk, dev.lines, dev.index, dev.dirty
    {
      && dev.Valid() && dev.low == DATA_START && dev.disk.Length == DISK_BLOCKS
      && a.Length == TABLE_SLOTS && inode_bitmap.Length == IBIT_WORDS && data_bitmap.Length == DBIT_WORDS
      && dirty_array.Length == INODE_BLOCKS
      && inode_bitmap != data_bitmap && dirty_array != dev.index && dirty_array != dev.dirty
    }

    /** A clean inode block is on the disk as it is in memory. */
    ghost predicate CleanSlot(s: nat)
      requires a.Length == TABLE_SLOTS && dirty_array.Length == INODE_BLOCKS && dev.disk.Length == DISK_BLOCKS
      requires s < SAVED_SLOTS
      reads a, dirty_array, dev.disk
    {
      dirty_array[s / INODES_PER_BLOCK] == 0 ==>
        SavedInode(dev.disk[INODE_BLOCK_OFFSET + s / INODES_PER_BLOCK], s % INODES_PER_BLOCK) == a[s]
    }

    ghost predicate Valid()
      reads dev.disk, dev.lines, dev.index, dev.dirty, a, inode_bitmap, data_bitmap, dirty_array
    {
      && Shaped()
      && (forall s: nat | s < SAVED_SLOTS :: CleanSlot(s))
      && (forall s: nat | SAVED_SLOTS <= s < TABLE_SLOTS :: a[s] == ZeroInode())
    }

    ghost function State(): (fs: FS)
      requires Shaped()
      reads dev.disk, dev.lines, dev.index, dev.dirty, a, inode_bitmap, data_bitmap, dirty_array
      ensures Shape(fs)
    {
      FS(a[..], inode_bitmap[..], data_bitmap[..], DataView(dev.View()))
    }

    /** `objstore_init`: everything is read back from the disk. */
    constructor Mount(disk: array<Block>, cached: bool)
      requires disk.Length == DISK_BLOCKS
      ensures Valid() && dev.disk == disk && dev.cached == cached && fresh(Memory())
      ensures disk[..] == old(disk[..]) && State() == MountState(disk[..])
      ensures forall k :: 0 <= k < INODE_BLOCKS ==> dirty_array[k] == 0
    {
      dev := new BlockDevice(disk, cached, DATA_START);
      a := new Inode[TABLE_SLOTS](_ => ZeroInode());
      inode_bitmap := new Word[IBIT_WORDS];
      data_bitmap := new Word[DBIT_WORDS];
      dirty_array := new int[INODE_BLOCKS];
      new;
      Load();
    }

    method Load()
      requires Shaped() && dev.View() == dev.disk[..]
      requires forall s :: 0 <= s < TABLE_SLOTS ==> a[s] == ZeroInode()
      modifies a, inode_bitmap, data_bitmap, dirty_array
      ensures Valid() && State() == MountState(dev.disk[..])
      ensures forall k :: 0 <= k < INODE_BLOCKS ==> dirty_array[k] == 0
    {
      LoadWords(dev.disk, 0, INODE_BITMAP_SIZE, inode_bitmap);
      LoadWords(dev.disk, DATA_BITMAP_OFFSET, DATA_BITMAP_SIZE, data_bitmap);
      LoadInodes(dev.disk, a, dirty_array);
      JustLoaded();
    }

    lemma TableIsLoaded(s: nat)
      requires a.Length == TABLE_SLOTS && dirty_array.Length == INODE_BLOCKS && dev.disk.Length == DISK_BLOCKS
      requires a[..] == SavedTable(dev.disk[..]) && s < TABLE_SLOTS
      ensures if s < SAVED_SLOTS then CleanSlot(s) else a[s] == ZeroInode()
    {
      assert a[s] == a[..][s];
    }

    lemma JustLoaded()
      requires Shaped() && dev.View() == dev.disk[..]
      requires a[..] == SavedTable(dev.disk[..])
      requires inode_bitmap[..] == SavedWords(dev.disk[..], 0, INODE_BITMAP_SIZE)
      requires data_bitmap[..] == SavedWords(dev.disk[..], DATA_BITMAP_OFFSET, DATA_BITMAP_SIZE)
      ensures Valid() && State() == MountState(dev.disk[..])
    {
      forall s: nat | s < TABLE_SLOTS
        ensures if s < SAVED_SLOTS then CleanSlot(s) else a[s] == ZeroInode()
      {
        TableIsLoaded(s);
      }
    }

    static method LoadInodes(disk: array<Block>, a: array<Inode>, dirty_array: array<int>)
      requires disk.Length == DISK_BLOCKS && a.Length == TABLE_SLOTS && dirty_array.Length == INODE_BLOCKS
      requires forall s :: 0 <= s < TABLE_SLOTS ==> a[s] == ZeroInode()
      modifies a, dirty_array
      ensures a[..] == SavedTable(disk[..])
      ensures forall k :: 0 <= k < INODE_BLOCKS ==> dirty_array[k] == 0
    {
      ghost var saved := SavedTable(disk[..]);
      for i := 0 to INODE_BLOCKS
        invariant forall k :: 0 <= k < i ==> dirty_array[k] == 0
        invariant forall s :: 0 <= s < TABLE_SLOTS ==>
                    a[s] == if s < INODES_PER_BLOCK * i then saved[s] else ZeroInode()
      {
        dirty_array[i] := 0;
        LoadInodeBlock(disk[INODE_BLOCK_OFFSET + i], i, a);
      }
    }

    static method LoadInodeBlock(temp: Block, i: nat, a: array<Inode>)
      requires a.Length == TABLE_SLOTS && i < INODE_BLOCKS
      modifies a
      ensures forall s :: 0 <= s < TABLE_SLOTS ==>
                a[s] == if s / INODES_PER_BLOCK == i then SavedInode(temp, s % INODES_PER_BLOCK) else old(a[s])
    {
      for k := 0 to INODES_PER_BLOCK
        invariant forall s :: 0 <= s < TABLE_SLOTS ==>
                    a[s] == if s / INODES_PER_BLOCK == i && s % INODES_PER_BLOCK < k
                            then SavedInode(temp, s % INODES_PER_BLOCK) else old(a[s])
      {
        a[INODES_PER_BLOCK * i + k] := SavedInode(temp, k);
      }
    }

    /** The bitmap blocks `lo .. lo + count` of a disk, word by word. */
    static method LoadWords(disk: array<Block>, lo: nat, count: nat, words: array<Word>)
      requires lo + count <= disk.Length && words.Length == INTS * count
      modifies words
      ensures words[..] == SavedWords(disk[..], lo, count)
    {
      ghost var saved := SavedWords(disk[..], lo, count);
      for i := 0 to count
        invariant forall w :: 0 <= w < INTS * i ==> words[w] == saved[w]
      {
        for k := 0 to INTS
          invariant forall w :: 0 <= w < INTS * i + k ==> words[w] == saved[w]
        {
          var w := INTS * i + k;
          assert w / INTS == i && w % INTS == k;
          words[w] := WordAt(disk[lo + i], k);
        }
      }
    }

    /** What an operation must respect: an inode may differ from the disk only
        in a block that is marked dirty. */
    twostate lemma StaysValid()
      requires old(Valid()) && Shaped()
      requires dev.disk[..DATA_START] == old(dev.disk[..DATA_START])
      requires forall s: nat | s < SAVED_SLOTS && dirty_array[s / INODES_PER_BLOCK] == 0 ::
                 old(dirty_array[s / INODES_PER_BLOCK]) == 0 && a[s] == old(a[s])
      requires forall s: nat | SAVED_SLOTS <= s < TABLE_SLOTS :: a[s] == old(a[s])
      ensures Valid()
    {
      forall s: nat | s < SAVED_SLOTS
        ensures CleanSlot(s)
      {
        assert old(CleanSlot(s));
        var b := INODE_BLOCK_OFFSET + s / INODES_PER_BLOCK;
        assert dev.disk[b] == dev.disk[..DATA_START][b];
        assert old(dev.disk[b]) == old(dev.disk[..DATA_START])[b];
      }
    }

    /** `find_target`; `SLOTS` stands for NULL. */
    method FindTarget(objid: int, set_dirty: bool) returns (slot: nat)
      requires Valid()
      modifies dirty_array
      ensures Valid() && State() == old(State())
      ensures slot == StoreModel.FindTarget(State(), objid)
      ensures set_dirty && slot < SLOTS ==> dirty_array[slot / INODES_PER_BLOCK] == 1
    {
      slot := ScanForId(inode_bitmap, a, dirty_array, objid, set_dirty);
      StaysValid();
    }

    static method ScanForId(inode_bitmap: array<Word>, a: array<Inode>, dirty_array: array<int>, objid: int, set_dirty: bool)
      returns (slot: nat)
      requires inode_bitmap.Length == IBIT_WORDS && a.Length == TABLE_SLOTS && dirty_array.Length == INODE_BLOCKS
      modifies dirty_array
      ensures slot == SlotWithId(inode_bitmap[..], a[..], objid)
      ensures forall k :: 0 <= k < INODE_BLOCKS ==>
                dirty_array[k] == if set_dirty && slot < SLOTS && k == slot / INODES_PER_BLOCK then 1 else old(dirty_array[k])
    {
      ghost var ibits, table := inode_bitmap[..], a[..];
      var ctr := 0;
      for i := 0 to IBIT_WORDS
        invariant ctr == BITS * i
        invariant dirty_array[..] == old(dirty_array[..])
        invariant forall k: nat :: k < ctr ==> !HasId(ibits, table, k, objid)
      {
        for j := 0 to BITS
          invariant ctr == BITS * i + j
          invariant dirty_array[..] == old(dirty_array[..])
          invariant forall k: nat :: k < ctr ==> !HasId(ibits, table, k, objid)
        {
          assert Bit(ibits, ctr) == inode_bitmap[i][j];
          if inode_bitmap[i][j] && a[ctr].id == objid {
            SlotWithIdIs(ibits, table, objid, ctr);
            if set_dirty {
              dirty_array[ctr / INODES_PER_BLOCK] := 1;
            }
            return ctr;
          }
          ctr := ctr + 1;
        }
      }
      SlotWithIdIs(ibits, table, objid, SLOTS);
      return SLOTS;
    }

    /** `find_object_id`. */
    method FindObjectId(key: seq<Byte>) returns (id: int)
      requires Valid()
      ensures id == StoreModel.FindObjectId(State(), key)
    {
      ghost var ibits, table := inode_bitmap[..], a[..];
      var ctr := 0;
      for i := 0 to IBIT_WORDS
        invariant ctr == BITS * i
        invariant forall k: nat :: k < ctr ==> !HasKey(ibits, table, k, key)
      {
        for j := 0 to BITS
          invariant ctr == BITS * i + j
          invariant forall k: nat :: k < ctr ==> !HasKey(ibits, table, k, key)
        {
          assert Bit(ibits, ctr) == inode_bitmap[i][j];
          if inode_bitmap[i][j] && a[ctr].id != 0 && CString(a[ctr].key) == key {
            SlotWithKeyIs(ibits, table, key, ctr);
            return a[ctr].id;
          }
          ctr := ctr + 1;
        }
      }
      SlotWithKeyIs(ibits, table, key, SLOTS);
      return -1;
    }

    /** `create_object`. */
    method CreateObject(key: seq<Byte>) returns (id: int)
      requires Valid() && |key| < 32
      modifies a, inode_bitmap, dirty_array
      ensures Valid() && (State(), id) == StoreModel.CreateObject(old(State()), key)
    {
      hide BlockDevice.Valid, DataView, BlockDevice.View, FirstClear, Set, Bit, StrCpy;
      ghost var fs := State();
      var free := TakeFreeSlot(inode_bitmap, a, dirty_array);
      StaysValid();
      if free == SLOTS {
        return -1;
      }
      label Found:
      a[free] := a[free].(key := StrCpy(a[free].key, key));
      assert a[..] == fs.table[free := NamedInode(fs.table[free], free, key)];
      StaysValid@Found();
      return a[free].id;
    }

    /** The scan of `create_object`, which goes on after the free slot is found. */
    static method TakeFreeSlot(inode_bitmap: array<Word>, a: array<Inode>, dirty_array: array<int>) returns (free: nat)
      requires inode_bitmap.Length == IBIT_WORDS && a.Length == TABLE_SLOTS && dirty_array.Length == INODE_BLOCKS
      modifies a, inode_bitmap, dirty_array
      ensures free == FirstClear(old(inode_bitmap[..]))
      ensures Scanned(old(inode_bitmap[..]), old(a[..]), SLOTS, free, inode_bitmap[..], a[..])
      ensures forall k :: 0 <= k < INODE_BLOCKS ==>
                dirty_array[k] == if free < SLOTS && k == free / INODES_PER_BLOCK then 1 else old(dirty_array[k])
    {
      ghost var bits, table := inode_bitmap[..], a[..];
      free := SLOTS;
      var ctr := 0;
      for i := 0 to IBIT_WORDS
        invariant ctr == BITS * i
        invariant Scanned(bits, table, ctr, free, inode_bitmap[..], a[..])
        invariant forall k :: 0 <= k < INODE_BLOCKS ==>
                    dirty_array[k] == if free < SLOTS && k == free / INODES_PER_BLOCK then 1 else old(dirty_array[k])
      {
        for j := 0 to BITS
          invariant ctr == BITS * i + j
          invariant Scanned(bits, table, ctr, free, inode_bitmap[..], a[..])
          invariant forall k :: 0 <= k < INODE_BLOCKS ==>
                      dirty_array[k] == if free < SLOTS && k == free / INODES_PER_BLOCK then 1 else old(dirty_array[k])
        {
          assert free == SLOTS ==> Bit(bits, ctr) == inode_bitmap[i][j];
          if !inode_bitmap[i][j] && free == SLOTS {
            inode_bitmap[i] := inode_bitmap[i][j := true];
            dirty_array[ctr / INODES_PER_BLOCK] := 1;
            free := ctr;
            a[ctr] := a[ctr].(id := ctr + 2);
          }
          ctr := ctr + 1;
        }
      }
      FirstClearIs(bits, free);
    }

    /** Where the scan of `create_object` stands: no clear bit was passed, or the
        first one was taken and its slot has been given its id. */
    static ghost predicate Scanned(bits: seq<Word>, table: seq<Inode>, ctr: nat, free: nat, bits': seq<Word>, table': seq<Inode>)
      requires |bits| == IBIT_WORDS && |table| == TABLE_SLOTS
    {
      if free == SLOTS then
        ctr <= SLOTS && (forall k: nat :: k < ctr ==> Bit(bits, k)) && bits' == bits && table' == table
      else
        && free < ctr <= SLOTS && (forall k: nat :: k < free ==> Bit(bits, k)) && !Bit(bits, free)
        && bits' == Set(bits, free) && table' == table[free := table[free].(id := free + 2)]
    }

    /** `cache_blk_read` of a data block. */
    method ReadBlock(b: nat) returns (temp: Block)
      requires Valid() && InDataRegion(b)
      modifies dev.disk, dev.lines, dev.index
      ensures Valid() && State() == old(State()) && temp == State().view[b]
    {
      temp := dev.Read(b);
      StaysValid();
    }

    /** `cache_blk_write` of a data block. */
    method WriteBlock(b: nat, temp: Block)
      requires Valid() && InDataRegion(b)
      modifies dev.disk, dev.lines, dev.index, dev.dirty
      ensures Valid()
      ensures State() == FS(old(State()).table, old(State()).ibits, old(State()).dbits, old(State()).view[b := temp])
    {
      ghost var view := dev.View();
      dev.Write(b, temp);
      WritingDataCommutes(view, b, temp);
      StaysValid();
    }

    /** The bitmap names the slot, and its inode holds the id. */
    ghost predicate IsLiveWithId(s: nat, objid: int)
      requires inode_bitmap.Length == IBIT_WORDS && a.Length == TABLE_SLOTS && s < SLOTS
      reads inode_bitmap, a
    {
      inode_bitmap[s / 32][s % 32] && a[s].id == objid
    }

    lemma FoundIffLive(objid: int)
      requires Shaped()
      ensures StoreModel.FindTarget(State(), objid) < SLOTS <==> exists s: nat :: s < SLOTS && IsLiveWithId(s, objid)
    {
      hide BlockDevice.Valid, DataView, BlockDevice.View;
      forall s: nat | s < SLOTS
        ensures IsLiveWithId(s, objid) <==> HasId(inode_bitmap[..], a[..], s, objid)
      {
      }
    }

    /** `objstore_write`. */
    method Write(objid: int, buff: seq<Byte>, offset: nat) returns (r: int)
      requires Valid() && WriteObjectDefined(State(), objid, |buff|, offset)
      modifies a, data_bitmap, dirty_array, dev.disk, dev.lines, dev.index, dev.dirty
      ensures Valid() && (State(), r) == WriteObject(old(State()), objid, buff, offset)
      ensures r == if exists s: nat :: s < SLOTS && old(IsLiveWithId(s, objid)) then |buff| else -1
      ensures r == -1 ==> State() == old(State())
    {
      hide BlockDevice.Valid, WriteAt, Placed, BlockFor, Taken, Bit, SlotWithId, DataView, BlockDevice.View;
      ghost var fs := State();
      FoundIffLive(objid);
      var target := FindTarget(objid, true);
      if target == SLOTS {
        return -1;
      }
      PlacedIsWriteAt(fs, target, buff, offset / BLOCK_SIZE);
      var data_1 := Grow(target, |buff|);
      var temp := PadCopy(buff);
      Place(target, offset / BLOCK_SIZE, data_1, temp);
      return |buff|;
    }

    /** A block for the data is taken, and the object has grown. */
    method Grow(target: nat, len: nat) returns (data_1: U32)
      requires Valid() && target < SLOTS && dirty_array[target / INODES_PER_BLOCK] == 1
      requires HasClear(data_bitmap[..]) && a[target].size + len < 0x1_0000_0000_0000_0000
      modifies a, data_bitmap
      ensures Valid() && data_1 == BlockFor(old(data_bitmap[..])) && State() == Grown(old(State()), target, len)
    {
      hide BlockFor, Taken, Bit, HasClear;
      OneCallTakesOneFreeBlock(data_bitmap[..]);
      ClearMeansABlock(data_bitmap[..]);
      data_1 := FreeDataBlock(data_bitmap);
      a[target] := WithSize(a[target], len);
      StaysValid();
    }

    static lemma ClearMeansABlock(dbits: seq<Word>)
      requires HasClear(dbits)
      ensures BlockFor(dbits) != -1
    {
    }

    /** The branches of `objstore_write` on the block index. */
    method Place(target: nat, blk: nat, data_1: U32, temp: Block)
      requires Valid() && target < SLOTS && dirty_array[target / INODES_PER_BLOCK] == 1
      requires PlacedDefined(State(), target, blk, data_1)
      modifies a, data_bitmap, dev.disk, dev.lines, dev.index, dev.dirty
      ensures Valid()
      ensures State() == Placed(old(State()), target, blk, data_1, temp)
    {
      if blk <= 3 {
        WriteBlock(data_1, temp);
        label Stored:
        a[target] := WithDirect(a[target], blk, data_1);
        StaysValid@Stored();
      } else if 4 <= blk < 1028 {
        WriteThroughTable(target, 0, blk - 4, data_1, temp);
      } else if 1028 <= blk < 2052 {
        WriteThroughTable(target, 1, blk - 1028, data_1, temp);
      } else if 2052 <= blk < 3076 {
        WriteThroughTable(target, 2, blk - 2052, data_1, temp);
      } else if 3076 <= blk < 4100 {
        WriteThroughTable(target, 3, blk - 3076, data_1, temp);
      }
    }

    static ghost function Grown(fs: FS, s: nat, len: nat): FS
      requires s < |fs.table| && fs.table[s].size + len < 0x1_0000_0000_0000_0000
    {
      FS(fs.table[s := WithSize(fs.table[s], len)], fs.ibits, Taken(fs.dbits), fs.view)
    }

    static ghost predicate PlacedDefined(fs: FS, s: nat, blk: nat, data_1: U32) {
      && Shape(fs) && s < SLOTS && InDataRegion(data_1)
      && (NeedsTable(blk) ==> HasClear(fs.dbits))
      && TableReachable(fs, s, blk)
    }

    static ghost function Placed(fs: FS, s: nat, blk: nat, data_1: U32, temp: Block): FS
      requires PlacedDefined(fs, s, blk, data_1)
    {
      if blk < DIRECT then
        FS(fs.table[s := WithDirect(fs.table[s], blk, data_1)], fs.ibits, fs.dbits, fs.view[data_1 := temp])
      else if blk < MAX_BLOCKS then
        ThroughTable(fs, s, TableOf(blk), EntryOf(blk), data_1, temp)
      else fs
    }

    /** Growing the inode first and placing the block then is `WriteAt`. */
    static lemma PlacedIsWriteAt(fs: FS, s: nat, buff: seq<Byte>, blk: nat)
      requires WriteDefined(fs, s, |buff|, blk)
      ensures DATA_START <= BlockFor(fs.dbits)
      ensures PlacedDefined(Grown(fs, s, |buff|), s, blk, BlockFor(fs.dbits))
      ensures Placed(Grown(fs, s, |buff|), s, blk, BlockFor(fs.dbits), Pad(buff)) == WriteAt(fs, s, buff, blk)
    {
      var o, g := fs.table[s], Grown(fs, s, |buff|);
      assert g.table[s] == WithSize(o, |buff|);
      if blk < DIRECT {
        assert g.table[s := WithDirect(g.table[s], blk, BlockFor(fs.dbits))]
            == fs.table[s := WithDirect(WithSize(o, |buff|), blk, BlockFor(fs.dbits))];
      } else if NeedsTable(blk) {
        assert g.table[s := WithTable(g.table[s], TableOf(blk), BlockFor(fs.dbits))]
            == fs.table[s := WithTable(WithSize(o, |buff|), TableOf(blk), BlockFor(fs.dbits))];
      }
    }

    /** One of the four branches of `objstore_write` for blocks that are named by
        a block table: entry `e` of table `j`. */
    method WriteThroughTable(target: nat, j: nat, e: nat, data_1: U32, temp: Block)
      requires Valid() && target < SLOTS && dirty_array[target / INODES_PER_BLOCK] == 1
      requires j < 4 && e < INTS && InDataRegion(data_1)
      requires e == 0 ==> HasClear(data_bitmap[..])
      requires e != 0 ==> InDataRegion(a[target].indirect[j])
      modifies a, data_bitmap, dev.disk, dev.lines, dev.index, dev.dirty
      ensures Valid()
      ensures State() == ThroughTable(old(State()), target, j, e, data_1, temp)
    {
      if e == 0 {
        OneCallTakesOneFreeBlock(data_bitmap[..]);
        var data_2 := FreeDataBlock(data_bitmap);
        var indirect_block := PutInt(ZeroBlock(), 0, data_2);
        a[target] := WithTable(a[target], j, data_1);
        StaysValid();
        WriteBlock(data_1, indirect_block);
        WriteBlock(data_2, temp);
      } else {
        var indirect_block := ReadBlock(a[target].indirect[j]);
        indirect_block := PutInt(indirect_block, e, data_1);
        WriteBlock(a[target].indirect[j], indirect_block);
        WriteBlock(data_1, temp);
      }
    }

    static ghost function ThroughTable(fs: FS, s: nat, j: nat, e: nat, data_1: U32, temp: Block): FS
      requires Shape(fs) && s < SLOTS && j < 4 && e < INTS && InDataRegion(data_1)
      requires e == 0 ==> HasClear(fs.dbits)
      requires e != 0 ==> InDataRegion(fs.table[s].indirect[j])
    {
      if e == 0 then
        FS(fs.table[s := WithTable(fs.table[s], j, data_1)], fs.ibits, Taken(fs.dbits),
           fs.view[data_1 := FirstEntry(BlockFor(fs.dbits))][BlockFor(fs.dbits) := temp])
      else
        var t := fs.table[s].indirect[j];
        FS(fs.table, fs.ibits, fs.dbits, fs.view[t := PutInt(fs.view[t], e, data_1)][data_1 := temp])
    }

    /** `objstore_read`. */
    method Read(objid: int, size: nat, offset: nat) returns (buff: seq<Byte>)
      requires Valid() && ReadDefined(State(), objid, size, offset)
      modifies dirty_array, dev.disk, dev.lines, dev.index
      ensures Valid() && State() == old(State())
      ensures buff == ReadObject(State(), objid, size, offset)
    {
      hide BlockDevice.Valid, CleanSlot, DataView, BlockDevice.View, ReadBytes, SlotWithId, DataBlock;
      var target := FindTarget(objid, false);
      var temp := ReadBlocks(target, offset, BlocksFor(size));
      buff := CopyOut(temp, size);
      CopiedIsRead(State(), target, offset / BLOCK_SIZE, size, temp[..], buff);
    }

    static lemma CopiedIsRead(fs: FS, s: nat, blk: nat, size: nat, temp: seq<Block>, buff: seq<Byte>)
      requires Shape(fs) && s < SLOTS && blk + BlocksFor(size) <= MAX_BLOCKS && |temp| == BlocksFor(size) && |buff| == size
      requires forall k :: 0 <= k < |temp| ==> temp[k] == DataBlock(fs, s, blk + k)
      requires forall i :: 0 <= i < size ==> buff[i] == temp[i / BLOCK_SIZE][i % BLOCK_SIZE]
      ensures buff == ReadBytes(fs, s, blk, size)
    {
      forall i | 0 <= i < size
        ensures buff[i] == ReadBytes(fs, s, blk, size)[i]
      {
        assert temp[i / BLOCK_SIZE] == DataBlock(fs, s, blk + i / BLOCK_SIZE);
      }
    }

    /** The loop of `objstore_read`. */
    method ReadBlocks(target: nat, offset: nat, count: nat) returns (temp: array<Block>)
      requires Valid() && target < SLOTS
      requires forall b: nat | offset / BLOCK_SIZE <= b < offset / BLOCK_SIZE + count :: BlockReadable(State(), target, b)
      modifies dev.disk, dev.lines, dev.index
      ensures Valid() && State() == old(State()) && fresh(temp) && temp.Length == count
      ensures forall k :: 0 <= k < count ==> temp[k] == DataBlock(State(), target, offset / BLOCK_SIZE + k)
    {
      hide BlockDevice.Valid, CleanSlot, DataView, BlockDevice.View, DataBlock;
      ghost var fs := State();
      var blocks, curr, temp_off := count, offset, 0;
      temp := new Block[count];
      while blocks > 0
        invariant Valid() && State() == fs
        invariant temp_off + blocks == count && curr == offset + BLOCK_SIZE * temp_off
        invariant forall k :: 0 <= k < temp_off ==> temp[k] == DataBlock(fs, target, offset / BLOCK_SIZE + k)
      {
        assert curr / BLOCK_SIZE == offset / BLOCK_SIZE + temp_off;
        var block := FetchBlock(target, curr / BLOCK_SIZE);
        temp[temp_off] := block;
        blocks := blocks - 1;
        curr := curr + BLOCK_SIZE;
        temp_off := temp_off + 1;
      }
    }

    /** The branches of `objstore_read` on the block index. */
    method FetchBlock(target: nat, blk: nat) returns (block: Block)
      requires Valid() && target < SLOTS && BlockReadable(State(), target, blk)
      modifies dev.disk, dev.lines, dev.index
      ensures Valid() && State() == old(State())
      ensures block == DataBlock(State(), target, blk)
    {
      hide BlockDevice.Valid, CleanSlot, DataView, BlockDevice.View;
      if blk <= 3 {
        block := ReadBlock(a[target].direct[blk]);
      } else {
        var j, base;
        if blk < 1028 {
          j, base := 0, 4;
        } else if blk < 2052 {
          j, base := 1, 1028;
        } else if blk < 3076 {
          j, base := 2, 2052;
        } else {
          j, base := 3, 3076;
        }
        assert j == TableOf(blk) && blk - base == EntryOf(blk);
        RefOfEntry(blk, RefOf(blk));
        var indirect_block := ReadBlock(a[target].indirect[j]);
        var block_add := IntAt(indirect_block, blk - base);
        block := ReadBlock(block_add);
      }
    }

    static method CopyOut(temp: array<Block>, size: nat) returns (buff: seq<Byte>)
      requires size <= BLOCK_SIZE * temp.Length
      ensures |buff| == size && forall i :: 0 <= i < size ==> buff[i] == temp[i / BLOCK_SIZE][i % BLOCK_SIZE]
    {
      var out := new Byte[size];
      for i := 0 to size
        invariant forall k :: 0 <= k < i ==> out[k] == temp[k / BLOCK_SIZE][k % BLOCK_SIZE]
      {
        out[i] := temp[i / BLOCK_SIZE][i % BLOCK_SIZE];
      }
      buff := out[..];
    }

    /** `objstore_destroy`: everything is written to the disk, inode blocks and
        cache lines only if they are marked dirty. */
    method Unmount()
      requires Valid()
      modifies dev.disk
      ensures MountState(dev.disk[..]) == old(State())
    {
      StoreMetadata();
      ghost var saved := dev.disk[..];
      dev.Flush();
      ghost var final := dev.disk[..];
      assert forall b :: 0 <= b < DATA_START ==> final[b] == final[..DATA_START][b] == saved[..DATA_START][b] == saved[b];
      SameBlocksSameWords(saved, final, 0, INODE_BITMAP_SIZE);
      SameBlocksSameWords(saved, final, DATA_BITMAP_OFFSET, DATA_BITMAP_SIZE);
      SameBlocksSameTable(saved, final);
    }

    method StoreMetadata()
      requires Valid()
      modifies dev.disk
      ensures dev.Valid() && DataView(dev.View()) == old(DataView(dev.View()))
      ensures SavedTable(dev.disk[..]) == a[..]
      ensures SavedWords(dev.disk[..], 0, INODE_BITMAP_SIZE) == inode_bitmap[..]
      ensures SavedWords(dev.disk[..], DATA_BITMAP_OFFSET, DATA_BITMAP_SIZE) == data_bitmap[..]
    {
      StoreBitmaps(dev.disk, inode_bitmap, data_bitmap);
      ghost var disk := dev.disk[..];
      forall s: nat | s < SAVED_SLOTS && dirty_array[s / INODES_PER_BLOCK] == 0
        ensures InodeIsSaved(dev.disk[..], a[..], s)
      {
        assert old(CleanSlot(s));
      }
      StoreInodes(dev.disk, a, dirty_array);
      SameBlocksSameWords(disk, dev.disk[..], 0, INODE_BITMAP_SIZE);
      SameBlocksSameWords(disk, dev.disk[..], DATA_BITMAP_OFFSET, DATA_BITMAP_SIZE);
      MetadataIsNotCached();
    }

    static method StoreBitmaps(disk: array<Block>, inode_bitmap: array<Word>, data_bitmap: array<Word>)
      requires disk.Length == DISK_BLOCKS && inode_bitmap.Length == IBIT_WORDS && data_bitmap.Length == DBIT_WORDS
      modifies disk
      ensures SavedWords(disk[..], 0, INODE_BITMAP_SIZE) == inode_bitmap[..]
      ensures SavedWords(disk[..], DATA_BITMAP_OFFSET, DATA_BITMAP_SIZE) == data_bitmap[..]
      ensures forall b :: INODE_BLOCK_OFFSET <= b < DISK_BLOCKS ==> disk[b] == old(disk[b])
    {
      StoreWords(disk, 0, INODE_BITMAP_SIZE, inode_bitmap);
      ghost var disk1 := disk[..];
      StoreWords(disk, DATA_BITMAP_OFFSET, DATA_BITMAP_SIZE, data_bitmap);
      SameBlocksSameWords(disk1, disk[..], 0, INODE_BITMAP_SIZE);
    }

    /** Writing below the data blocks changes no cached line and no view of a data block. */
    twostate lemma MetadataIsNotCached()
      requires old(Shaped())
      requires unchanged(dev.lines) && unchanged(dev.index) && unchanged(dev.dirty)
      requires forall b :: DATA_START <= b < DISK_BLOCKS ==> dev.disk[b] == old(dev.disk[b])
      ensures dev.Valid() && DataView(dev.View()) == old(DataView(dev.View()))
    {
      forall s: nat | s < CACHE_BLKS
        ensures dev.LineValid(s)
      {
        assert old(dev.LineValid(s));
      }
    }

    static method StoreWords(disk: array<Block>, lo: nat, count: nat, words: array<Word>)
      requires lo + count <= disk.Length && words.Length == INTS * count
      modifies disk
      ensures SavedWords(disk[..], lo, count) == words[..]
      ensures forall b :: 0 <= b < disk.Length && !(lo <= b < lo + count) ==> disk[b] == old(disk[b])
    {
      for i := 0 to count
        invariant forall k :: 0 <= k < i ==> disk[lo + k] == WordsBlock(words[..], INTS * k)
        invariant forall b :: 0 <= b < disk.Length && !(lo <= b < lo + count) ==> disk[b] == old(disk[b])
      {
        disk[lo + i] := WordsBlock(words[..], INTS * i);
      }
      WordsAreSaved(disk[..], lo, count, words[..]);
    }

    /** The blocks of the inode table that are marked dirty. */
    static method StoreInodes(disk: array<Block>, a: array<Inode>, dirty_array: array<int>)
      requires disk.Length == DISK_BLOCKS && a.Length == TABLE_SLOTS && dirty_array.Length == INODE_BLOCKS
      requires forall s: nat | s < SAVED_SLOTS && dirty_array[s / INODES_PER_BLOCK] == 0 :: InodeIsSaved(disk[..], a[..], s)
      requires forall s :: SAVED_SLOTS <= s < TABLE_SLOTS ==> a[s] == ZeroInode()
      modifies disk
      ensures SavedTable(disk[..]) == a[..]
      ensures forall b :: 0 <= b < DISK_BLOCKS && !(INODE_BLOCK_OFFSET <= b < DATA_START) ==> disk[b] == old(disk[b])
    {
      ghost var table, dirty, before := a[..], dirty_array[..], disk[..];
      for i := 0 to INODE_BLOCKS
        invariant forall b :: 0 <= b < DISK_BLOCKS ==> disk[b] == InodeBlockAfter(table, dirty, before, i, b)
      {
        if dirty_array[i] != 0 {
          var temp := CopyTableBlock(a, i);
          disk[INODE_BLOCK_OFFSET + i] := temp;
        }
      }
      DirtyBlocksSaveTable(table, dirty, before, disk[..]);
    }

    static method CopyTableBlock(a: array<Inode>, i: nat) returns (temp: Block)
      requires a.Length == TABLE_SLOTS && i < INODE_BLOCKS
      ensures temp == TableBlock(a[..], i)
    {
      var out := new Byte[BLOCK_SIZE];
      for j := 0 to BLOCK_SIZE
        invariant forall k :: 0 <= k < j ==> out[k] == StoredByte(a[..], i, k)
      {
        var p := j + i * INODE_AREA;
        out[j] := InodeBytes(a[p / INODE_SIZE])[p % INODE_SIZE];
      }
      temp := out[..];
    }
  }
}
