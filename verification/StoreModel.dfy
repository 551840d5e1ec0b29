/** The object store as a value: inode table, the two bitmaps, and the contents
    of every block. The operations follow `objstore.c`; the methods of `ObjStore`
    are proved against them. The blocks before `DATA_START` hold the saved
    metadata, which is not part of this state, and are blank in `view`. */
module StoreModel {
  import opened Basics
  import opened Bitmap
  import opened Blocks

  const INODE_BITMAP_SIZE := 31
  const DATA_BITMAP_SIZE := 256
  const INODE_BLOCKS := 22528
  const INODES_PER_BLOCK := 46

  const DATA_START := DATA_BLOCK_OFFSET
  const SLOTS := INODE_BITMAP_SIZE * BLOCK_SIZE * 8
  const IBIT_WORDS := INODE_BITMAP_SIZE * BLOCK_SIZE / 4
  const DBIT_WORDS := DATA_BITMAP_SIZE * BLOCK_SIZE / 4
  const TABLE_SLOTS := 1048576
  const SAVED_SLOTS := INODE_BLOCKS * INODES_PER_BLOCK
  const DATA_BLOCKS := DATA_BITMAP_SIZE * BLOCK_SIZE * 8
  const DISK_BLOCKS := DATA_START + DATA_BLOCKS

  /** The blocks of one object: four direct ones and four tables of 1024. */
  const DIRECT := 4
  const MAX_BLOCKS := 4 + 4 * 1024

  datatype FS = FS(table: seq<Inode>, ibits: seq<Word>, dbits: seq<Word>, view: seq<Block>)

  ghost predicate Shape(fs: FS) {
    |fs.table| == TABLE_SLOTS && |fs.ibits| == IBIT_WORDS && |fs.dbits| == DBIT_WORDS && |fs.view| == DISK_BLOCKS
  }

  predicate Live(fs: FS, s: nat)
    requires |fs.ibits| == IBIT_WORDS && s < SLOTS
  {
    Bit(fs.ibits, s)
  }

  /** The number of blocks a size needs. */
  function BlocksFor(size: nat): nat {
    (size + BLOCK_SIZE - 1) / BLOCK_SIZE
  }

  /** The data blocks and the block tables of an object of `n` blocks. */
  function OwnedCount(n: nat): nat {
    if n <= DIRECT then n else n + (n - DIRECT + INTS - 1) / INTS
  }

  // ----- references: every place an object stores a block number

  /** References 0..3 are `direct`, 4..7 are `indirect`, and 8 + 1024*j + e is
      entry `e` of the table that `indirect[j]` names. */
  const REFS := 8 + 4 * 1024

  /** Whether an object of `n` blocks uses reference `r`. */
  predicate Uses(n: nat, r: nat) {
    if r < 4 then r < n
    else if r < 8 then DIRECT + INTS * (r - 4) < n
    else r - 4 < n
  }

  /** The reference that names data block `k`. */
  function RefOf(k: nat): nat {
    if k < DIRECT then k else k + 4
  }

  function BlockIn(view: seq<Block>, b: nat): Block {
    if b < |view| then view[b] else ZeroBlock()
  }

  function Loc(o: Inode, view: seq<Block>, r: nat): U32
    requires r < REFS
  {
    if r < 4 then o.direct[r]
    else if r < 8 then o.indirect[r - 4]
    else IntAt(BlockIn(view, o.indirect[(r - 8) / INTS]), (r - 8) % INTS)
  }

  // ----- find_target, find_object_id

  predicate HasId(ibits: seq<Word>, table: seq<Inode>, s: nat, objid: int)
    requires |ibits| == IBIT_WORDS && |table| == TABLE_SLOTS && s < SLOTS
  {
    Bit(ibits, s) && table[s].id == objid
  }

  /** The first slot at or after `s` that is live and holds `objid`. */
  function SlotWithId(ibits: seq<Word>, table: seq<Inode>, objid: int, s: nat := 0): (r: nat)
    requires |ibits| == IBIT_WORDS && |table| == TABLE_SLOTS && s <= SLOTS
    ensures s <= r <= SLOTS
    ensures forall k :: s <= k < r ==> !HasId(ibits, table, k, objid)
    ensures r < SLOTS ==> HasId(ibits, table, r, objid)
    decreases SLOTS - s
  {
    if s == SLOTS || HasId(ibits, table, s, objid) then s else SlotWithId(ibits, table, objid, s + 1)
  }

  lemma SlotWithIdIs(ibits: seq<Word>, table: seq<Inode>, objid: int, r: nat)
    requires |ibits| == IBIT_WORDS && |table| == TABLE_SLOTS && r <= SLOTS
    requires forall k: nat :: k < r ==> !HasId(ibits, table, k, objid)
    requires r < SLOTS ==> HasId(ibits, table, r, objid)
    ensures SlotWithId(ibits, table, objid) == r
  {
  }

  /** `find_target`; `SLOTS` stands for NULL. */
  function FindTarget(fs: FS, objid: int): (r: nat)
    requires |fs.ibits| == IBIT_WORDS && |fs.table| == TABLE_SLOTS
    ensures r <= SLOTS
  {
    SlotWithId(fs.ibits, fs.table, objid)
  }

  predicate HasKey(ibits: seq<Word>, table: seq<Inode>, s: nat, key: seq<Byte>)
    requires |ibits| == IBIT_WORDS && |table| == TABLE_SLOTS && s < SLOTS
  {
    Bit(ibits, s) && table[s].id != 0 && CString(table[s].key) == key
  }

  /** The first slot at or after `s` that is live and holds `key`. */
  function SlotWithKey(ibits: seq<Word>, table: seq<Inode>, key: seq<Byte>, s: nat := 0): (r: nat)
    requires |ibits| == IBIT_WORDS && |table| == TABLE_SLOTS && s <= SLOTS
    ensures s <= r <= SLOTS
    ensures forall k :: s <= k < r ==> !HasKey(ibits, table, k, key)
    ensures r < SLOTS ==> HasKey(ibits, table, r, key)
    decreases SLOTS - s
  {
    if s == SLOTS || HasKey(ibits, table, s, key) then s else SlotWithKey(ibits, table, key, s + 1)
  }

  lemma SlotWithKeyIs(ibits: seq<Word>, table: seq<Inode>, key: seq<Byte>, r: nat)
    requires |ibits| == IBIT_WORDS && |table| == TABLE_SLOTS && r <= SLOTS
    requires forall k: nat :: k < r ==> !HasKey(ibits, table, k, key)
    requires r < SLOTS ==> HasKey(ibits, table, r, key)
    ensures SlotWithKey(ibits, table, key) == r
  {
  }

  /** `find_object_id` */
  function FindObjectId(fs: FS, key: seq<Byte>): int
    requires |fs.ibits| == IBIT_WORDS && |fs.table| == TABLE_SLOTS
  {
    var s := SlotWithKey(fs.ibits, fs.table, key);
    if s == SLOTS then -1 else fs.table[s].id
  }

  // ----- create_object

  function NamedInode(o: Inode, s: nat, key: seq<Byte>): Inode
    requires s < SLOTS && |key| < 32
  {
    o.(id := s + 2, key := StrCpy(o.key, key))
  }

  function CreateObject(fs: FS, key: seq<Byte>): (r: (FS, int))
    requires |fs.ibits| == IBIT_WORDS && |fs.table| == TABLE_SLOTS && |key| < 32
  {
    var s := FirstClear(fs.ibits);
    if s == SLOTS then (fs, -1)
    else (FS(fs.table[s := NamedInode(fs.table[s], s, key)], Set(fs.ibits, s), fs.dbits, fs.view), s + 2)
  }

  // ----- objstore_write

  /** The index of the block table that covers block `a`, and `a`'s entry in it. */
  function TableOf(a: nat): nat
    requires DIRECT <= a < MAX_BLOCKS
  {
    (a - DIRECT) / INTS
  }

  function EntryOf(a: nat): nat
    requires DIRECT <= a < MAX_BLOCKS
  {
    (a - DIRECT) % INTS
  }

  predicate NeedsTable(a: nat) {
    DIRECT <= a < MAX_BLOCKS && EntryOf(a) == 0
  }

  /** The blocks that a write of block `a` takes. */
  function BlocksNeeded(a: nat): nat {
    if NeedsTable(a) then 2 else 1
  }

  /** What the source needs of the free space: a block, and another one when
      a block table has to be started. */
  predicate HasRoom(fs: FS, a: nat) {
    HasClear(fs.dbits) && (NeedsTable(a) ==> HasClear(Taken(fs.dbits)))
  }

  /** What the source needs to be able to follow its block table. */
  ghost predicate TableReachable(fs: FS, s: nat, a: nat)
    requires s < |fs.table|
  {
    DIRECT <= a < MAX_BLOCKS && EntryOf(a) != 0 ==>
      DATA_START <= fs.table[s].indirect[TableOf(a)] < DISK_BLOCKS
  }

  ghost predicate WriteDefined(fs: FS, s: nat, len: nat, a: nat) {
    && Shape(fs) && s < SLOTS && 1 <= len <= BLOCK_SIZE
    && fs.table[s].size + len < 0x1_0000_0000_0000_0000
    && HasRoom(fs, a) && TableReachable(fs, s, a)
  }

  /** A block table holding its first entry. */
  function FirstEntry(data_2: U32): Block {
    PutInt(ZeroBlock(), 0, data_2)
  }

  function WithDirect(o: Inode, a: nat, blk: U32): Inode
    requires a < DIRECT
  {
    o.(direct := o.direct[a := blk])
  }

  function WithTable(o: Inode, j: nat, blk: U32): Inode
    requires j < 4
  {
    o.(indirect := o.indirect[j := blk])
  }

  function WithSize(o: Inode, len: nat): Inode
    requires o.size + len < 0x1_0000_0000_0000_0000
  {
    o.(size := o.size + len)
  }

  ghost function WriteDirect(fs: FS, s: nat, buff: seq<Byte>, a: nat): FS
    requires WriteDefined(fs, s, |buff|, a) && a < DIRECT
  {
    FS(fs.table[s := WithDirect(WithSize(fs.table[s], |buff|), a, BlockFor(fs.dbits))],
       fs.ibits, Taken(fs.dbits), fs.view[BlockFor(fs.dbits) := Pad(buff)])
  }

  ghost function WriteNewTable(fs: FS, s: nat, buff: seq<Byte>, a: nat): FS
    requires WriteDefined(fs, s, |buff|, a) && NeedsTable(a)
  {
    var data_1, data_2 := BlockFor(fs.dbits), BlockFor(Taken(fs.dbits));
    FS(fs.table[s := WithTable(WithSize(fs.table[s], |buff|), TableOf(a), data_1)],
       fs.ibits, Taken(Taken(fs.dbits)), fs.view[data_1 := FirstEntry(data_2)][data_2 := Pad(buff)])
  }

  ghost function WriteOldTable(fs: FS, s: nat, buff: seq<Byte>, a: nat): FS
    requires WriteDefined(fs, s, |buff|, a) && DIRECT <= a < MAX_BLOCKS && EntryOf(a) != 0
  {
    var data_1, t := BlockFor(fs.dbits), fs.table[s].indirect[TableOf(a)];
    FS(fs.table[s := WithSize(fs.table[s], |buff|)],
       fs.ibits, Taken(fs.dbits), fs.view[t := PutInt(fs.view[t], EntryOf(a), data_1)][data_1 := Pad(buff)])
  }

  /** A write past the last block a table can name: the size grows and a block
      is taken, but the data goes nowhere. */
  ghost function WriteBeyond(fs: FS, s: nat, len: nat, a: nat): FS
    requires WriteDefined(fs, s, len, a)
  {
    FS(fs.table[s := WithSize(fs.table[s], len)], fs.ibits, Taken(fs.dbits), fs.view)
  }

  ghost function WriteAt(fs: FS, s: nat, buff: seq<Byte>, a: nat): FS
    requires WriteDefined(fs, s, |buff|, a)
  {
    if a < DIRECT then WriteDirect(fs, s, buff, a)
    else if NeedsTable(a) then WriteNewTable(fs, s, buff, a)
    else if a < MAX_BLOCKS then WriteOldTable(fs, s, buff, a)
    else WriteBeyond(fs, s, |buff|, a)
  }

  /** The whole of `objstore_write`: -1 for an unknown object. */
  ghost predicate WriteObjectDefined(fs: FS, objid: int, len: nat, offset: nat) {
    Shape(fs) && var s := FindTarget(fs, objid); s < SLOTS ==> WriteDefined(fs, s, len, offset / BLOCK_SIZE)
  }

  ghost function WriteObject(fs: FS, objid: int, buff: seq<Byte>, offset: nat): (FS, int)
    requires WriteObjectDefined(fs, objid, |buff|, offset)
  {
    var s := FindTarget(fs, objid);
    if s == SLOTS then (fs, -1) else (WriteAt(fs, s, buff, offset / BLOCK_SIZE), |buff|)
  }

  // ----- objstore_read

  ghost predicate InDataRegion(b: nat) {
    DATA_START <= b < DISK_BLOCKS
  }

  /** The pointers that a read of block `a` follows lead to data blocks. */
  ghost predicate BlockReadable(fs: FS, s: nat, a: nat)
    requires s < |fs.table|
  {
    && a < MAX_BLOCKS
    && (DIRECT <= a ==> InDataRegion(fs.table[s].indirect[TableOf(a)]))
    && InDataRegion(Loc(fs.table[s], fs.view, RefOf(a)))
  }

  /** The bytes of the blocks `a`, `a+1`, ... of one object. */
  function ReadBytes(fs: FS, s: nat, a: nat, size: nat): (r: seq<Byte>)
    requires s < |fs.table| && a + BlocksFor(size) <= MAX_BLOCKS
    ensures |r| == size
  {
    seq(size, i requires 0 <= i < size =>
      BlockIn(fs.view, Loc(fs.table[s], fs.view, RefOf(a + i / BLOCK_SIZE)))[i % BLOCK_SIZE])
  }

  ghost predicate ReadDefined(fs: FS, objid: int, size: nat, offset: nat) {
    && Shape(fs) && FindTarget(fs, objid) < SLOTS
    && offset / BLOCK_SIZE + BlocksFor(size) <= MAX_BLOCKS
    && forall a: nat | offset / BLOCK_SIZE <= a < offset / BLOCK_SIZE + BlocksFor(size) ::
         BlockReadable(fs, FindTarget(fs, objid), a)
  }

  ghost function ReadObject(fs: FS, objid: int, size: nat, offset: nat): seq<Byte>
    requires ReadDefined(fs, objid, size, offset)
  {
    ReadBytes(fs, FindTarget(fs, objid), offset / BLOCK_SIZE, size)
  }
}
