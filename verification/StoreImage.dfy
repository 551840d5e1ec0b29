/** What a disk holds of an unmounted store. The regions are the inode bitmap,
    the data bitmap, the inode blocks of 46 inodes each, and the data blocks. */
module StoreImage {
  import opened Bitmap
  import opened Blocks
  import opened StoreModel

  const DATA_BITMAP_OFFSET := 31
  const INODE_BLOCK_OFFSET := 287
  const INODE_AREA := 4048

  function SavedInode(b: Block, m: nat): Inode
    requires m < INODES_PER_BLOCK
  {
    InodeOf(b[INODE_SIZE * m..INODE_SIZE * m + INODE_SIZE])
  }

  function DataBlockOf(view: seq<Block>, b: nat): Block
    requires b < |view|
  {
    if b < DATA_START then ZeroBlock() else view[b]
  }

  /** Data blocks as they are, metadata blocks blanked. */
  function DataView(view: seq<Block>): (r: seq<Block>)
    ensures |r| == |view|
  {
    seq(|view|, b requires 0 <= b < |view| => DataBlockOf(view, b))
  }

  function SavedTable(disk: seq<Block>): (r: seq<Inode>)
    requires |disk| == DISK_BLOCKS
    ensures |r| == TABLE_SLOTS
  {
    seq(TABLE_SLOTS, s requires 0 <= s < TABLE_SLOTS =>
      if s < SAVED_SLOTS then
        SavedInode(disk[INODE_BLOCK_OFFSET + s / INODES_PER_BLOCK], s % INODES_PER_BLOCK)
      else ZeroInode())
  }

  function SavedWords(disk: seq<Block>, lo: nat, count: nat): (r: seq<Word>)
    requires lo + count <= |disk|
    ensures |r| == INTS * count
  {
    seq(INTS * count, w requires 0 <= w < INTS * count => WordAt(disk[lo + w / INTS], w % INTS))
  }

  /** The store that mounting this disk gives. */
  function MountState(disk: seq<Block>): (fs: FS)
    requires |disk| == DISK_BLOCKS
    ensures Shape(fs)
  {
    FS(SavedTable(disk), SavedWords(disk, 0, INODE_BITMAP_SIZE),
       SavedWords(disk, DATA_BITMAP_OFFSET, DATA_BITMAP_SIZE), DataView(disk))
  }

  /** Where the disk holds what: the bits of the inode bitmap from block 0 on and of
      the data bitmap from block 31 on, 32768 to a block; 46 inodes of 88 bytes to a
      block from block 287 on; and the data from block 22815 on. */
  lemma ImageLayout(disk: seq<Block>)
    requires |disk| == DISK_BLOCKS
    ensures var fs := MountState(disk);
            && (forall n: nat | n < SLOTS :: Bit(fs.ibits, n) <==> WordAt(disk[n / 32768], n / 32 % 1024)[n % 32])
            && (forall n: nat | n < DATA_BLOCKS :: Bit(fs.dbits, n) <==> WordAt(disk[31 + n / 32768], n / 32 % 1024)[n % 32])
            && (forall s: nat | s < SAVED_SLOTS :: fs.table[s] == InodeOf(disk[287 + s / 46][88 * (s % 46)..88 * (s % 46) + 88]))
            && (forall b: nat | 22815 <= b < DISK_BLOCKS :: fs.view[b] == disk[b])
  {
    hide WordAt, InodeOf;
    var fs := MountState(disk);
    forall n: nat | n < SLOTS
      ensures Bit(fs.ibits, n) <==> WordAt(disk[n / 32768], n / 32 % 1024)[n % 32]
    {
      assert n / 32 / 1024 == n / 32768;
    }
    forall n: nat | n < DATA_BLOCKS
      ensures Bit(fs.dbits, n) <==> WordAt(disk[31 + n / 32768], n / 32 % 1024)[n % 32]
    {
      assert n / 32 / 1024 == n / 32768;
    }
  }

  /** Byte `p` of the inode table. */
  function TableByte(table: seq<Inode>, p: int): Byte
    requires 0 <= p < INODE_SIZE * |table|
  {
    InodeBytes(table[p / INODE_SIZE])[p % INODE_SIZE]
  }

  function StoredByte(table: seq<Inode>, i: nat, j: nat): Byte
    requires |table| == TABLE_SLOTS && i < INODE_BLOCKS && j < BLOCK_SIZE
  {
    TableByte(table, j + i * INODE_AREA)
  }

  /** The 4096 bytes of the table from byte `4048*i` on. */
  function TableBlock(table: seq<Inode>, i: nat): Block
    requires |table| == TABLE_SLOTS && i < INODE_BLOCKS
  {
    seq(BLOCK_SIZE, j requires 0 <= j < BLOCK_SIZE => StoredByte(table, i, j))
  }

  /** Storing 4096 bytes at a stride of 4048 and loading 4048 of them back loses
      nothing: 46 inodes fill exactly 4048 bytes. */
  lemma TableBlockRoundTrip(table: seq<Inode>, i: nat, m: nat)
    requires |table| == TABLE_SLOTS && i < INODE_BLOCKS && m < INODES_PER_BLOCK
    ensures SavedInode(TableBlock(table, i), m) == table[INODES_PER_BLOCK * i + m]
  {
    var s := INODES_PER_BLOCK * i + m;
    var bytes := TableBlock(table, i)[INODE_SIZE * m..INODE_SIZE * m + INODE_SIZE];
    forall q | 0 <= q < INODE_SIZE
      ensures bytes[q] == InodeBytes(table[s])[q]
    {
      var p := INODE_SIZE * m + q + i * INODE_AREA;
      assert p == INODE_SIZE * s + q;
      assert p / INODE_SIZE == s && p % INODE_SIZE == q;
      assert bytes[q] == TableBlock(table, i)[INODE_SIZE * m + q] == TableByte(table, p);
    }
    assert bytes == InodeBytes(table[s]);
    InodeRoundTrip(table[s]);
  }

  lemma WritingDataCommutes(view: seq<Block>, b: nat, x: Block)
    requires DATA_START <= b < |view|
    ensures DataView(view[b := x]) == DataView(view)[b := x]
  {
  }

  /** The regions follow each other without overlap and the inode bitmap names
      only slots that the inode blocks can hold. */
  lemma RegionsAreDisjoint()
    ensures TABLE_SLOTS == INODE_BLOCKS * BLOCK_SIZE / INODE_SIZE
    ensures INODE_BITMAP_SIZE == DATA_BITMAP_OFFSET
    ensures DATA_BITMAP_OFFSET + DATA_BITMAP_SIZE == INODE_BLOCK_OFFSET
    ensures INODE_BLOCK_OFFSET + INODE_BLOCKS == DATA_START
    ensures INODES_PER_BLOCK * INODE_SIZE == INODE_AREA
    ensures SLOTS <= SAVED_SLOTS <= TABLE_SLOTS && (SLOTS - 1) / INODES_PER_BLOCK < INODE_BLOCKS
  {
  }

  /** Blocks written from bitmap words hold those words. */
  lemma WordsAreSaved(disk: seq<Block>, lo: nat, count: nat, words: seq<Word>)
    requires lo + count <= |disk| && |words| == INTS * count
    requires forall i :: 0 <= i < count ==> disk[lo + i] == WordsBlock(words, INTS * i)
    ensures SavedWords(disk, lo, count) == words
  {
    forall w | 0 <= w < INTS * count
      ensures SavedWords(disk, lo, count)[w] == words[w]
    {
      assert disk[lo + w / INTS] == WordsBlock(words, INTS * (w / INTS));
      WordsBlockRoundTrip(words, INTS * (w / INTS), w % INTS);
    }
  }

  /** If every inode block was either written from the table or held it already,
      the disk holds the table. */
  lemma TableIsSaved(disk: seq<Block>, table: seq<Inode>)
    requires |disk| == DISK_BLOCKS && |table| == TABLE_SLOTS
    requires forall s :: SAVED_SLOTS <= s < TABLE_SLOTS ==> table[s] == ZeroInode()
    requires forall s :: 0 <= s < SAVED_SLOTS ==> InodeIsSaved(disk, table, s)
    ensures SavedTable(disk) == table
  {
    forall s | 0 <= s < TABLE_SLOTS
      ensures SavedTable(disk)[s] == table[s]
    {
      assert s < SAVED_SLOTS ==> InodeIsSaved(disk, table, s);
    }
  }

  ghost predicate InodeIsSaved(disk: seq<Block>, table: seq<Inode>, s: nat)
    requires |disk| == DISK_BLOCKS && |table| == TABLE_SLOTS && s < SAVED_SLOTS
  {
    SavedInode(disk[INODE_BLOCK_OFFSET + s / INODES_PER_BLOCK], s % INODES_PER_BLOCK) == table[s]
  }

  lemma SameBlocksSameWords(disk: seq<Block>, disk': seq<Block>, lo: nat, count: nat)
    requires lo + count <= |disk| && |disk| == |disk'|
    requires forall b :: lo <= b < lo + count ==> disk[b] == disk'[b]
    ensures SavedWords(disk, lo, count) == SavedWords(disk', lo, count)
  {
  }

  lemma SameBlocksSameTable(disk: seq<Block>, disk': seq<Block>)
    requires |disk| == |disk'| == DISK_BLOCKS
    requires forall b :: INODE_BLOCK_OFFSET <= b < DATA_START ==> disk[b] == disk'[b]
    ensures SavedTable(disk) == SavedTable(disk')
  {
  }

  /** Block `b` of the disk after the first `i` inode blocks were looked at. */
  function InodeBlockAfter(table: seq<Inode>, dirty: seq<int>, before: seq<Block>, i: nat, b: nat): Block
    requires |table| == TABLE_SLOTS && |dirty| == INODE_BLOCKS && |before| == DISK_BLOCKS
    requires i <= INODE_BLOCKS && b < DISK_BLOCKS
  {
    if INODE_BLOCK_OFFSET <= b < INODE_BLOCK_OFFSET + i && dirty[b - INODE_BLOCK_OFFSET] != 0 then
      TableBlock(table, b - INODE_BLOCK_OFFSET)
    else before[b]
  }

  lemma DirtyBlockSavesInode(table: seq<Inode>, dirty: seq<int>, before: seq<Block>, disk: seq<Block>, s: nat)
    requires |table| == TABLE_SLOTS && |dirty| == INODE_BLOCKS && |before| == |disk| == DISK_BLOCKS && s < SAVED_SLOTS
    requires dirty[s / INODES_PER_BLOCK] == 0 ==> InodeIsSaved(before, table, s)
    requires var b := INODE_BLOCK_OFFSET + s / INODES_PER_BLOCK;
             disk[b] == InodeBlockAfter(table, dirty, before, INODE_BLOCKS, b)
    ensures InodeIsSaved(disk, table, s)
  {
    TableBlockRoundTrip(table, s / INODES_PER_BLOCK, s % INODES_PER_BLOCK);
  }

  /** Writing back the dirty inode blocks is enough. */
  lemma DirtyBlocksSaveTable(table: seq<Inode>, dirty: seq<int>, before: seq<Block>, disk: seq<Block>)
    requires |table| == TABLE_SLOTS && |dirty| == INODE_BLOCKS && |before| == |disk| == DISK_BLOCKS
    requires forall s :: SAVED_SLOTS <= s < TABLE_SLOTS ==> table[s] == ZeroInode()
    requires forall s: nat | s < SAVED_SLOTS && dirty[s / INODES_PER_BLOCK] == 0 :: InodeIsSaved(before, table, s)
    requires forall b :: 0 <= b < DISK_BLOCKS ==> disk[b] == InodeBlockAfter(table, dirty, before, INODE_BLOCKS, b)
    ensures SavedTable(disk) == table
  {
    forall s | 0 <= s < SAVED_SLOTS
      ensures InodeIsSaved(disk, table, s)
    {
      DirtyBlockSavesInode(table, dirty, before, disk, s);
    }
    TableIsSaved(disk, table);
  }
}
