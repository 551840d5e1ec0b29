/** What the object store is for, without inodes, bitmaps or blocks on a disk: a
    map from object ids to files. A file is a key, a size, and its contents as
    zero-padded blocks. */
module ObjectMap {
  import opened Blocks
  import opened StoreModel

  datatype File = File(key: seq<Byte>, size: nat, blocks: seq<Block>)

  type Files = map<int, File>

  const FIRST_ID := 2
  const LAST_ID := SLOTS + 1

  /** The smallest id from `id` on that is not in use. */
  function FreeId(files: Files, id: int := FIRST_ID): (r: int)
    requires FIRST_ID <= id <= LAST_ID + 1
    ensures id <= r <= LAST_ID + 1
    ensures forall i :: id <= i < r ==> i in files
    ensures r <= LAST_ID ==> r !in files
    decreases LAST_ID + 1 - id
  {
    if id == LAST_ID + 1 || id !in files then id else FreeId(files, id + 1)
  }

  /** The smallest id from `id` on whose file has this key. */
  function IdWithKey(files: Files, key: seq<Byte>, id: int := FIRST_ID): (r: int)
    requires FIRST_ID <= id <= LAST_ID + 1
    ensures id <= r <= LAST_ID + 1
    ensures forall i :: id <= i < r ==> !(i in files && files[i].key == key)
    ensures r <= LAST_ID ==> r in files && files[r].key == key
    decreases LAST_ID + 1 - id
  {
    if id == LAST_ID + 1 || (id in files && files[id].key == key) then id else IdWithKey(files, key, id + 1)
  }

  function Lookup(files: Files, key: seq<Byte>): int {
    var id := IdWithKey(files, key);
    if id > LAST_ID then -1 else id
  }

  function Create(files: Files, key: seq<Byte>): (Files, int) {
    var id := FreeId(files);
    if id > LAST_ID then (files, -1) else (files[id := File(key, 0, [])], id)
  }

  function Appended(f: File, buff: seq<Byte>): File
    requires |buff| <= BLOCK_SIZE
  {
    File(f.key, f.size + |buff|, f.blocks + [Pad(buff)])
  }

  function Append(files: Files, id: int, buff: seq<Byte>): (Files, int)
    requires |buff| <= BLOCK_SIZE
  {
    if id in files then (files[id := Appended(files[id], buff)], |buff|) else (files, -1)
  }

  /** The blocks of the disk that the files with the `k` smallest ids take up. */
  function BlocksOwned(files: Files, k: nat := SLOTS): nat {
    if k == 0 then 0
    else BlocksOwned(files, k - 1)
         + if k - 1 + FIRST_ID in files then OwnedCount(|files[k - 1 + FIRST_ID].blocks|) else 0
  }

  /** There is room for block `a` of some file. */
  predicate Fits(files: Files, a: nat) {
    BlocksOwned(files) + BlocksNeeded(a) <= DATA_BLOCKS
  }

  /** The bytes of a file from `offset` on, up to the end of its last block. */
  function Read(f: File, offset: nat, size: nat): seq<Byte>
    requires offset + size <= BLOCK_SIZE * |f.blocks|
  {
    seq(size, i requires 0 <= i < size => f.blocks[(offset + i) / BLOCK_SIZE][(offset + i) % BLOCK_SIZE])
  }

  lemma PadStartsWith(buff: seq<Byte>)
    requires |buff| <= BLOCK_SIZE
    ensures forall i :: 0 <= i < |buff| ==> Pad(buff)[i] == buff[i]
  {
  }

  /** Reading back a block that was appended gives the appended bytes and then zeros. */
  lemma ReadAfterAppend(f: File, buff: seq<Byte>)
    requires |buff| <= BLOCK_SIZE
    ensures Read(Appended(f, buff), BLOCK_SIZE * |f.blocks|, |buff|) == buff
    ensures forall i | 0 <= i < BLOCK_SIZE ::
              Read(Appended(f, buff), BLOCK_SIZE * |f.blocks|, BLOCK_SIZE)[i] == if i < |buff| then buff[i] else 0
  {
    hide Pad;
    PadStartsWith(buff);
    var g, n := Appended(f, buff), BLOCK_SIZE * |f.blocks|;
    assert g.blocks[|f.blocks|] == Pad(buff);
    forall i | 0 <= i < BLOCK_SIZE
      ensures Read(g, n, BLOCK_SIZE)[i] == if i < |buff| then buff[i] else 0
    {
      assert (n + i) / BLOCK_SIZE == |f.blocks| && (n + i) % BLOCK_SIZE == i;
      PadIs(buff, i);
    }
    forall i | 0 <= i < |buff|
      ensures Read(g, n, |buff|)[i] == buff[i]
    {
      assert (n + i) / BLOCK_SIZE == |f.blocks| && (n + i) % BLOCK_SIZE == i;
    }
  }

  /** A read is the reads of its parts. */
  lemma ReadSplits(f: File, offset: nat, m: nat, n: nat)
    requires offset + m + n <= BLOCK_SIZE * |f.blocks|
    ensures Read(f, offset, m + n) == Read(f, offset, m) + Read(f, offset + m, n)
  {
  }

  /** An append leaves what was readable before as it was. */
  lemma AppendKeepsEarlierBytes(f: File, buff: seq<Byte>, offset: nat, size: nat)
    requires |buff| <= BLOCK_SIZE && offset + size <= BLOCK_SIZE * |f.blocks|
    ensures Read(Appended(f, buff), offset, size) == Read(f, offset, size)
  {
  }

  lemma IdWithKeyIs(files: Files, key: seq<Byte>, id: int)
    requires FIRST_ID <= id <= LAST_ID + 1
    requires forall i :: FIRST_ID <= i < id ==> !(i in files && files[i].key == key)
    requires id <= LAST_ID ==> id in files && files[id].key == key
    ensures IdWithKey(files, key) == id
  {
  }

  /** After an object with a new key was created, looking the key up gives its id,
      and the answer for every other key is as before. */
  lemma CreateThenLookup(files: Files, key: seq<Byte>, other: seq<Byte>)
    requires Lookup(files, key) == -1 && FreeId(files) <= LAST_ID && other != key
    ensures Lookup(Create(files, key).0, key) == Create(files, key).1
    ensures Lookup(Create(files, key).0, other) == Lookup(files, other)
  {
    var files' := Create(files, key).0;
    IdWithKeyIs(files', key, FreeId(files));
    IdWithKeyIs(files', other, IdWithKey(files, other));
  }
}
