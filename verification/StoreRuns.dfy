/** Whole runs of the object store: creating, looking up, appending, reading, and
    unmounting and mounting again, with or without the cache. */
module StoreRuns {
  import opened Bitmap
  import opened Blocks
  import opened StoreModel
  import opened StoreImage
  import opened StoreInvariant
  import opened StoreRefinement
  import opened StoreSpace
  import opened ObjStore
  import ObjectMap

  datatype Op =
    | Create(key: seq<Byte>)
    | Lookup(key: seq<Byte>)
    | Append(id: int, buff: seq<Byte>, offset: nat)
    | Read(id: int, size: nat, offset: nat)
    | Remount(cached: bool)

  datatype Answer = Number(n: int) | Bytes(s: seq<Byte>) | Nothing

  // ----- what callers must respect

  /** Keys fit their buffer; an append goes to the end of an object whose blocks
      are full and finds room; a read starts at a block boundary and stays in the
      written blocks. */
  ghost predicate Admissible(fs: FS, op: Op)
    requires Shape(fs)
  {
    match op
    case Create(key) => NoZero(key) && |key| < 32
    case Lookup(key) => true
    case Append(id, buff, offset) =>
      && 1 <= |buff| <= BLOCK_SIZE
      && (HasFile(fs, id) ==>
            && fs.table[id - 2].size == offset && offset % BLOCK_SIZE == 0
            && offset / BLOCK_SIZE < MAX_BLOCKS && HasRoom(fs, offset / BLOCK_SIZE))
    case Read(id, size, offset) =>
      HasFile(fs, id) && offset % BLOCK_SIZE == 0 && offset + size <= BLOCK_SIZE * Count(fs, id - 2)
    case Remount(cached) => true
  }

  /** The same in terms of the files alone. */
  ghost predicate MapAdmissible(files: ObjectMap.Files, op: Op) {
    match op
    case Create(key) => NoZero(key) && |key| < 32
    case Lookup(key) => true
    case Append(id, buff, offset) =>
      && 1 <= |buff| <= BLOCK_SIZE
      && (id in files ==>
            && files[id].size == offset && offset % BLOCK_SIZE == 0
            && offset / BLOCK_SIZE < MAX_BLOCKS && ObjectMap.Fits(files, offset / BLOCK_SIZE))
    case Read(id, size, offset) =>
      id in files && offset % BLOCK_SIZE == 0 && offset + size <= BLOCK_SIZE * |files[id].blocks|
    case Remount(cached) => true
  }

  lemma AdmissibleIff(fs: FS, op: Op)
    requires Inv(fs)
    ensures Admissible(fs, op) <==> MapAdmissible(FilesOf(fs), op)
  {
    hide UsedAreTaken, UsedAreDistinct, TakenAreUsed, UnusedAreZero, HasRoom, ObjectMap.Fits;
    if op.Append? {
      HasRoomIff(fs, op.offset / BLOCK_SIZE);
    }
  }

  lemma AdmissibleIsDefined(fs: FS, op: Op)
    requires Inv(fs) && Admissible(fs, op)
    ensures op.Append? ==> WriteObjectDefined(fs, op.id, |op.buff|, op.offset)
    ensures op.Append? && HasFile(fs, op.id) ==> InOrder(fs, op.id - 2, |op.buff|, op.offset / BLOCK_SIZE)
    ensures op.Read? ==> ReadDefined(fs, op.id, op.size, op.offset)
  {
    hide UsedAreTaken, UsedAreDistinct, TakenAreUsed, UnusedAreZero, SlotWithId, HasClear, BlockReadable;
    match op
    case Append(id, buff, offset) =>
      FindTargetIsIndexing(fs, id);
      if HasFile(fs, id) {
        InOrderIsDefined(fs, id - 2, |buff|, offset / BLOCK_SIZE);
      }
    case Read(id, size, offset) =>
      FindTargetIsIndexing(fs, id);
      var s := id - 2;
      assert SlotOk(fs, s);
      forall a: nat | offset / BLOCK_SIZE <= a < offset / BLOCK_SIZE + BlocksFor(size)
        ensures BlockReadable(fs, s, a)
      {
        WrittenBlockIsReadable(fs, s, a);
      }
    case _ =>
  }

  lemma WrittenBlockIsReadable(fs: FS, s: nat, a: nat)
    requires Inv(fs) && s < SLOTS && a < Count(fs, s)
    ensures BlockReadable(fs, s, a)
  {
    assert SlotOk(fs, s);
    assert UsedRef(fs, s, RefOf(a));
    assert IsTaken(fs.dbits, LocOf(fs, s, RefOf(a)));
    if DIRECT <= a {
      assert UsedRef(fs, s, 4 + TableOf(a));
      assert IsTaken(fs.dbits, LocOf(fs, s, 4 + TableOf(a)));
    }
  }

  // ----- one operation of the store and of the map

  ghost function Step(fs: FS, op: Op): (FS, Answer)
    requires Inv(fs) && Admissible(fs, op)
  {
    AdmissibleIsDefined(fs, op);
    match op
    case Create(key) =>
      var (fs', n) := CreateObject(fs, key); (fs', Number(n))
    case Lookup(key) =>
      (fs, Number(FindObjectId(fs, key)))
    case Append(id, buff, offset) =>
      var (fs', n) := WriteObject(fs, id, buff, offset); (fs', Number(n))
    case Read(id, size, offset) =>
      (fs, Bytes(ReadObject(fs, id, size, offset)))
    case Remount(cached) =>
      (fs, Nothing)
  }

  ghost function MapStep(files: ObjectMap.Files, op: Op): (ObjectMap.Files, Answer)
    requires MapAdmissible(files, op)
  {
    match op
    case Create(key) =>
      var (files', n) := ObjectMap.Create(files, key); (files', Number(n))
    case Lookup(key) =>
      (files, Number(ObjectMap.Lookup(files, key)))
    case Append(id, buff, offset) =>
      var (files', n) := ObjectMap.Append(files, id, buff); (files', Number(n))
    case Read(id, size, offset) =>
      (files, Bytes(ObjectMap.Read(files[id], offset, size)))
    case Remount(cached) =>
      (files, Nothing)
  }

  lemma AppendRefines(fs: FS, op: Op)
    requires Inv(fs) && Admissible(fs, op) && op.Append?
    ensures Inv(Step(fs, op).0)
    ensures MapAdmissible(FilesOf(fs), op)
    ensures (FilesOf(Step(fs, op).0), Step(fs, op).1) == MapStep(FilesOf(fs), op)
  {
    AdmissibleIff(fs, op);
    AdmissibleIsDefined(fs, op);
    FindTargetIsIndexing(fs, op.id);
    if HasFile(fs, op.id) {
      WriteRefines(fs, op.id - 2, op.buff, op.offset / BLOCK_SIZE);
    }
  }

  lemma StepRefines(fs: FS, op: Op)
    requires Inv(fs) && Admissible(fs, op)
    ensures Inv(Step(fs, op).0) && MapAdmissible(FilesOf(fs), op)
    ensures (FilesOf(Step(fs, op).0), Step(fs, op).1) == MapStep(FilesOf(fs), op)
  {
    AdmissibleIff(fs, op);
    match op
    case Create(key) => CreateObjectRefines(fs, key);
    case Lookup(key) => FindObjectIdRefines(fs, key);
    case Append(id, buff, offset) => AppendRefines(fs, op);
    case Read(id, size, offset) =>
      AdmissibleIsDefined(fs, op);
      FindTargetIsIndexing(fs, id);
      ReadRefines(fs, id - 2, offset / BLOCK_SIZE, size);
    case Remount(cached) =>
  }

  /** The files and the answer that the next operation gives, said of the files
      before it. */
  ghost predicate Means(files: ObjectMap.Files, op: Op, files': ObjectMap.Files, answer: Answer) {
    match op
    case Create(key) =>
      if forall id | 2 <= id <= SLOTS + 1 :: id in files then answer == Number(-1) && files' == files
      else
        && answer.Number? && 2 <= answer.n <= SLOTS + 1 && answer.n !in files
        && (forall id | 2 <= id < answer.n :: id in files)
        && files' == files[answer.n := ObjectMap.File(key, 0, [])]
    case Lookup(key) =>
      && files' == files && answer.Number?
      && if forall id | id in files :: files[id].key != key then answer.n == -1
         else answer.n in files && files[answer.n].key == key
              && forall id | id in files && id < answer.n :: files[id].key != key
    case Append(id, buff, offset) =>
      if id !in files then answer == Number(-1) && files' == files
      else
        && answer == Number(|buff|) && id in files' && files' == files[id := files'[id]]
        && files'[id].key == files[id].key && files'[id].size == files[id].size + |buff|
        && |files'[id].blocks| == |files[id].blocks| + 1 && files'[id].blocks[..|files[id].blocks|] == files[id].blocks
        && forall i | 0 <= i < BLOCK_SIZE ::
             files'[id].blocks[|files[id].blocks|][i] == if i < |buff| then buff[i] else 0
    case Read(id, size, offset) =>
      && files' == files && answer.Bytes? && |answer.s| == size && id in files
      && offset + size <= 4096 * |files[id].blocks|
      && forall i | 0 <= i < size :: answer.s[i] == files[id].blocks[(offset + i) / 4096][(offset + i) % 4096]
    case Remount(cached) =>
      files' == files && answer == Nothing
  }

  /** What every admissible operation does to a store that satisfies the invariant. */
  lemma StepMeans(fs: FS, op: Op)
    requires Inv(fs) && Admissible(fs, op)
    ensures Inv(Step(fs, op).0) && Means(FilesOf(fs), op, FilesOf(Step(fs, op).0), Step(fs, op).1)
  {
    hide UsedAreTaken, UsedAreDistinct, TakenAreUsed, UnusedAreZero, Step, MapStep, FilesOf, Means;
    StepRefines(fs, op);
    FilesAreInRange(fs);
    MapStepMeans(FilesOf(fs), op);
  }

  lemma FilesAreInRange(fs: FS)
    requires Inv(fs)
    ensures forall id | id in FilesOf(fs) :: 2 <= id <= SLOTS + 1
  {
  }

  lemma MapStepMeans(files: ObjectMap.Files, op: Op)
    requires MapAdmissible(files, op) && forall id | id in files :: 2 <= id <= SLOTS + 1
    ensures Means(files, op, MapStep(files, op).0, MapStep(files, op).1)
  {
    hide ObjectMap.FreeId, ObjectMap.IdWithKey, ObjectMap.Fits;
    if op.Append? && op.id in files {
      forall i: nat | i < BLOCK_SIZE
        ensures Pad(op.buff)[i] == if i < |op.buff| then op.buff[i] else 0
      {
        PadIs(op.buff, i);
      }
    }
  }

  // ----- runs

  ghost predicate AllAdmissible(fs: FS, ops: seq<Op>)
    requires Inv(fs)
    decreases ops
  {
    ops == [] || (Admissible(fs, ops[0]) && (StepRefines(fs, ops[0]); AllAdmissible(Step(fs, ops[0]).0, ops[1..])))
  }

  ghost function Run(fs: FS, ops: seq<Op>): (FS, seq<Answer>)
    requires Inv(fs) && AllAdmissible(fs, ops)
    decreases ops
  {
    if ops == [] then (fs, [])
    else
      StepRefines(fs, ops[0]);
      var (fs', answer) := Step(fs, ops[0]);
      var (fs'', answers) := Run(fs', ops[1..]);
      (fs'', [answer] + answers)
  }

  ghost predicate AllMapAdmissible(files: ObjectMap.Files, ops: seq<Op>)
    decreases ops
  {
    ops == [] || (MapAdmissible(files, ops[0]) && AllMapAdmissible(MapStep(files, ops[0]).0, ops[1..]))
  }

  ghost function MapRun(files: ObjectMap.Files, ops: seq<Op>): (ObjectMap.Files, seq<Answer>)
    requires AllMapAdmissible(files, ops)
    decreases ops
  {
    if ops == [] then (files, [])
    else
      var (files', answer) := MapStep(files, ops[0]);
      var (files'', answers) := MapRun(files', ops[1..]);
      (files'', [answer] + answers)
  }

  /** A run is admissible for the store exactly if it is for the files. */
  lemma {:induction false} RunAdmissibleIff(fs: FS, ops: seq<Op>)
    requires Inv(fs)
    ensures AllAdmissible(fs, ops) <==> AllMapAdmissible(FilesOf(fs), ops)
    decreases ops
  {
    hide UsedAreTaken, UsedAreDistinct, TakenAreUsed, UnusedAreZero, Admissible, MapAdmissible, Step, MapStep;
    if ops != [] {
      AdmissibleIff(fs, ops[0]);
      if Admissible(fs, ops[0]) {
        StepRefines(fs, ops[0]);
        RunAdmissibleIff(Step(fs, ops[0]).0, ops[1..]);
      }
    }
  }

  /** Over every run the store answers as a map from ids to files does, and the
      ownership invariant holds at the end. What a run may do is said of the files. */
  lemma {:induction false} RunRefines(fs: FS, ops: seq<Op>)
    requires Inv(fs) && AllMapAdmissible(FilesOf(fs), ops)
    ensures AllAdmissible(fs, ops) && Inv(Run(fs, ops).0)
    ensures (FilesOf(Run(fs, ops).0), Run(fs, ops).1) == MapRun(FilesOf(fs), ops)
    decreases ops
  {
    RunAdmissibleIff(fs, ops);
    if ops != [] {
      StepRefines(fs, ops[0]);
      RunRefines(Step(fs, ops[0]).0, ops[1..]);
    }
  }

  // ----- the empty disk

  lemma ZeroBlockInode(m: nat)
    requires m < INODES_PER_BLOCK
    ensures SavedInode(ZeroBlock(), m) == ZeroInode()
  {
    var bytes := ZeroBlock()[INODE_SIZE * m..INODE_SIZE * m + INODE_SIZE];
    ZeroInodeIsZeroBytes();
    assert bytes == InodeBytes(ZeroInode());
    InodeRoundTrip(ZeroInode());
  }

  ghost predicate IsEmpty(fs: FS)
    requires Shape(fs)
  {
    && (forall s | 0 <= s < SLOTS :: !Bit(fs.ibits, s) && fs.table[s] == ZeroInode())
    && (forall n | 0 <= n < BITS * DBIT_WORDS :: !Bit(fs.dbits, n))
  }

  lemma EmptyStoreIsValid(fs: FS)
    requires Shape(fs) && IsEmpty(fs)
    ensures Inv(fs) && FilesOf(fs) == map[]
  {
    forall s: nat, r: nat | InShape(fs, s, r)
      ensures !UsedRef(fs, s, r)
      ensures TableUsed(fs, s, r) ==> LocOf(fs, s, r) == 0
    {
      assert fs.table[s] == ZeroInode();
      assert !UsedRef(fs, s, r) && !UsedRef(fs, s, 4 + (r - 8) / INTS);
    }
    assert forall id :: !HasFile(fs, id);
  }

  /** Mounting a zeroed disk gives a store that satisfies the invariant and holds
      no files. */
  lemma ZeroDiskIsEmpty(disk: seq<Block>)
    requires |disk| == DISK_BLOCKS && forall b :: 0 <= b < DISK_BLOCKS ==> disk[b] == ZeroBlock()
    ensures Inv(MountState(disk)) && FilesOf(MountState(disk)) == map[]
  {
    ZeroDiskBits(disk, 0, INODE_BITMAP_SIZE);
    ZeroDiskBits(disk, DATA_BITMAP_OFFSET, DATA_BITMAP_SIZE);
    forall s | 0 <= s < SLOTS
      ensures MountState(disk).table[s] == ZeroInode()
    {
      assert disk[INODE_BLOCK_OFFSET + s / INODES_PER_BLOCK] == ZeroBlock();
      ZeroBlockInode(s % INODES_PER_BLOCK);
    }
    EmptyStoreIsValid(MountState(disk));
  }

  // ----- an object of any size can be made

  /** Appends of the full block `buff`, from block `i` on up to block `n`. */
  function Appends(buff: Block, i: nat, n: nat): seq<Op>
    requires i <= n
    decreases n - i
  {
    if i == n then [] else [Append(ObjectMap.FIRST_ID, buff, BLOCK_SIZE * i)] + Appends(buff, i + 1, n)
  }

  function OneFile(f: ObjectMap.File): ObjectMap.Files {
    map[ObjectMap.FIRST_ID := f]
  }

  lemma {:induction false} OneFileOwns(f: ObjectMap.File, k: nat)
    requires k > 0
    ensures ObjectMap.BlocksOwned(OneFile(f), k) == OwnedCount(|f.blocks|)
    decreases k
  {
    if k > 1 {
      OneFileOwns(f, k - 1);
    } else {
      assert ObjectMap.BlocksOwned(OneFile(f), 0) == 0;
    }
  }

  lemma {:induction false} AppendsRun(f: ObjectMap.File, buff: Block, i: nat, n: nat)
    requires i <= n <= MAX_BLOCKS && f.size == BLOCK_SIZE * i && |f.blocks| == i
    ensures AllMapAdmissible(OneFile(f), Appends(buff, i, n))
    ensures var files := MapRun(OneFile(f), Appends(buff, i, n)).0;
            exists g: ObjectMap.File :: files == OneFile(g) && g.key == f.key && g.size == BLOCK_SIZE * n && |g.blocks| == n
    decreases n - i
  {
    if i < n {
      OneFileOwns(f, SLOTS);
      var op, g := Append(ObjectMap.FIRST_ID, buff, BLOCK_SIZE * i), ObjectMap.Appended(f, buff);
      assert BLOCK_SIZE * i / BLOCK_SIZE == i;
      assert MapAdmissible(OneFile(f), op) && MapStep(OneFile(f), op).0 == OneFile(g);
      AppendsRun(g, buff, i + 1, n);
      assert Appends(buff, i, n)[0] == op && Appends(buff, i, n)[1..] == Appends(buff, i + 1, n);
    } else {
      assert OneFile(f) == MapRun(OneFile(f), []).0;
    }
  }

  /** From a store without files, as a zeroed disk mounts (`ZeroDiskIsEmpty`), a
      create and `n` full appends, up to 4100, are a run, and lead to a store that
      satisfies the invariant and has room for another block. */
  lemma FullObjectIsReachable(fs: FS, key: seq<Byte>, buff: Block, n: nat)
    requires Inv(fs) && FilesOf(fs) == map[]
    requires NoZero(key) && |key| < 32 && n <= MAX_BLOCKS
    ensures AllAdmissible(fs, [Create(key)] + Appends(buff, 0, n))
    ensures AtEnd(Run(fs, [Create(key)] + Appends(buff, 0, n)).0, 0, BLOCK_SIZE, n)
  {
    hide UsedAreTaken, UsedAreDistinct, TakenAreUsed, UnusedAreZero;
    var ops := [Create(key)] + Appends(buff, 0, n);
    var f := ObjectMap.File(key, 0, []);
    AppendsRun(f, buff, 0, n);
    assert ops[0] == Create(key) && ops[1..] == Appends(buff, 0, n);
    assert MapStep(map[], Create(key)).0 == OneFile(f);
    RunRefines(fs, ops);
    var last := Run(fs, ops).0;
    var g: ObjectMap.File :| FilesOf(last) == OneFile(g) && g.size == BLOCK_SIZE * n && |g.blocks| == n;
    OneFileIsAtEnd(last, g, n);
  }

  lemma OneFileIsAtEnd(fs: FS, g: ObjectMap.File, n: nat)
    requires Inv(fs) && FilesOf(fs) == OneFile(g) && g.size == BLOCK_SIZE * n && |g.blocks| == n && n <= MAX_BLOCKS
    ensures AtEnd(fs, 0, BLOCK_SIZE, n)
  {
    assert ObjectMap.FIRST_ID in FilesOf(fs);
    OneFileOwns(g, SLOTS);
    HasRoomIff(fs, n);
  }

  lemma ZeroDiskBits(disk: seq<Block>, lo: nat, count: nat)
    requires lo + count <= |disk| && forall b :: 0 <= b < |disk| ==> disk[b] == ZeroBlock()
    ensures forall n | 0 <= n < BITS * INTS * count :: !Bit(SavedWords(disk, lo, count), n)
  {
    forall n | 0 <= n < BITS * INTS * count
      ensures !Bit(SavedWords(disk, lo, count), n)
    {
      ZeroBlockHoldsClearWords(n / BITS % INTS, n % BITS);
    }
  }

  // ----- the methods of the store, run

  /** Executing a run on the store itself, in place, gives the run's state and
      answers, whether blocks go through the cache or not. */
  method RunStore(store: ObjectStore, ops: seq<Op>) returns (last: ObjectStore, answers: seq<Answer>)
    requires store.Valid() && Inv(store.State()) && AllAdmissible(store.State(), ops)
    modifies store.Memory(), store.dev.disk
    ensures last.Valid() && last.dev.disk == store.dev.disk && (last == store || fresh(last.Memory()))
    ensures (last.State(), answers) == Run(old(store.State()), ops)
    decreases |ops|
  {
    if ops == [] {
      return store, [];
    }
    StepRefines(store.State(), ops[0]);
    var next, answer := StepStore(store, ops[0]);
    var rest;
    last, rest := RunStore(next, ops[1..]);
    answers := [answer] + rest;
  }

  method StepStore(store: ObjectStore, op: Op) returns (last: ObjectStore, answer: Answer)
    requires store.Valid() && Inv(store.State()) && Admissible(store.State(), op)
    modifies store.Memory(), store.dev.disk
    ensures last.Valid() && last.dev.disk == store.dev.disk && (last == store || fresh(last.Memory()))
    ensures (last.State(), answer) == Step(old(store.State()), op)
  {
    AdmissibleIsDefined(store.State(), op);
    last := store;
    match op
    case Create(key) =>
      var n := store.CreateObject(key);
      answer := Number(n);
    case Lookup(key) =>
      var n := store.FindObjectId(key);
      answer := Number(n);
    case Append(id, buff, offset) =>
      var n := store.Write(id, buff, offset);
      answer := Number(n);
    case Read(id, size, offset) =>
      var s := store.Read(id, size, offset);
      answer := Bytes(s);
    case Remount(cached) =>
      last := RemountStore(store, cached);
      answer := Nothing;
  }

  /** Unmount then mount is the identity, in the same build or in the other one. */
  method RemountStore(store: ObjectStore, cached: bool) returns (last: ObjectStore)
    requires store.Valid()
    modifies store.dev.disk
    ensures last.Valid() && last.dev.disk == store.dev.disk && last.dev.cached == cached && fresh(last.Memory())
    ensures last.State() == old(store.State())
  {
    store.Unmount();
    last := new ObjectStore.Mount(store.dev.disk, cached);
  }

  /** The build with the cache and the build without it, started from the same
      disk contents, give the same answers to every run: those of the map. */
  method BothBuilds(disk: array<Block>, disk': array<Block>, ops: seq<Op>)
    returns (answers: seq<Answer>, answers': seq<Answer>)
    requires disk != disk' && disk.Length == DISK_BLOCKS && disk[..] == disk'[..]
    requires Inv(MountState(disk[..])) && AllMapAdmissible(FilesOf(MountState(disk[..])), ops)
    modifies disk, disk'
    ensures answers == answers' == MapRun(FilesOf(MountState(old(disk[..]))), ops).1
  {
    ghost var fs := MountState(disk[..]);
    RunRefines(fs, ops);
    var plain := new ObjectStore.Mount(disk, false);
    assert plain.State() == fs;
    plain, answers := RunStore(plain, ops);
    var cached := new ObjectStore.Mount(disk', true);
    assert cached.State() == fs;
    cached, answers' := RunStore(cached, ops);
  }
}
