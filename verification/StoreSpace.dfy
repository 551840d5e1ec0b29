/** How much room the files leave: the blocks that the bitmap counts as taken are
    as many as the sizes of the files say. */
module StoreSpace {
  import opened Bitmap
  import opened Blocks
  import opened StoreModel
  import opened StoreInvariant
  import opened StoreRefinement
  import opened ObjectMap

  // ----- the size of the free space

  function Range(lo: nat, hi: nat): (r: set<nat>)
    requires lo <= hi
    ensures forall b :: b in r <==> lo <= b < hi
    ensures |r| == hi - lo
    decreases hi
  {
    if lo == hi then {} else Range(lo, hi - 1) + {hi - 1}
  }

  lemma DisjointSize(a: set<nat>, b: set<nat>)
    requires a !! b
    ensures |a + b| == |a| + |b|
  {
  }

  lemma SubsetSize(a: set<nat>, b: set<nat>)
    requires a <= b
    ensures |a| <= |b| && (|a| == |b| ==> a == b)
  {
    assert b == a + (b - a);
  }

  ghost function TakenBlocks(dbits: seq<Word>): set<nat>
    requires |dbits| == DBIT_WORDS
  {
    set b: nat | DATA_START <= b < DISK_BLOCKS && IsTaken(dbits, b)
  }

  lemma HasClearIff(dbits: seq<Word>)
    requires |dbits| == DBIT_WORDS
    ensures HasClear(dbits) <==> |TakenBlocks(dbits)| < DATA_BLOCKS
  {
    hide BlockFor, Taken, Bit;
    var all := Range(DATA_START, DISK_BLOCKS);
    SubsetSize(TakenBlocks(dbits), all);
    if HasClear(dbits) {
      FreshBlock(dbits);
      assert BlockFor(dbits) in all && BlockFor(dbits) !in TakenBlocks(dbits);
    } else {
      FullMeansTaken(dbits);
      assert TakenBlocks(dbits) == all;
    }
  }

  lemma FullMeansTaken(dbits: seq<Word>)
    requires |dbits| == DBIT_WORDS && !HasClear(dbits)
    ensures forall b: nat | DATA_START <= b < DISK_BLOCKS :: IsTaken(dbits, b)
  {
    OneCallTakesOneFreeBlock(dbits);
  }

  lemma TakingAddsOne(dbits: seq<Word>)
    requires |dbits| == DBIT_WORDS && HasClear(dbits)
    ensures |TakenBlocks(Taken(dbits))| == |TakenBlocks(dbits)| + 1
  {
    hide BlockFor, Taken, Bit;
    FreshBlock(dbits);
    assert TakenBlocks(Taken(dbits)) == TakenBlocks(dbits) + {BlockFor(dbits)};
  }

  lemma HasRoomIffFewTaken(fs: FS, a: nat)
    requires Shape(fs)
    ensures HasRoom(fs, a) <==> |TakenBlocks(fs.dbits)| + BlocksNeeded(a) <= DATA_BLOCKS
  {
    hide HasClear, Taken;
    HasClearIff(fs.dbits);
    if HasClear(fs.dbits) {
      TakingAddsOne(fs.dbits);
      HasClearIff(Taken(fs.dbits));
    }
  }

  // ----- the blocks of all files

  ghost function OwnedUpTo(fs: FS, k: nat): set<nat>
    requires Shape(fs) && k <= SLOTS
    decreases k
  {
    if k == 0 then {} else OwnedUpTo(fs, k - 1) + OwnedBlocks(fs, k - 1)
  }

  lemma {:induction false} OwnedUpToHolds(fs: FS, k: nat, b: nat)
    requires Shape(fs) && k <= SLOTS
    ensures b in OwnedUpTo(fs, k) <==> exists s: nat :: s < k && b in OwnedBlocks(fs, s)
    decreases k
  {
    hide OwnedBlocks;
    if k > 0 {
      OwnedUpToHolds(fs, k - 1, b);
    }
  }

  lemma OwnersAreApart(fs: FS, k: nat)
    requires Inv(fs) && k < SLOTS
    ensures OwnedUpTo(fs, k) !! OwnedBlocks(fs, k)
  {
    hide OwnedBlocks, OwnedUpTo;
    forall b | b in OwnedUpTo(fs, k)
      ensures b !in OwnedBlocks(fs, k)
    {
      OwnedUpToHolds(fs, k, b);
      OwnersShareNoBlock(fs, b);
    }
  }

  lemma OwnedByFile(fs: FS, s: nat)
    requires Inv(fs) && s < SLOTS
    ensures |OwnedBlocks(fs, s)| == if s + FIRST_ID in FilesOf(fs) then OwnedCount(|FilesOf(fs)[s + FIRST_ID].blocks|) else 0
  {
    hide OwnedBlocks;
    assert SlotOk(fs, s);
    OwnedBlocksCount(fs, s);
    assert HasFile(fs, s + FIRST_ID) <==> Live(fs, s);
  }

  lemma {:induction false} OwnedUpToCount(fs: FS, k: nat)
    requires Inv(fs) && k <= SLOTS
    ensures |OwnedUpTo(fs, k)| == BlocksOwned(FilesOf(fs), k)
    decreases k
  {
    hide UsedAreTaken, UsedAreDistinct, TakenAreUsed, UnusedAreZero, SlotOk, OwnedBlocks, FilesOf, OwnedCount;
    if k > 0 {
      OwnedUpToCount(fs, k - 1);
      OwnersAreApart(fs, k - 1);
      OwnedByFile(fs, k - 1);
      DisjointSize(OwnedUpTo(fs, k - 1), OwnedBlocks(fs, k - 1));
    }
  }

  /** As many blocks are taken as the files own. */
  lemma TakenIsOwned(fs: FS)
    requires Inv(fs)
    ensures |TakenBlocks(fs.dbits)| == BlocksOwned(FilesOf(fs))
  {
    hide OwnedBlocks, OwnedUpTo, FilesOf;
    forall b
      ensures b in TakenBlocks(fs.dbits) <==> b in OwnedUpTo(fs, SLOTS)
    {
      OwnedUpToHolds(fs, SLOTS, b);
      OwnersShareNoBlock(fs, b);
    }
    assert TakenBlocks(fs.dbits) == OwnedUpTo(fs, SLOTS);
    OwnedUpToCount(fs, SLOTS);
  }

  /** A write finds its blocks exactly if the sizes of the files leave that many. */
  lemma HasRoomIff(fs: FS, a: nat)
    requires Inv(fs)
    ensures HasRoom(fs, a) <==> Fits(FilesOf(fs), a)
  {
    hide HasRoom, FilesOf;
    TakenIsOwned(fs);
    HasRoomIffFewTaken(fs, a);
  }
}
