/** The bitmaps of the object store and the first-fit allocator
    `free_data_block` that hands out data blocks from one. */
module Bitmap {

  /** The bits of one 32-bit word, most significant first (see `MaskWords`). */
  type Word = w: seq<bool> | |w| == 32 witness seq(32, _ => false)

  const BITS := 32

  /** Bit `n` of a bitmap, counted from the most significant bit of word 0. */
  predicate Bit(words: seq<Word>, n: nat)
    requires n < BITS * |words|
  {
    words[n / BITS][n % BITS]
  }

  /** The bitmap after `words[i] = words[i] | b`. */
  function Set(words: seq<Word>, n: nat): (r: seq<Word>)
    requires n < BITS * |words|
    ensures |r| == |words|
    ensures forall m | 0 <= m < BITS * |words| :: Bit(r, m) <==> m == n || Bit(words, m)
  {
    words[n / BITS := words[n / BITS][n % BITS := true]]
  }

  /** The first clear bit at or after `n`; the number of bits when there is none. */
  function FirstClear(words: seq<Word>, n: nat := 0): (r: nat)
    requires n <= BITS * |words|
    ensures n <= r <= BITS * |words|
    ensures forall k :: n <= k < r ==> Bit(words, k)
    ensures r < BITS * |words| ==> !Bit(words, r)
    decreases BITS * |words| - n
  {
    if n == BITS * |words| || !Bit(words, n) then n else FirstClear(words, n + 1)
  }

  lemma FirstClearIs(words: seq<Word>, r: nat)
    requires r <= BITS * |words|
    requires forall k :: 0 <= k < r ==> Bit(words, k)
    requires r < BITS * |words| ==> !Bit(words, r)
    ensures FirstClear(words) == r
  {
  }

  predicate HasClear(words: seq<Word>) {
    FirstClear(words) < BITS * |words|
  }

  // ----- free_data_block

  const DATA_BLOCK_OFFSET := 22528 + 287

  /** The result of one call: a block number, or -1 when every bit is set. */
  function BlockFor(words: seq<Word>): int {
    if HasClear(words) then DATA_BLOCK_OFFSET + FirstClear(words) else -1
  }

  /** The bitmap one call leaves behind. */
  function Taken(words: seq<Word>): (r: seq<Word>)
    ensures |r| == |words|
  {
    if HasClear(words) then Set(words, FirstClear(words)) else words
  }

  method FreeDataBlock(data_bitmap: array<Word>) returns (blk: int)
    modifies data_bitmap
    ensures blk == BlockFor(old(data_bitmap[..]))
    ensures data_bitmap[..] == Taken(old(data_bitmap[..]))
  {
    ghost var words := data_bitmap[..];
    var ctr := 0;
    for i := 0 to data_bitmap.Length
      invariant ctr == BITS * i
      invariant data_bitmap[..] == words
      invariant forall k :: 0 <= k < ctr ==> Bit(words, k)
    {
      for j := 0 to BITS
        invariant ctr == BITS * i + j
        invariant data_bitmap[..] == words
        invariant forall k :: 0 <= k < ctr ==> Bit(words, k)
      {
        assert Bit(words, ctr) == data_bitmap[i][j];
        if !data_bitmap[i][j] {
          FirstClearIs(words, ctr);
          data_bitmap[i] := data_bitmap[i][j := true];
          return DATA_BLOCK_OFFSET + ctr;
        }
        ctr := ctr + 1;
      }
    }
    FirstClearIs(words, BITS * |words|);
    return -1;
  }

  /** What one call promises: -1 exactly on a full bitmap, otherwise a block
      that was free, is taken afterwards, and is the only one that changed. */
  lemma OneCallTakesOneFreeBlock(words: seq<Word>)
    ensures BlockFor(words) == -1 <==> forall n | 0 <= n < BITS * |words| :: Bit(words, n)
    ensures BlockFor(words) == -1 ==> Taken(words) == words
    ensures BlockFor(words) != -1 ==>
              var n := BlockFor(words) - DATA_BLOCK_OFFSET;
              && 0 <= n < BITS * |words| && !Bit(words, n)
              && (forall k | 0 <= k < n :: Bit(words, k))
              && forall m | 0 <= m < BITS * |words| :: Bit(Taken(words), m) <==> m == n || Bit(words, m)
  {
    if HasClear(words) {
      assert !Bit(words, FirstClear(words));
    }
  }

  /** The results of `count` calls by any number of threads: the scan and the
      update are one critical section, so an interleaving is an order of calls. */
  function Calls(words: seq<Word>, count: nat): (r: seq<int>)
    ensures |r| == count
    decreases count
  {
    if count == 0 then [] else [BlockFor(words)] + Calls(Taken(words), count - 1)
  }

  lemma {:induction false} CallsTakeFreeBlocks(words: seq<Word>, count: nat, i: nat)
    requires i < count && Calls(words, count)[i] != -1
    ensures var n := Calls(words, count)[i] - DATA_BLOCK_OFFSET;
            0 <= n < BITS * |words| && !Bit(words, n)
    decreases count
  {
    hide BlockFor, Taken, Bit;
    OneCallTakesOneFreeBlock(words);
    if i > 0 {
      CallsTakeFreeBlocks(Taken(words), count - 1, i - 1);
    }
  }

  /** No two successful calls, by whichever threads, get the same block. */
  lemma {:induction false} CallsAreDistinct(words: seq<Word>, count: nat, i: nat, k: nat)
    requires i < k < count
    ensures Calls(words, count)[i] == Calls(words, count)[k] ==> Calls(words, count)[i] == -1
    decreases count
  {
    hide BlockFor, Taken, Bit;
    OneCallTakesOneFreeBlock(words);
    if i > 0 {
      CallsAreDistinct(Taken(words), count - 1, i - 1, k - 1);
    } else if Calls(words, count)[k] != -1 {
      CallsTakeFreeBlocks(Taken(words), count - 1, k - 1);
    }
  }
}
