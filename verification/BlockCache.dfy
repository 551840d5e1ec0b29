/** The block device with its direct-mapped write-back cache. Block `b` may be
    held only by line `b % CACHE_BLKS`; `index` holds the line's tag
    `b / CACHE_BLKS` or -1. With `cached` false the same calls go to the disk,
    as in the build without the cache. */
module BlockCache {
  import opened Bitmap
  import opened Blocks

  const CACHE_BLKS := 32768

  /** The contents of block `b` as a reader of the device sees it. */
  function ViewAt(disk: seq<Block>, lines: seq<Block>, index: seq<int>, b: nat): Block
    requires |lines| == |index| == CACHE_BLKS && b < |disk|
  {
    if index[b % CACHE_BLKS] == b / CACHE_BLKS then lines[b % CACHE_BLKS] else disk[b]
  }

  function ViewOf(disk: seq<Block>, lines: seq<Block>, index: seq<int>): (r: seq<Block>)
    requires |lines| == |index| == CACHE_BLKS
    ensures |r| == |disk|
  {
    seq(|disk|, b requires 0 <= b < |disk| => ViewAt(disk, lines, index, b))
  }

  lemma ViewOfBlock(disk: seq<Block>, lines: seq<Block>, index: seq<int>, b: nat)
    requires |lines| == |index| == CACHE_BLKS && b < |disk|
    ensures ViewOf(disk, lines, index)[b] == ViewAt(disk, lines, index, b)
  {
  }

  /** An empty line is not dirty; a line that is not dirty holds what the disk holds. */
  ghost predicate LineOk(disk: seq<Block>, lines: seq<Block>, index: seq<int>, dirty: seq<int>, low: nat, s: nat)
    requires |lines| == |index| == |dirty| == CACHE_BLKS && s < CACHE_BLKS
  {
    if index[s] == -1 then
      dirty[s] != 1
    else
      && 0 <= index[s] && low <= CACHE_BLKS * index[s] + s < |disk|
      && (dirty[s] != 1 ==> lines[s] == disk[CACHE_BLKS * index[s] + s])
  }

  /** The view of a block differs from the disk only where a dirty line holds it. */
  lemma ViewOfLine(disk: seq<Block>, lines: seq<Block>, index: seq<int>, dirty: seq<int>, low: nat, b: nat)
    requires |lines| == |index| == |dirty| == CACHE_BLKS && b < |disk| && LineOk(disk, lines, index, dirty, low, b % CACHE_BLKS)
    ensures var s := b % CACHE_BLKS;
            ViewAt(disk, lines, index, b) == if dirty[s] == 1 && b == CACHE_BLKS * index[s] + s then lines[s] else disk[b]
  {
  }

  /** The disk after line `s` made room for block `blk`. */
  ghost function Evicted(disk: seq<Block>, lines: seq<Block>, index: seq<int>, dirty: seq<int>, s: nat, blk: nat): (r: seq<Block>)
    requires |lines| == |index| == |dirty| == CACHE_BLKS && s < CACHE_BLKS
    requires LineOk(disk, lines, index, dirty, 0, s)
    ensures |r| == |disk|
  {
    if index[s] != -1 && index[s] != blk / CACHE_BLKS && dirty[s] == 1 then disk[CACHE_BLKS * index[s] + s := lines[s]] else disk
  }

  lemma EvictionStaysAbove(disk: seq<Block>, lines: seq<Block>, index: seq<int>, dirty: seq<int>, low: nat, s: nat, blk: nat)
    requires |lines| == |index| == |dirty| == CACHE_BLKS && s < CACHE_BLKS && low <= |disk|
    requires LineOk(disk, lines, index, dirty, 0, s) && LineOk(disk, lines, index, dirty, low, s)
    ensures Evicted(disk, lines, index, dirty, s, blk)[..low] == disk[..low]
  {
  }

  /** Loading `temp` as block `blk` into its line changes the view of that block
      only ... */
  lemma LoadChangesOneView(disk: seq<Block>, lines: seq<Block>, index: seq<int>, dirty: seq<int>, blk: nat, temp: Block, b: nat)
    requires |lines| == |index| == |dirty| == CACHE_BLKS && blk < |disk| && b < |disk|
    requires LineOk(disk, lines, index, dirty, 0, blk % CACHE_BLKS)
    ensures var s := blk % CACHE_BLKS;
            ViewAt(Evicted(disk, lines, index, dirty, s, blk), lines[s := temp], index[s := blk / CACHE_BLKS], b)
            == if b == blk then temp else ViewAt(disk, lines, index, b)
  {
  }

  /** ... and leaves every line as good as it was, and its own one good if it is
      marked dirty or holds what the disk holds. */
  lemma LoadKeepsLine(disk: seq<Block>, lines: seq<Block>, index: seq<int>, dirty: seq<int>, dirty': seq<int>,
                      low: nat, blk: nat, temp: Block, t: nat)
    requires |lines| == |index| == |dirty| == |dirty'| == CACHE_BLKS && low <= blk < |disk| && t < CACHE_BLKS
    requires LineOk(disk, lines, index, dirty, low, blk % CACHE_BLKS) && LineOk(disk, lines, index, dirty, low, t)
    requires if t == blk % CACHE_BLKS then dirty'[t] == 1 || temp == disk[blk] else dirty'[t] == dirty[t]
    ensures LineOk(disk, lines, index, dirty, 0, blk % CACHE_BLKS)
    ensures var s := blk % CACHE_BLKS;
            LineOk(Evicted(disk, lines, index, dirty, s, blk), lines[s := temp], index[s := blk / CACHE_BLKS], dirty', low, t)
  {
  }

  class BlockDevice {
    const cached: bool
    const disk: array<Block>
    const lines: array<Block>
    const index: array<int>
    const dirty: array<int>
    /** The device is asked only for blocks at or after this one. */
    ghost const low: nat

    ghost predicate Shape()
    {
      && disk != lines && index != dirty
      && lines.Length == index.Length == dirty.Length == CACHE_BLKS
      && low <= disk.Length
    }

    ghost predicate LineValid(s: nat)
      requires Shape() && s < CACHE_BLKS
      reads disk, lines, index, dirty
    {
      LineOk(disk[..], lines[..], index[..], dirty[..], low, s) && (index[s] != -1 ==> cached)
    }

    ghost predicate Valid()
      reads disk, lines, index, dirty
    {
      Shape() && forall s :: 0 <= s < CACHE_BLKS ==> LineValid(s)
    }

    ghost function View(): (r: seq<Block>)
      requires Valid()
      reads disk, lines, index, dirty
      ensures |r| == disk.Length
    {
      ViewOf(disk[..], lines[..], index[..])
    }

    constructor (disk: array<Block>, cached: bool, ghost low: nat)
      requires low <= disk.Length
      ensures Valid() && View() == disk[..]
      ensures this.disk == disk && this.cached == cached && this.low == low
      ensures fresh(lines) && fresh(index) && fresh(dirty)
    {
      this.disk := disk;
      this.cached := cached;
      this.low := low;
      lines := new Block[CACHE_BLKS];
      index := new int[CACHE_BLKS];
      dirty := new int[CACHE_BLKS];
      new;
      for i := 0 to CACHE_BLKS
        invariant forall k :: 0 <= k < i ==> index[k] == -1
      {
        index[i] := -1;
      }
      for i := 0 to CACHE_BLKS
        invariant forall k :: 0 <= k < CACHE_BLKS ==> index[k] == -1
        invariant forall k :: 0 <= k < i ==> dirty[k] == 0
      {
        dirty[i] := 0;
      }
    }

    /** A read returns the view of its block and changes no view, whatever line
        it evicts and although the dirty flag of an evicted line stays set. */
    method Read(blk: nat) returns (temp: Block)
      requires Valid() && low <= blk < disk.Length
      modifies disk, lines, index
      ensures Valid() && View() == old(View()) && disk[..low] == old(disk[..low])
      ensures temp == View()[blk]
    {
      hide ViewOf;
      var s := blk % CACHE_BLKS;
      ViewOfBlock(disk[..], lines[..], index[..], blk);
      assert LineValid(s);
      if !cached {
        temp := disk[blk];
        return;
      }
      if index[s] == -1 {
        index[s] := blk / CACHE_BLKS;
        lines[s] := disk[blk];
      } else if index[s] != blk / CACHE_BLKS {
        if dirty[s] == 1 {
          var old_blk := CACHE_BLKS * index[s] + s;
          disk[old_blk] := lines[s];
          lines[s] := disk[blk];
        } else {
          lines[s] := disk[blk];
        }
        index[s] := blk / CACHE_BLKS;
      }
      temp := lines[s];
      Loaded(blk);
    }

    /** A write changes the view of its block and of no other block. */
    method Write(blk: nat, temp: Block)
      requires Valid() && low <= blk < disk.Length
      modifies disk, lines, index, dirty
      ensures Valid() && View() == old(View())[blk := temp] && disk[..low] == old(disk[..low])
    {
      hide ViewOf;
      var s := blk % CACHE_BLKS;
      assert LineValid(s);
      if !cached {
        disk[blk] := temp;
        WrittenThrough(blk);
        return;
      }
      if index[s] == -1 || index[s] == blk / CACHE_BLKS {
        lines[s] := temp;
      } else if dirty[s] == 1 {
        var old_blk := CACHE_BLKS * index[s] + s;
        disk[old_blk] := lines[s];
        lines[s] := temp;
      } else {
        lines[s] := temp;
      }
      index[s] := blk / CACHE_BLKS;
      dirty[s] := 1;
      Loaded(blk);
    }

    twostate lemma WrittenThrough(blk: nat)
      requires old(Valid()) && !cached && low <= blk < disk.Length
      requires unchanged(lines) && unchanged(index) && unchanged(dirty)
      requires forall b | 0 <= b < disk.Length && b != blk :: disk[b] == old(disk[b])
      ensures Valid() && View() == old(View())[blk := disk[blk]] && disk[..low] == old(disk[..low])
    {
      forall s | 0 <= s < CACHE_BLKS
        ensures LineValid(s)
      {
        assert old(LineValid(s));
      }
      forall b | 0 <= b < disk.Length
        ensures View()[b] == old(View())[blk := disk[blk]][b]
      {
        assert old(LineValid(b % CACHE_BLKS));
      }
    }

    /** One access to the cache: block `blk` is in its line afterwards, and no other line changed. */
    twostate lemma Loaded(blk: nat)
      requires old(Valid()) && cached && low <= blk < disk.Length
      requires LineOk(old(disk[..]), old(lines[..]), old(index[..]), old(dirty[..]), 0, blk % CACHE_BLKS)
      requires disk[..] == Evicted(old(disk[..]), old(lines[..]), old(index[..]), old(dirty[..]), blk % CACHE_BLKS, blk)
      requires forall t | 0 <= t < CACHE_BLKS && t != blk % CACHE_BLKS :: lines[t] == old(lines[t])
      requires index[..] == old(index[..])[blk % CACHE_BLKS := blk / CACHE_BLKS]
      requires forall t | 0 <= t < CACHE_BLKS && t != blk % CACHE_BLKS :: dirty[t] == old(dirty[t])
      requires dirty[blk % CACHE_BLKS] == 1 || lines[blk % CACHE_BLKS] == old(disk[blk])
      ensures Valid() && View() == old(View())[blk := lines[blk % CACHE_BLKS]] && disk[..low] == old(disk[..low])
    {
      hide LineOk;
      var temp := lines[blk % CACHE_BLKS];
      var d, l, i, f := old(disk[..]), old(lines[..]), old(index[..]), old(dirty[..]);
      assert lines[..] == l[blk % CACHE_BLKS := temp];
      assert old(LineValid(blk % CACHE_BLKS));
      EvictionStaysAbove(d, l, i, f, low, blk % CACHE_BLKS, blk);
      forall t | 0 <= t < CACHE_BLKS
        ensures LineValid(t)
      {
        assert old(LineValid(t));
        LoadKeepsLine(d, l, i, f, dirty[..], low, blk, temp, t);
      }
      forall b | 0 <= b < disk.Length
        ensures View()[b] == old(View())[blk := temp][b]
      {
        LoadChangesOneView(d, l, i, f, blk, temp, b);
      }
    }

    /** Writing back every line that is marked dirty leaves the view on the disk. */
    method Flush()
      requires Valid()
      modifies disk
      ensures disk[..] == old(View()) && disk[..low] == old(disk[..low])
    {
      hide ViewOf, ViewAt;
      ghost var v := View();
      for i := 0 to CACHE_BLKS
        invariant forall b :: 0 <= b < disk.Length ==> disk[b] == if b % CACHE_BLKS < i then v[b] else old(disk[b])
        invariant disk[..low] == old(disk[..low])
      {
        assert old(LineValid(i));
        forall b | 0 <= b < disk.Length && b % CACHE_BLKS == i
          ensures v[b] == if dirty[i] == 1 && b == CACHE_BLKS * index[i] + i then lines[i] else old(disk[b])
        {
          ViewOfBlock(old(disk[..]), lines[..], index[..], b);
          ViewOfLine(old(disk[..]), lines[..], index[..], dirty[..], low, b);
        }
        if dirty[i] == 1 {
          var blk := CACHE_BLKS * index[i] + i;
          disk[blk] := lines[i];
        }
      }
    }
  }
}
