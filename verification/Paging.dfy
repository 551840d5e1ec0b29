/** The machine that the two memory assignments work on: page tables in physical
    frames, and the frame allocator, which is modelled by its contract. */
module Paging {
  import opened Basics
  import opened PageWalk

  /** The index that the source computes for a level from a virtual address. */
  function Index(va: nat, level: nat): nat
    requires 1 <= level <= 4
  {
    if level == 1 then va / 0x1000 % 0x200
    else if level == 2 then va / 0x20_0000 % 0x200
    else if level == 3 then va / 0x4000_0000 % 0x200
    else va / 0x80_0000_0000
  }

  const PAGE_SIZE := 4096
  const VA_LIMIT := 0x1_0000_0000_0000

  function PageOf(va: nat): nat {
    va / PAGE_SIZE
  }

  lemma IndexIsPrefix(va: nat, level: nat)
    requires 1 <= level <= 4 && va < VA_LIMIT
    ensures Index(va, level) == Prefix(PageOf(va), 5 - level) % ENTRIES < ENTRIES
    ensures PageOf(va) < PAGES
  {
  }

  /** Bitwise or on frame numbers. */
  function Or(x: nat, y: nat): nat
    decreases x + y
  {
    if x == 0 then y else if y == 0 then x
    else 2 * Or(x / 2, y / 2) + if x % 2 == 1 || y % 2 == 1 then 1 else 0
  }

  /** `e |= a<<12` with a 32-bit `a`, then `e |= 0x5`. */
  function Filled(e: Entry, a: nat): Entry {
    Entry(Or(e.frame, a % 0x10_0000), true, e.write, true)
  }

  /** `e |= 0x2` if the segment is writable. */
  function WithWrite(e: Entry, flag: bool): Entry {
    if flag then e.(write := true) else e
  }

  /** Bit 1 of a segment's `access_flags`. */
  predicate AllowsWrite(access_flags: nat) {
    access_flags / 2 % 2 == 1
  }

  class Machine {
    const mem: array<Table>
    var used: set<nat>

    constructor ()
      ensures Valid() && used == {} && fresh(mem)
    {
      mem := new Table[MEM_FRAMES];
      used := {};
    }

    ghost predicate Valid() {
      mem.Length == MEM_FRAMES
    }

    ghost function Mem(): Memory
      requires Valid()
      reads mem
    {
      mem[..]
    }

    ghost predicate IsTree(root: nat)
      requires Valid()
      reads this, mem
    {
      Tree(Mem(), root, used)
    }

    // ----- os_pfn_alloc and os_pfn_free

    ghost function FreePt(): set<nat>
      reads this
    {
      set f: nat | PT_START <= f < USER_START && f !in used
    }

    ghost function FreeUser(): set<nat>
      reads this
    {
      set f: nat | USER_START <= f < MEM_FRAMES && f !in used
    }

    method AllocPt() returns (a: nat)
      requires FreePt() != {}
      modifies this
      ensures IsPtFrame(a) && a !in old(used) && used == old(used) + {a}
      ensures FreePt() == old(FreePt()) - {a} && FreeUser() == old(FreeUser())
    {
      assert exists f: nat :: f in FreePt();
      a :| IsPtFrame(a) && a !in used;
      used := used + {a};
    }

    method AllocUser() returns (a: nat)
      requires FreeUser() != {}
      modifies this
      ensures IsUserFrame(a) && a !in old(used) && used == old(used) + {a}
      ensures FreePt() == old(FreePt()) && FreeUser() == old(FreeUser()) - {a}
    {
      assert exists f: nat :: f in FreeUser();
      a :| IsUserFrame(a) && a !in used;
      used := used + {a};
    }

    /** A frame may be freed once: only while it is allocated. */
    method Free(f: nat)
      requires f in used
      modifies this
      ensures used == old(used) - {f}
    {
      used := used - {f};
    }

    // ----- reading and writing a frame that is allocated

    method Load(f: nat, i: nat) returns (e: Entry)
      requires Valid() && f in used && f < MEM_FRAMES && i < ENTRIES
      ensures e == mem[f][i]
    {
      e := mem[f][i];
    }

    method Store(f: nat, i: nat, e: Entry)
      requires Valid() && f in used && f < MEM_FRAMES && i < ENTRIES
      modifies mem
      ensures Mem() == SetEntry(old(Mem()), f, i, e)
    {
      mem[f] := mem[f][i := e];
    }

    // ----- allocate

    /** One of the upper three levels of `allocate`: the table below entry (`d`, `x`)
        is created if it is missing, and made writable if the segment is. */
    method Descend(root: nat, ghost d: nat, ghost x: nat, table: nat, i: nat, flag: bool) returns (child: nat)
      requires Valid() && IsTree(root) && 1 <= d <= 3
      requires Node(Mem(), root, d - 1, x / ENTRIES) == Some(table) && i == x % ENTRIES
      requires !EntryAt(Mem(), root, d, x).present ==> FreePt() != {}
      modifies this, mem
      ensures IsTree(root) && Node(Mem(), root, d, x) == Some(child)
      ensures flag ==> EntryAt(Mem(), root, d, x).write
      ensures OthersKept(old(Mem()), Mem(), root, d, x) && OnPath(old(Mem()), Mem(), root, d, x, old(used), None)
      ensures if old(EntryAt(Mem(), root, d, x)).present then used == old(used) && FreePt() == old(FreePt())
              else IsPtFrame(child) && child !in old(used) && used == old(used) + {child} && FreePt() == old(FreePt()) - {child}
      ensures FreeUser() == old(FreeUser())
    {
      ghost var m0 := Mem();
      assert IsNode(m0, root, d - 1, x / ENTRIES);
      var e := mem[table][i];
      if !e.present {
        child := AllocPt();
        ClearTable(child);
        mem[table] := mem[table][i := Filled(e, child)];
        assert e == ZERO by { assert EntryAt(m0, root, d, x) == e; }
        ghost var added := Entry(child, true, false, true);
        assert ChildAdded(m0, Mem(), root, d, x, added);
        AddingKeepsTree(m0, Mem(), root, d, x, added, old(used));
        AddingKeepsOthers(m0, Mem(), root, d, x, added);
      } else {
        child := e.frame % 0x1_0000_0000;
        assert IsNode(m0, root, d, x);
      }
      if flag {
        ghost var m1 := Mem();
        mem[table] := mem[table][i := WithWrite(mem[table][i], true)];
        assert WriteSet(m1, Mem(), root, d, x);
        WriteSetKeepsTree(m1, Mem(), root, d, x, used);
        SettingWriteKeepsOthers(m1, Mem(), root, d, x);
      }
    }

    /** `allocate`: maps the page of `va`, to a fresh user frame or, in the first
        assignment's data segment, to a given one. */
    method Allocate(root: nat, va: nat, flag: bool, leaf: Option<nat>)
      requires Valid() && IsTree(root) && va < VA_LIMIT
      requires |FreePt()| >= 3 && (leaf.None? ==> FreeUser() != {})
      requires leaf.Some? ==> IsUserFrame(leaf.value) && leaf.value in used && !IsMapped(Mem(), root, leaf.value)
      modifies this, mem
      ensures IsTree(root)
      ensures |FreePt()| >= old(|FreePt()|) - 3 && |FreeUser()| >= old(|FreeUser()|) - 1
      ensures leaf.Some? ==> FreeUser() == old(FreeUser())
      ensures PathGrew(old(Mem()), Mem(), root, PageOf(va), 4, old(used), used, leaf)
      ensures forall q: nat | q != PageOf(va) :: SamePage(old(Mem()), Mem(), root, q)
      ensures old(FrameOf(Mem(), root, PageOf(va))).Some? ==>
                used == old(used) && SamePage(old(Mem()), Mem(), root, PageOf(va))
      ensures old(FrameOf(Mem(), root, PageOf(va))).None? ==>
                && FrameOf(Mem(), root, PageOf(va)).Some? && (Writable(Mem(), root, PageOf(va)) <==> flag)
                && var a := FrameOf(Mem(), root, PageOf(va)).value;
                   && (if leaf.Some? then a == leaf.value else IsUserFrame(a) && a !in old(used))
                   && used >= old(used) + {a}
                   && forall f | f in used && f !in old(used) :: f == a || IsPtFrame(f)
    {
      hide Tree, PathGrew;
      ghost var p, m0 := PageOf(va), Mem();
      var table := BuildTables(root, va, flag);
      IndexIsPrefix(va, 1);
      ghost var m, u := Mem(), used;
      if !mem[table][Index(va, 1)].present {
        MapLast(root, p, table, Index(va, 1), flag, leaf);
      }
      PathGrewForAny(m0, m, root, p, old(used), u, leaf);
      PathGrowsOn(m0, m, Mem(), root, p, 3, old(used), u, used, leaf);
      LastLevelDecides(m0, old(used), Mem(), used, root);
    }

    /** Levels 4, 3 and 2 of `allocate`. */
    method BuildTables(root: nat, va: nat, flag: bool) returns (table: nat)
      requires Valid() && IsTree(root) && va < VA_LIMIT && |FreePt()| >= 3
      modifies this, mem
      ensures IsTree(root) && Node(Mem(), root, 3, Prefix(PageOf(va), 3)) == Some(table) && table < MEM_FRAMES
      ensures forall k | 1 <= k <= 3 :: flag ==> EntryAt(Mem(), root, k, Prefix(PageOf(va), k)).write
      ensures LastLevelKept(old(Mem()), Mem(), root)
      ensures |FreePt()| >= old(|FreePt()|) - 3 && FreeUser() == old(FreeUser())
      ensures used >= old(used) && forall f | f in used && f !in old(used) :: IsPtFrame(f)
      ensures old(FrameOf(Mem(), root, PageOf(va))).Some? ==> used == old(used)
      ensures PathGrew(old(Mem()), Mem(), root, PageOf(va), 3, old(used), used, None)
    {
      hide Tree, PathGrew, OnPath, OthersKept, Node, EntryAt, Prefix;
      ghost var p, m0 := PageOf(va), Mem();
      NothingGrew(m0, root, p, used);
      table := root;
      var level := 4;
      while level >= 2
        invariant 1 <= level <= 4 && IsTree(root)
        invariant Node(Mem(), root, 4 - level, Prefix(p, 4 - level)) == Some(table)
        invariant forall k | 1 <= k <= 4 - level :: flag ==> EntryAt(Mem(), root, k, Prefix(p, k)).write
        invariant LastLevelKept(m0, Mem(), root) && FreeUser() == old(FreeUser())
        invariant |FreePt()| >= old(|FreePt()|) - (4 - level)
        invariant used >= old(used) && forall f | f in used && f !in old(used) :: IsPtFrame(f)
        invariant FrameOf(m0, root, p).Some? ==> used == old(used)
        invariant PathGrew(m0, Mem(), root, p, 4 - level, old(used), used, None)
      {
        ghost var m, u := Mem(), used;
        table := BuildTable(root, va, level, table, flag);
        LevelsKept(m, Mem(), root, p, 5 - level);
        PathGrowsOn(m0, m, Mem(), root, p, 4 - level, old(used), u, used, None);
        level := level - 1;
      }
      TablesAreInMemory(Mem(), root, used, 3, Prefix(p, 3));
    }

    method BuildTable(root: nat, va: nat, level: nat, table: nat, flag: bool) returns (child: nat)
      requires Valid() && IsTree(root) && va < VA_LIMIT && 2 <= level <= 4 && |FreePt()| >= 1
      requires Node(Mem(), root, 4 - level, Prefix(PageOf(va), 4 - level)) == Some(table)
      modifies this, mem
      ensures IsTree(root) && Node(Mem(), root, 5 - level, Prefix(PageOf(va), 5 - level)) == Some(child)
      ensures flag ==> EntryAt(Mem(), root, 5 - level, Prefix(PageOf(va), 5 - level)).write
      ensures OthersKept(old(Mem()), Mem(), root, 5 - level, Prefix(PageOf(va), 5 - level))
      ensures OnPath(old(Mem()), Mem(), root, 5 - level, Prefix(PageOf(va), 5 - level), old(used), None)
      ensures |FreePt()| >= old(|FreePt()|) - 1 && FreeUser() == old(FreeUser())
      ensures used == old(used) || (used == old(used) + {child} && IsPtFrame(child))
      ensures old(FrameOf(Mem(), root, PageOf(va))).Some? ==> used == old(used)
    {
      ghost var p, d := PageOf(va), 5 - level;
      IndexIsPrefix(va, level);
      PrefixStep(p, d);
      if FrameOf(Mem(), root, p).Some? {
        WalkIsPresent(Mem(), root, p, d);
      }
      child := Descend(root, d, Prefix(p, d), table, Index(va, level), flag);
    }

    /** The last level of `allocate`. */
    method MapLast(root: nat, ghost p: nat, table: nat, i: nat, flag: bool, leaf: Option<nat>)
      requires Valid() && IsTree(root)
      requires Node(Mem(), root, 3, p / ENTRIES) == Some(table) && i == p % ENTRIES
      requires !EntryAt(Mem(), root, 4, p).present
      requires flag ==> forall k | 1 <= k <= 3 :: EntryAt(Mem(), root, k, Prefix(p, k)).write
      requires leaf.None? ==> FreeUser() != {}
      requires leaf.Some? ==> IsUserFrame(leaf.value) && leaf.value in used && !IsMapped(Mem(), root, leaf.value)
      modifies this, mem
      ensures IsTree(root) && OthersKept(old(Mem()), Mem(), root, 4, p)
      ensures FrameOf(Mem(), root, p).Some? && (EntryAt(Mem(), root, 4, p).write <==> flag)
      ensures FreePt() == old(FreePt()) && |FreeUser()| >= old(|FreeUser()|) - 1
      ensures var a := FrameOf(Mem(), root, p).value;
              if leaf.Some? then a == leaf.value && used == old(used)
              else IsUserFrame(a) && a !in old(used) && used == old(used) + {a}
    {
      ghost var m0 := Mem();
      TablesAreInMemory(m0, root, used, 3, p / ENTRIES);
      var a;
      if leaf.Some? {
        a := leaf.value;
      } else {
        a := AllocUser();
      }
      var e := mem[table][i];
      assert e == ZERO by { assert EntryAt(m0, root, 4, p) == e; }
      NotMappedIsFresh(m0, root, old(used), a);
      mem[table] := mem[table][i := WithWrite(Filled(e, a), flag)];
      ghost var added := Entry(a, true, flag, true);
      assert WithWrite(Filled(e, a), flag) == added;
      assert ChildAdded(m0, Mem(), root, 4, p, added);
      AddingKeepsTree(m0, Mem(), root, 4, p, added, old(used));
      AddingKeepsOthers(m0, Mem(), root, 4, p, added);
      assert old(used) + {a} == used;
    }

    /** The walk of SHRINK and WRITE down to the last table; None if some entry on
        the way is not present. */
    method LastTable(root: nat, va: nat) returns (table: Option<nat>)
      requires Valid() && IsTree(root) && va < VA_LIMIT
      ensures table == Node(Mem(), root, 3, Prefix(PageOf(va), 3))
      ensures table.Some? ==> table.value < MEM_FRAMES
    {
      ghost var p := PageOf(va);
      var t := root;
      var level := 4;
      while level >= 2
        invariant 1 <= level <= 4
        invariant Node(Mem(), root, 4 - level, Prefix(p, 4 - level)) == Some(t)
      {
        IndexIsPrefix(va, level);
        PrefixStep(p, 5 - level);
        assert IsNode(Mem(), root, 4 - level, Prefix(p, 4 - level));
        var e := mem[t][Index(va, level)];
        assert e == EntryAt(Mem(), root, 5 - level, Prefix(p, 5 - level));
        if !e.present {
          NoNodeBelow(Mem(), root, p, 5 - level, 3);
          return None;
        }
        assert IsNode(Mem(), root, 5 - level, Prefix(p, 5 - level));
        t := e.frame % 0x1_0000_0000;
        level := level - 1;
      }
      assert IsNode(Mem(), root, 3, Prefix(p, 3));
      return Some(t);
    }

    /** One probe of WRITE. */
    method Probe(root: nat, va: nat) returns (mapped: bool)
      requires Valid() && IsTree(root) && va < VA_LIMIT
      ensures mapped <==> FrameOf(Mem(), root, PageOf(va)).Some?
    {
      var table := LastTable(root, va);
      IndexIsPrefix(va, 1);
      if table.None? {
        return false;
      }
      return mem[table.value][Index(va, 1)].present;
    }

    /** One iteration of SHRINK: the page is unmapped and its frame freed, if it
        is mapped at all. */
    method Unmap(root: nat, va: nat)
      requires Valid() && IsTree(root) && va < VA_LIMIT
      modifies this, mem
      ensures FreePt() >= old(FreePt()) && FreeUser() >= old(FreeUser())
      ensures IsTree(root) && FrameOf(Mem(), root, PageOf(va)) == None
      ensures forall q: nat | q != PageOf(va) :: SamePage(old(Mem()), Mem(), root, q)
      ensures used == old(used) - FramesIn(old(Mem()), root, PageOf(va), PageOf(va) + 1)
    {
      ghost var m0, p := Mem(), PageOf(va);
      var table := LastTable(root, va);
      IndexIsPrefix(va, 1);
      if table.None? {
        return;
      }
      var e := mem[table.value][Index(va, 1)];
      if e.present {
        assert IsNode(m0, root, 4, p);
        Free(e.frame);
        mem[table.value] := mem[table.value][Index(va, 1) := ZERO];
        assert PageRemoved(m0, Mem(), root, p);
        RemovingKeepsPages(m0, Mem(), root, p, old(used));
        assert FramesIn(m0, root, p, p + 1) == {e.frame};
      } else {
        assert FramesIn(m0, root, p, p + 1) == {};
      }
    }

    /** The zeroing loop over a fresh table. */
    method ClearTable(a: nat)
      requires Valid() && a < MEM_FRAMES
      modifies mem
      ensures Mem() == Cleared(old(Mem()), a)
    {
      for i := 0 to ENTRIES
        invariant forall k :: 0 <= k < i ==> mem[a][k] == ZERO
        invariant forall f :: 0 <= f < MEM_FRAMES && f != a ==> mem[f] == old(mem[f])
      {
        mem[a] := mem[a][i := ZERO];
      }
      assert mem[a] == ZeroTable();
    }
  }

  /** The walk in full: four entries, found by nine bits of the address each, from
      bit 39 down to bit 12, lead to the frame, and all four must allow a write. */
  lemma WalkIsFourLookups(m: Memory, root: nat, va: nat)
    requires va < VA_LIMIT
    ensures var e4 := EntryIn(m, root, va / 0x80_0000_0000 % 512);
            var e3 := EntryIn(m, e4.frame, va / 0x4000_0000 % 512);
            var e2 := EntryIn(m, e3.frame, va / 0x20_0000 % 512);
            var e1 := EntryIn(m, e2.frame, va / 0x1000 % 512);
            && FrameOf(m, root, va / 4096)
               == (if e4.present && e3.present && e2.present && e1.present then Some(e1.frame) else None)
            && (Writable(m, root, va / 4096)
                <==> e4.present && e4.write && e3.present && e3.write && e2.present && e2.write && e1.write)
  {
    var p := va / 4096;
    IndicesOfPrefix(va);
    PrefixStep(p, 4);
    PrefixStep(p, 3);
    PrefixStep(p, 2);
    PrefixStep(p, 1);
    assert Node(m, root, 0, 0) == Some(root);
    NodeStep(m, root, 1, Prefix(p, 1));
    NodeStep(m, root, 2, Prefix(p, 2));
    NodeStep(m, root, 3, Prefix(p, 3));
    NodeStep(m, root, 4, Prefix(p, 4));
  }

  lemma NodeStep(m: Memory, root: nat, d: nat, x: nat)
    requires d > 0
    ensures EntryAt(m, root, d, x) == match Node(m, root, d - 1, x / ENTRIES)
                                      case None => ZERO
                                      case Some(f) => EntryIn(m, f, x % ENTRIES)
    ensures Node(m, root, d, x) == if EntryAt(m, root, d, x).present then Some(EntryAt(m, root, d, x).frame) else None
  {
  }

  lemma IndicesOfPrefix(va: nat)
    requires va < VA_LIMIT
    ensures Prefix(va / 4096, 0) == 0
    ensures Prefix(va / 4096, 1) % 512 == va / 0x80_0000_0000 % 512
    ensures Prefix(va / 4096, 2) % 512 == va / 0x4000_0000 % 512
    ensures Prefix(va / 4096, 3) % 512 == va / 0x20_0000 % 512
    ensures Prefix(va / 4096, 4) % 512 == va / 0x1000 % 512
  {
    hide Prefix;
    PrefixStep(PageOf(va), 1);
    IndexIsPrefix(va, 4);
    IndexIsPrefix(va, 3);
    IndexIsPrefix(va, 2);
    IndexIsPrefix(va, 1);
  }

  /** Some page is mapped to frame `f`. */
  ghost predicate IsMapped(m: Memory, root: nat, f: nat) {
    exists q: nat :: FrameOf(m, root, q) == Some(f)
  }

  /** Page `q` keeps its frame and its effective permission. */
  ghost predicate SamePage(m: Memory, m': Memory, root: nat, q: nat) {
    FrameOf(m', root, q) == FrameOf(m, root, q) && (Writable(m', root, q) <==> Writable(m, root, q))
  }

  ghost predicate LastLevelKept(m: Memory, m': Memory, root: nat) {
    forall q: nat :: FrameOf(m', root, q) == FrameOf(m, root, q) && EntryAt(m', root, 4, q) == EntryAt(m, root, 4, q)
  }

  /** The frames of the pages from `lo` up to `hi`. */
  ghost function FramesIn(m: Memory, root: nat, lo: nat, hi: nat): set<nat> {
    set q: nat | lo <= q < hi && FrameOf(m, root, q).Some? :: FrameOf(m, root, q).value
  }

  lemma {:induction false} NoNodeBelow(m: Memory, root: nat, p: nat, d: nat, k: nat)
    requires 0 < d <= k <= 4 && !EntryAt(m, root, d, Prefix(p, d)).present
    ensures Node(m, root, k, Prefix(p, k)) == None
    decreases k
  {
    if d < k {
      PrefixStep(p, k);
      NoNodeBelow(m, root, p, d, k - 1);
    }
  }

  lemma RemovingKeepsPages(m: Memory, m': Memory, root: nat, p: nat, used: set<nat>)
    requires Tree(m, root, used) && PageRemoved(m, m', root, p)
    ensures Tree(m', root, used - {FrameOf(m, root, p).value})
    ensures FrameOf(m', root, p) == None
    ensures forall q: nat | q != p :: SamePage(m, m', root, q)
  {
    RemovingKeepsTree(m, m', root, p, used);
    LastLevelDecides(m, used, m', used - {FrameOf(m, root, p).value}, root);
    forall q: nat
      ensures if q == p then FrameOf(m', root, q) == None else SamePage(m, m', root, q)
    {
      RemovedPageIsOneNode(m, m', root, p, 4, q);
      EntryAfterRemoving(m, m', root, p, 4, q);
    }
  }

  lemma NotMappedIsFresh(m: Memory, root: nat, used: set<nat>, f: nat)
    requires Tree(m, root, used) && IsUserFrame(f) && (f !in used || !IsMapped(m, root, f))
    ensures forall d: nat, x: nat | IsNode(m, root, d, x) :: Node(m, root, d, x).value != f
  {
    forall d: nat, x: nat | IsNode(m, root, d, x)
      ensures Node(m, root, d, x).value != f
    {
      assert d == 4 && Node(m, root, d, x).value == f ==> FrameOf(m, root, x) == Some(f);
    }
  }

  /** A page whose last level is kept keeps its permission, between two trees. */
  lemma LastLevelDecides(m: Memory, used: set<nat>, m': Memory, used': set<nat>, root: nat)
    requires Tree(m, root, used) && Tree(m', root, used')
    ensures forall q: nat :: Writable(m, root, q) <==> EntryAt(m, root, 4, q).write
    ensures forall q: nat :: Writable(m', root, q) <==> EntryAt(m', root, 4, q).write
  {
    forall q: nat
      ensures Writable(m, root, q) <==> EntryAt(m, root, 4, q).write
      ensures Writable(m', root, q) <==> EntryAt(m', root, 4, q).write
    {
      WritableIsLastFlag(m, root, used, q);
      WritableIsLastFlag(m', root, used', q);
    }
  }

  /** From `m` to `m'` nodes were added on the way to page `p` only, down to depth
      `d`, from frames that were free or, for the page itself, given; and no other
      frame was taken. */
  ghost predicate PathGrew(m: Memory, m': Memory, root: nat, p: nat, d: nat, used: set<nat>, used': set<nat>, leaf: Option<nat>) {
    && (forall k: nat, y: nat | k <= 4 && !(1 <= k <= d && y == Prefix(p, k)) :: Node(m', root, k, y) == Node(m, root, k, y))
    && (forall k: nat | 1 <= k <= d && k <= 4 :: OnPath(m, m', root, k, Prefix(p, k), used, leaf))
    && used <= used' && forall f | f in used' && f !in used :: IsOnPath(m', root, p, d, f)
  }

  ghost predicate OnPath(m: Memory, m': Memory, root: nat, k: nat, y: nat, used: set<nat>, leaf: Option<nat>) {
    && IsNode(m', root, k, y)
    && if IsNode(m, root, k, y) then Node(m', root, k, y) == Node(m, root, k, y)
       else Node(m', root, k, y).value !in used || (k == 4 && Node(m', root, k, y) == leaf)
  }

  ghost predicate IsOnPath(m: Memory, root: nat, p: nat, d: nat, f: nat) {
    exists k: nat :: 1 <= k <= d && k <= 4 && Node(m, root, k, Prefix(p, k)) == Some(f)
  }

  lemma PathGrowsOn(m: Memory, m': Memory, m'': Memory, root: nat, p: nat, d: nat, used: set<nat>,
                    used': set<nat>, used'': set<nat>, leaf: Option<nat>)
    requires d < 4 && PathGrew(m, m', root, p, d, used, used', leaf)
    requires OthersKept(m', m'', root, d + 1, Prefix(p, d + 1))
    requires OnPath(m', m'', root, d + 1, Prefix(p, d + 1), used', leaf)
    requires used' <= used'' && forall f | f in used'' && f !in used' :: Node(m'', root, d + 1, Prefix(p, d + 1)) == Some(f)
    ensures PathGrew(m, m'', root, p, d + 1, used, used'', leaf)
  {
    hide Node, EntryAt, Prefix;
    forall f | f in used'' && f !in used
      ensures IsOnPath(m'', root, p, d + 1, f)
    {
      if f in used' {
        var k: nat :| 1 <= k <= d && k <= 4 && Node(m', root, k, Prefix(p, k)) == Some(f);
        assert Node(m'', root, k, Prefix(p, k)) == Some(f);
      }
    }
    forall k: nat | 1 <= k <= d + 1
      ensures OnPath(m, m'', root, k, Prefix(p, k), used, leaf)
    {
      assert k <= d ==> OnPath(m, m', root, k, Prefix(p, k), used, leaf);
    }
  }

  lemma LevelsKept(m: Memory, m': Memory, root: nat, p: nat, d: nat)
    requires 1 <= d <= 3 && OthersKept(m, m', root, d, Prefix(p, d))
    ensures LastLevelKept(m, m', root)
    ensures forall k | 1 <= k < d :: EntryAt(m', root, k, Prefix(p, k)) == EntryAt(m, root, k, Prefix(p, k))
  {
  }

  lemma NothingGrew(m: Memory, root: nat, p: nat, used: set<nat>)
    ensures p < PAGES ==> Node(m, root, 0, Prefix(p, 0)) == Some(root)
    ensures PathGrew(m, m, root, p, 0, used, used, None)
  {
  }

  lemma TablesAreInMemory(m: Memory, root: nat, used: set<nat>, d: nat, x: nat)
    requires Tree(m, root, used) && d < 4 && IsNode(m, root, d, x)
    ensures Node(m, root, d, x).value in used && IsPtFrame(Node(m, root, d, x).value)
  {
  }

  lemma PathGrewForAny(m: Memory, m': Memory, root: nat, p: nat, used: set<nat>, used': set<nat>, leaf: Option<nat>)
    requires PathGrew(m, m', root, p, 3, used, used', None)
    ensures PathGrew(m, m', root, p, 3, used, used', leaf)
  {
    forall k: nat | 1 <= k <= 3
      ensures OnPath(m, m', root, k, Prefix(p, k), used, leaf)
    {
      assert OnPath(m, m', root, k, Prefix(p, k), used, None);
    }
  }

  lemma AddingKeepsOthers(m: Memory, m': Memory, root: nat, d: nat, x: nat, e: Entry)
    requires ChildAdded(m, m', root, d, x, e)
    ensures OthersKept(m, m', root, d, x)
    ensures Node(m', root, d, x) == Some(e.frame) && EntryAt(m', root, d, x) == e
  {
    forall k: nat, y: nat | k <= 4
      ensures Node(m', root, k, y) == if k == d && y == x then Some(e.frame) else Node(m, root, k, y)
      ensures k > 0 ==> EntryAt(m', root, k, y) == if k == d && y == x then e else EntryAt(m, root, k, y)
    {
      AddedChildIsOneNode(m, m', root, d, x, e, k, y);
      if k > 0 {
        EntryAfterAdding(m, m', root, d, x, e, k, y);
      }
    }
  }

  lemma SettingWriteKeepsOthers(m: Memory, m': Memory, root: nat, d: nat, x: nat)
    requires WriteSet(m, m', root, d, x)
    ensures OthersKept(m, m', root, d, x)
    ensures Node(m', root, d, x) == Node(m, root, d, x)
    ensures EntryAt(m', root, d, x) == EntryAt(m, root, d, x).(write := true)
  {
    forall k: nat, y: nat | k <= 4
      ensures Node(m', root, k, y) == Node(m, root, k, y)
      ensures k > 0 && !(k == d && y == x) ==> EntryAt(m', root, k, y) == EntryAt(m, root, k, y)
    {
      WriteSetKeepsNode(m, m', root, d, x, k, y);
      if k > 0 {
        EntryAfterWriteSet(m, m', root, d, x, k, y);
      }
    }
    EntryAfterWriteSet(m, m', root, d, x, d, x);
  }

  /** Making a table writable changes no page's frame and no page's permission. */
  lemma SettingWriteKeepsPages(m: Memory, m': Memory, root: nat, d: nat, x: nat, used: set<nat>)
    requires Tree(m, root, used) && WriteSet(m, m', root, d, x) && d < 4
    ensures forall q: nat :: SamePage(m, m', root, q)
  {
    WriteSetKeepsTree(m, m', root, d, x, used);
    LastLevelDecides(m, used, m', used, root);
    SettingWriteKeepsOthers(m, m', root, d, x);
    forall q: nat
      ensures SamePage(m, m', root, q)
    {
      WriteSetKeepsNode(m, m', root, d, x, 4, q);
    }
  }

  /** Entries other than the one at (`d`, `x`) are as before, and so are all pages. */
  ghost predicate OthersKept(m: Memory, m': Memory, root: nat, d: nat, x: nat) {
    && (forall k: nat, y: nat | 1 <= k <= 4 && !(k == d && y == x) :: EntryAt(m', root, k, y) == EntryAt(m, root, k, y))
    && (forall k: nat, y: nat | k <= 4 && !(k == d && y == x) :: Node(m', root, k, y) == Node(m, root, k, y))
  }
}
