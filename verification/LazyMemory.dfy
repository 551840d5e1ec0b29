/** The second memory assignment: a process whose heap and stack pages are mapped
    when they are first touched, EXPAND and SHRINK of its two heap segments, and
    the check that WRITE makes of its buffer. */
module LazyMemory {
  import opened Basics
  import opened PageWalk
  import opened Paging

  datatype Segment = Segment(start: nat, end: nat, next_free: nat, access_flags: nat)

  const MAP_RD := 0

  /** Pages that hold an address of the segment. */
  ghost predicate InSegment(s: Segment, p: nat) {
    s.start <= PAGE_SIZE * p + PAGE_SIZE - 1 && PAGE_SIZE * p <= s.end
  }

  /** A heap segment starts above 4 GB at a page boundary and has grown by whole
      pages, within its limit. */
  ghost predicate HeapSegment(s: Segment) {
    && TWO_TO_32 < s.start <= s.next_free <= s.end + 1 && s.end < VA_LIMIT
    && s.start % PAGE_SIZE == 0 && s.next_free % PAGE_SIZE == 0
  }

  ghost predicate Disjoint(s: Segment, t: Segment) {
    forall p: nat :: !(InSegment(s, p) && InSegment(t, p))
  }

  /** Every mapped page of a segment has the segment's permission. */
  ghost predicate HasPermission(m: Memory, root: nat, s: Segment) {
    forall p: nat :: InSegment(s, p) && FrameOf(m, root, p).Some? ==> (Writable(m, root, p) <==> AllowsWrite(s.access_flags))
  }

  /** Every mapped page of a heap segment also lies before its end of use. */
  ghost predicate HeapMapped(m: Memory, root: nat, s: Segment) {
    && HasPermission(m, root, s)
    && forall p: nat :: InSegment(s, p) && FrameOf(m, root, p).Some? ==> PAGE_SIZE * p < s.next_free
  }

  /** Mapping page `p` with the permission of its segment `s` respects segment `t`. */
  lemma OtherPagesKeepPermission(m: Memory, m': Memory, root: nat, p: nat, s: Segment, t: Segment)
    requires HasPermission(m, root, t)
    requires forall q: nat | q != p :: SamePage(m, m', root, q)
    requires Writable(m', root, p) <==> AllowsWrite(s.access_flags)
    requires InSegment(t, p) ==> t == s
    ensures HasPermission(m', root, t)
    ensures HeapMapped(m, root, t) && (InSegment(t, p) ==> PAGE_SIZE * p < t.next_free) ==> HeapMapped(m', root, t)
  {
    forall q: nat | InSegment(t, q) && FrameOf(m', root, q).Some?
      ensures Writable(m', root, q) <==> AllowsWrite(t.access_flags)
      ensures HeapMapped(m, root, t) && q != p ==> PAGE_SIZE * q < t.next_free
    {
      assert q != p ==> SamePage(m, m', root, q);
    }
  }

  datatype Event =
    | ExpandBy(size: U32, flags: int)
    | ShrinkBy(size: U32, flags: int)
    | Fault(va: nat, error_code: nat)

  // ----- the arithmetic of SHRINK

  /** `size*4096` in 32 unsigned bits. */
  function Product(size: U32): U32 {
    size * PAGE_SIZE % TWO_TO_32
  }

  /** `i*4096` in 32 signed bits. C leaves the product undefined where it does not
      fit; here it is, like the counter `i` itself, what two's complement makes of it. */
  function LoopProduct(i: U32): int {
    if Product(i) < 0x8000_0000 then Product(i) else Product(i) - TWO_TO_32
  }

  predicate FitsInt(i: U32) {
    i * PAGE_SIZE <= 0x7FFF_FFFF
  }

  /** The pages whose products fit are those before this one. */
  const INT_PAGES := 0x8_0000

  /** The bound check of SHRINK, which computes with 32 bits. */
  predicate Refuses(s: Segment, size: U32) {
    s.next_free - Product(size) < s.start
  }

  /** The page that iteration `i` of SHRINK's loop unmaps. */
  function LoopPage(s: Segment, i: U32): int {
    (s.next_free - LoopProduct(i)) / PAGE_SIZE
  }

  ghost predicate Visits(s: Segment, size: U32, p: int) {
    !Refuses(s, size) && exists i: U32 :: 1 <= i <= size && LoopPage(s, i) == p
  }

  /** The pages between the new end of use and the old one. */
  predicate GivesUp(s: Segment, size: U32, p: int) {
    !Refuses(s, size) && s.next_free - Product(size) <= PAGE_SIZE * p < s.next_free
  }

  lemma FirstMisfit()
    ensures LoopProduct(INT_PAGES) == -0x8000_0000 && !FitsInt(INT_PAGES) && FitsInt(INT_PAGES - 1)
  {
  }

  lemma FitsIntIff(i: U32)
    ensures FitsInt(i) <==> i < INT_PAGES
    ensures FitsInt(i) ==> LoopProduct(i) == Product(i) == i * PAGE_SIZE
  {
  }

  lemma LoopPageIs(s: Segment, i: U32)
    requires HeapSegment(s) && FitsInt(i)
    ensures PAGE_SIZE * LoopPage(s, i) == s.next_free - i * PAGE_SIZE
  {
    FitsIntIff(i);
  }

  /** SHRINK unmaps exactly the pages that it gives up exactly if its check refuses
      the call or the size is below 2^19. From 2^19 pages on a call that passes the
      check reaches a page at or after the old end of use, the lower half of the
      32-bit range being behind it. */
  lemma ShrinkKeepsToItsPagesIff(s: Segment, size: U32)
    requires HeapSegment(s)
    ensures (forall p: int :: Visits(s, size, p) <==> GivesUp(s, size, p)) <==> Refuses(s, size) || size < INT_PAGES
  {
    if !Refuses(s, size) && size < INT_PAGES {
      forall p: int
        ensures Visits(s, size, p) <==> GivesUp(s, size, p)
      {
        FewPagesAreVisited(s, size, p);
      }
    } else if !Refuses(s, size) {
      FirstMisfit();
      var p := LoopPage(s, INT_PAGES);
      assert Visits(s, size, p) && !GivesUp(s, size, p);
    }
  }

  lemma FewPagesAreVisited(s: Segment, size: U32, p: int)
    requires HeapSegment(s) && !Refuses(s, size) && size < INT_PAGES
    ensures Visits(s, size, p) <==> GivesUp(s, size, p)
  {
    FitsIntIff(size);
    if Visits(s, size, p) {
      var i: U32 :| 1 <= i <= size && LoopPage(s, i) == p;
      LoopPageIs(s, i);
    }
    if GivesUp(s, size, p) {
      var i: U32 := s.next_free / PAGE_SIZE - p;
      LoopPageIs(s, i);
    }
  }

  /** A page below address `bound` is unmapped before any product overflows. */
  ghost predicate StraysBelow(s: Segment, size: U32, bound: int) {
    exists i: U32 :: 1 <= i <= size && FitsInt(i) && PAGE_SIZE * LoopPage(s, i) < bound
  }

  /** Without any overflow in the loop: a call that passes the check leaves the
      pages it gives up, or even its segment, exactly if the 32-bit product of the
      check has wrapped and the pages given up, or in use, are fewer than 2^19 - 1. */
  lemma ShrinkStraysIff(s: Segment, size: U32)
    requires HeapSegment(s) && !Refuses(s, size)
    ensures StraysBelow(s, size, s.next_free - Product(size))
            <==> size >= 0x10_0000 && Product(size) < PAGE_SIZE * (INT_PAGES - 1)
    ensures StraysBelow(s, size, s.start)
            <==> size >= 0x10_0000 && s.next_free - s.start < PAGE_SIZE * (INT_PAGES - 1)
  {
    FirstMisfit();
    LoopPageIs(s, INT_PAGES - 1);
    forall i: U32 | 1 <= i <= size && FitsInt(i)
      ensures PAGE_SIZE * LoopPage(s, i) == s.next_free - i * PAGE_SIZE && i <= INT_PAGES - 1
    {
      LoopPageIs(s, i);
      FitsIntIff(i);
    }
  }

  /** 2^20 pages pass the check whatever the segment, as if they were none, and the
      loop goes on to what lies before the segment if that is used by fewer than
      2^19 - 1 pages. */
  lemma WrappedSizeStrays(s: Segment)
    requires HeapSegment(s)
    ensures !Refuses(s, 0x10_0000) && Product(0x10_0000) == 0
    ensures forall p: int :: !GivesUp(s, 0x10_0000, p)
    ensures Visits(s, 0x10_0000, PageOf(s.next_free) - 1)
    ensures s.next_free - s.start < PAGE_SIZE * (INT_PAGES - 1) ==> Visits(s, 0x10_0000, PageOf(s.start) - 1)
  {
    LoopPageIs(s, 1);
    if s.next_free - s.start < PAGE_SIZE * (INT_PAGES - 1) {
      var i: U32 := PageOf(s.next_free) - PageOf(s.start) + 1;
      FitsIntIff(i);
      LoopPageIs(s, i);
      assert LoopPage(s, i) == PageOf(s.start) - 1;
    }
  }

  predicate SameLimits(s: Segment, t: Segment) {
    s.start == t.start && s.end == t.end && s.access_flags == t.access_flags
  }

  // ----- the check of WRITE

  /** `OutsideTable`: the check has read past the end of the top table. */
  datatype Check = Accepted | Rejected | OutsideTable

  /** `param1 + length-1` in 64 unsigned bits. */
  function LastByte(buff: U64, length: U32): U64 {
    (buff + length + TWO_TO_64 - 1) % TWO_TO_64
  }

  predicate SpansPages(buff: U64, length: U32) {
    LastByte(buff, length) / 4096 > buff / 4096
  }

  lemma TopIndexInTableIff(va: nat)
    ensures Index(va, 4) < ENTRIES <==> va < VA_LIMIT
  {
  }

  lemma NothingBeyond(m: Memory, root: nat, va: nat)
    requires va >= VA_LIMIT
    ensures FrameOf(m, root, PageOf(va)) == None
  {
    if FrameOf(m, root, PageOf(va)).Some? {
      WalkIsPresent(m, root, PageOf(va), 0);
    }
  }

  lemma OnlyAddressZeroWraps(buff: U64)
    requires SpansPages(buff, 0)
    ensures buff == 0
  {
  }

  /** A byte of a short buffer is on the page of its first or of its last byte. */
  lemma BetweenProbes(buff: U64, length: U32, b: nat)
    requires buff <= b < buff + length && length <= 1024 && buff < VA_LIMIT
    ensures LastByte(buff, length) == buff + length - 1
    ensures PageOf(b) == PageOf(buff) || (SpansPages(buff, length) && PageOf(b) == PageOf(LastByte(buff, length)))
  {
  }

  class Process {
    const machine: Machine
    const pgd: nat
    var data: Segment
    var rodata: Segment
    var stack: Segment

    constructor (machine: Machine, pgd: nat, data: Segment, rodata: Segment, stack: Segment)
      ensures this.machine == machine && this.pgd == pgd
      ensures this.data == data && this.rodata == rodata && this.stack == stack
    {
      this.machine, this.pgd := machine, pgd;
      this.data, this.rodata, this.stack := data, rodata, stack;
    }

    ghost predicate Segments()
      reads this
    {
      && HeapSegment(data) && HeapSegment(rodata) && stack.end < VA_LIMIT
      && Disjoint(data, rodata) && Disjoint(data, stack) && Disjoint(rodata, stack)
    }

    ghost function Mem(): Memory
      requires machine.Valid()
      reads machine.mem
    {
      machine.Mem()
    }

    ghost predicate Valid()
      reads this, machine, machine.mem
    {
      && machine.Valid() && machine.IsTree(pgd) && Segments()
      && HeapMapped(Mem(), pgd, data) && HeapMapped(Mem(), pgd, rodata) && HasPermission(Mem(), pgd, stack)
    }

    /** At most so many frames were taken from the two regions. */
    twostate predicate FewerFree(pt: nat, user: nat)
      reads this, machine
    {
      && |machine.FreePt()| >= old(|machine.FreePt()|) - pt
      && |machine.FreeUser()| >= old(|machine.FreeUser()|) - user
    }

    // ----- check_present and handle_page_fault

    method CheckPresent(va: nat) returns (region: int)
      ensures region == Region(va)
      ensures data.start <= va < data.next_free ==> region == 1
      ensures rodata.start <= va < rodata.next_free && !(data.start <= va < data.next_free) ==> region == 2
      ensures stack.start <= va <= stack.end && !(data.start <= va < data.next_free) && !(rodata.start <= va < rodata.next_free) ==>
                region == 3
      ensures !(data.start <= va < data.next_free) && !(rodata.start <= va < rodata.next_free) && !(stack.start <= va <= stack.end) ==>
                region == -1
    {
      if va < data.next_free && va >= data.start {
        return 1;
      }
      if va < rodata.next_free && va >= rodata.start {
        return 2;
      }
      if va <= stack.end && va >= stack.start {
        return 3;
      }
      return -1;
    }

    function Region(va: nat): int
      reads this
    {
      if data.start <= va < data.next_free then 1
      else if rodata.start <= va < rodata.next_free then 2
      else if stack.start <= va <= stack.end then 3
      else -1
    }

    /** The process is ended on a protection violation, on an address outside its
        segments, and on a write to read-only data. */
    function FaultIsFatal(va: nat, error_code: nat): bool
      reads this
    {
      error_code % 2 == 1 || Region(va) == -1 || (Region(va) == 2 && error_code / 2 % 2 == 1)
    }

    function SegmentOf(va: nat): Segment
      requires Region(va) != -1
      reads this
    {
      if Region(va) == 1 then data else if Region(va) == 2 then rodata else stack
    }

    /** `handle_page_fault`: afterwards the touched page is mapped with the
        permission of its segment, and no other page has changed. */
    method HandlePageFault(va: nat, error_code: nat) returns (exited: bool)
      requires Valid() && |machine.FreePt()| >= 3 && machine.FreeUser() != {}
      modifies machine, machine.mem
      ensures Valid() && FewerFree(3, 1) && exited == FaultIsFatal(va, error_code)
      ensures error_code % 2 == 1 ==> exited
      ensures error_code % 2 == 0 && data.start <= va < data.next_free ==>
                !exited && (Writable(Mem(), pgd, PageOf(va)) <==> AllowsWrite(data.access_flags))
      ensures error_code % 2 == 0 && stack.start <= va <= stack.end ==>
                !exited && (Writable(Mem(), pgd, PageOf(va)) <==> AllowsWrite(stack.access_flags))
      ensures error_code % 2 == 0 && rodata.start <= va < rodata.next_free ==>
                && (exited <==> error_code / 2 % 2 == 1)
                && (!exited ==> (Writable(Mem(), pgd, PageOf(va)) <==> AllowsWrite(rodata.access_flags)))
      ensures !(data.start <= va < data.next_free) && !(rodata.start <= va < rodata.next_free) && !(stack.start <= va <= stack.end) ==>
                exited
      ensures exited ==> Mem() == old(Mem()) && machine.used == old(machine.used)
      ensures !exited ==>
                && (forall q: nat | q != PageOf(va) :: SamePage(old(Mem()), Mem(), pgd, q))
                && FrameOf(Mem(), pgd, PageOf(va)).Some?
                && (Writable(Mem(), pgd, PageOf(va)) <==> AllowsWrite(SegmentOf(va).access_flags))
                && (old(FrameOf(Mem(), pgd, PageOf(va))).Some? ==> SamePage(old(Mem()), Mem(), pgd, PageOf(va)))
    {
      hide Tree, Node, EntryAt, HeapMapped, HasPermission;
      SegmentsAreApart(va);
      if error_code % 2 == 1 {
        return true;
      }
      var region := CheckPresent(va);
      if region == -1 {
        return true;
      }
      if region == 1 {
        MapIn(va);
      } else if region == 2 {
        if error_code / 2 % 2 == 1 {
          return true;
        }
        MapIn(va);
      } else {
        MapIn(va);
      }
      return false;
    }

    /** No address is in use in two segments. */
    lemma SegmentsAreApart(va: nat)
      requires Segments()
      ensures data.start <= va < data.next_free ==>
                !(rodata.start <= va < rodata.next_free) && !(stack.start <= va <= stack.end)
      ensures rodata.start <= va < rodata.next_free ==> !(stack.start <= va <= stack.end)
    {
      var p := PageOf(va);
      assert !(InSegment(data, p) && InSegment(rodata, p)) && !(InSegment(data, p) && InSegment(stack, p));
      assert !(InSegment(rodata, p) && InSegment(stack, p));
    }

    /** `allocate(virtual_add, m)` for the segment of the address. */
    method MapIn(va: nat)
      requires Valid() && |machine.FreePt()| >= 3 && machine.FreeUser() != {} && Region(va) != -1
      modifies machine, machine.mem
      ensures Valid() && FewerFree(3, 1)
      ensures forall q: nat | q != PageOf(va) :: SamePage(old(Mem()), Mem(), pgd, q)
      ensures FrameOf(Mem(), pgd, PageOf(va)).Some?
      ensures Writable(Mem(), pgd, PageOf(va)) <==> AllowsWrite(SegmentOf(va).access_flags)
      ensures old(FrameOf(Mem(), pgd, PageOf(va))).Some? ==> SamePage(old(Mem()), Mem(), pgd, PageOf(va))
    {
      hide Tree, PathGrew, Node, EntryAt;
      AddressIsInSegment(va);
      ghost var p, s, m := PageOf(va), SegmentOf(va), Mem();
      if FrameOf(Mem(), pgd, p).Some? {
        PermissionBefore(va);
      }
      machine.Allocate(pgd, va, AllowsWrite(SegmentOf(va).access_flags), None);
      assert FrameOf(Mem(), pgd, p).Some? && (Writable(Mem(), pgd, p) <==> AllowsWrite(s.access_flags));
      OtherPagesKeepPermission(m, Mem(), pgd, p, s, data);
      OtherPagesKeepPermission(m, Mem(), pgd, p, s, rodata);
      OtherPagesKeepPermission(m, Mem(), pgd, p, s, stack);
    }

    /** A page that is mapped already has its segment's permission. */
    lemma PermissionBefore(va: nat)
      requires Valid() && Region(va) != -1 && FrameOf(Mem(), pgd, PageOf(va)).Some?
      ensures Writable(Mem(), pgd, PageOf(va)) <==> AllowsWrite(SegmentOf(va).access_flags)
    {
      AddressIsInSegment(va);
    }

    lemma AddressIsInSegment(va: nat)
      requires Segments() && Region(va) != -1
      ensures va < VA_LIMIT && InSegment(SegmentOf(va), PageOf(va))
      ensures Region(va) != 3 ==> PAGE_SIZE * PageOf(va) < SegmentOf(va).next_free
    {
    }

    // ----- EXPAND and SHRINK

    /** The heap segment that the flags of a system call select. */
    function Selected(flags: int): Segment
      reads this
    {
      if flags == MAP_RD then rodata else data
    }

    method SetNextFree(flags: int, next_free: nat)
      modifies this
      ensures Selected(flags) == old(Selected(flags)).(next_free := next_free)
      ensures stack == old(stack) && if flags == MAP_RD then data == old(data) else rodata == old(rodata)
    {
      if flags == MAP_RD {
        rodata := rodata.(next_free := next_free);
      } else {
        data := data.(next_free := next_free);
      }
    }

    /** EXPAND: the segment grows by `size` pages, or nothing changes and 0 is returned. */
    method Expand(size: U32, flags: int) returns (r: nat)
      requires Valid()
      modifies this
      ensures Valid() && stack == old(stack)
      ensures r == 0 <==> size > 512 || old(Selected(flags)).next_free + size * PAGE_SIZE - 1 > old(Selected(flags)).end
      ensures r == 0 ==> data == old(data) && rodata == old(rodata)
      ensures r != 0 ==>
                && r == old(Selected(flags)).next_free
                && Selected(flags) == old(Selected(flags)).(next_free := r + size * PAGE_SIZE)
                && if flags == MAP_RD then data == old(data) else rodata == old(rodata)
    {
      hide Tree, Node, EntryAt;
      if size > 512 {
        return 0;
      }
      var m := Selected(flags);
      if m.next_free + size * PAGE_SIZE - 1 > m.end {
        return 0;
      }
      GrowingKeepsHeap(Mem(), pgd, m, m.next_free + size * PAGE_SIZE);
      MovingKeepsDisjoint(m, m.next_free + size * PAGE_SIZE);
      SetNextFree(flags, m.next_free + size * PAGE_SIZE);
      return m.next_free;
    }

    /** SHRINK: it refuses and changes nothing; or the last `size` pages of the
        segment are given up, and exactly they are unmapped, each one's frame being
        freed once; or it gets to a product that does not fit, which C leaves
        undefined, and has unmapped the 2^19 - 1 pages before the end of use by then
        (see `ShrinkStraysIff` for whose pages they are). The last is `None`. */
    method Shrink(size: U32, flags: int) returns (r: Option<nat>)
      requires Valid()
      modifies this, machine, machine.mem
      ensures Valid() && FewerFree(0, 0) && stack == old(stack)
      ensures if flags == MAP_RD then data == old(data) else rodata == old(rodata)
      ensures r == None <==> !Refuses(old(Selected(flags)), size) && size >= INT_PAGES
      ensures r == Some(0) <==> Refuses(old(Selected(flags)), size)
      ensures r == Some(0) <==> var s := if flags == 0 then old(rodata) else old(data);
                                s.next_free - size * 4096 % 0x1_0000_0000 < s.start
      ensures r == Some(0) ==> Mem() == old(Mem()) && machine.used == old(machine.used)
      ensures r == None || r == Some(0) ==> Selected(flags) == old(Selected(flags))
      ensures r.Some? && r != Some(0) ==>
                && r.value == old(Selected(flags)).next_free - size * PAGE_SIZE >= old(Selected(flags)).start
                && Selected(flags) == old(Selected(flags)).(next_free := r.value)
      ensures r != Some(0) ==>
                var hi := PageOf(old(Selected(flags)).next_free);
                var lo := if r.Some? then PageOf(r.value) else hi - (INT_PAGES - 1);
                && Unmapped(old(Mem()), Mem(), pgd, lo, hi)
                && machine.used == old(machine.used) - FramesIn(old(Mem()), pgd, lo, hi)
    {
      hide Tree, Node, EntryAt, HeapMapped, HasPermission, Disjoint, Unmapped;
      var m := Selected(flags);
      if m.next_free - Product(size) < m.start {
        return Some(0);
      }
      ghost var m0, lo := Mem(), PageOf(m.next_free) - (if size < INT_PAGES then size else INT_PAGES - 1);
      FitsIntIff(size);
      var completed := UnmapBefore(m.next_free, size);
      UnmappingKeepsHeap(m0, Mem(), pgd, lo, PageOf(m.next_free), data);
      UnmappingKeepsHeap(m0, Mem(), pgd, lo, PageOf(m.next_free), rodata);
      UnmappingKeepsPermission(m0, Mem(), pgd, lo, PageOf(m.next_free), stack);
      if !completed {
        return None;
      }
      r := Some(m.next_free - Product(size));
      ShrinkingKeepsHeap(m0, Mem(), pgd, m, r.value);
      MovingKeepsDisjoint(m, r.value);
      SetNextFree(flags, r.value);
    }

    /** What `WrappedSizeStrays` means for a process: SHRINK by 2^20 pages gives up
        none, and takes the pages before the end of use away all the same, those
        before the segment's start included. */
    method ShrinkByWrappedSize(flags: int) returns (r: Option<nat>)
      requires Valid()
      modifies this, machine, machine.mem
      ensures r == None && Selected(flags) == old(Selected(flags))
      ensures FrameOf(Mem(), pgd, PageOf(old(Selected(flags)).next_free) - 1) == None
      ensures var s := old(Selected(flags));
              s.next_free - s.start < PAGE_SIZE * (INT_PAGES - 1) ==> FrameOf(Mem(), pgd, PageOf(s.start) - 1) == None
    {
      hide Tree, Node, EntryAt;
      WrappedSizeStrays(Selected(flags));
      r := Shrink(0x10_0000, flags);
    }

    /** The page of another segment: 2^20 pages of the data segment take the first
        page of the read-only one away, in the source's layout of the two and with
        less than 1 GB of data. */
    method ShrinkDataLosesRodata() returns (r: Option<nat>)
      requires Valid() && Layout() && data.next_free - data.start < 0x4000_0000 && Mapped(rodata.start)
      modifies this, machine, machine.mem
      ensures r == None && data == old(data) && rodata == old(rodata) && !Mapped(rodata.start)
    {
      hide Tree, Node, EntryAt, HeapMapped, HasPermission, Disjoint;
      WrappedSizeStrays(data);
      r := Shrink(0x10_0000, MAP_RD + 1);
    }

    /** Where the source puts its two heap segments. */
    predicate Layout()
      reads this
    {
      rodata.start == 0x1_4000_0000 && data.start == 0x1_8000_0000
    }

    // ----- WRITE

    /** The check that WRITE makes before it prints. It accepts exactly buffers of at
        most 1024 bytes that are mapped from the first to the last byte, although it
        probes at most two of them; of an empty buffer it probes the byte at its
        address. A probe outside the top table is one of an address from 2^48 on. */
    method ValidateWrite(buff: U64, length: U32) returns (check: Check)
      requires Valid()
      ensures check == Accepted <==>
                && length <= 1024 && (length == 0 ==> buff != 0 && Mapped(buff))
                && forall b: nat :: buff <= b < buff + length ==> Mapped(b)
      ensures check == OutsideTable <==>
                && length <= 1024
                && (buff >= VA_LIMIT || (Mapped(buff) && if length > 0 then buff + length > VA_LIMIT else buff == 0))
    {
      hide Tree, Node, EntryAt;
      if length > 1024 {
        return Rejected;
      }
      for i := 0 to 2
        invariant i >= 1 ==> buff < VA_LIMIT && Mapped(buff)
        invariant i == 2 && SpansPages(buff, length) ==> LastByte(buff, length) < VA_LIMIT && Mapped(LastByte(buff, length))
      {
        var va;
        if i == 0 {
          va := buff;
        } else if LastByte(buff, length) / 4096 > buff / 4096 {
          va := LastByte(buff, length);
          if length == 0 {
            OnlyAddressZeroWraps(buff);
          } else {
            BetweenProbes(buff, length, buff + length - 1);
          }
        } else {
          continue;
        }
        TopIndexInTableIff(va);
        if va >= VA_LIMIT {
          NothingBeyond(Mem(), pgd, va);
          assert !Mapped(va);
        }
        if Index(va, 4) >= ENTRIES {
          return OutsideTable;
        }
        var mapped := machine.Probe(pgd, va);
        if !mapped {
          assert !Mapped(va);
          return Rejected;
        }
      }
      forall b: nat | buff <= b < buff + length
        ensures Mapped(b)
      {
        BetweenProbes(buff, length, b);
      }
      return Accepted;
    }

    ghost predicate Mapped(va: nat)
      requires machine.Valid()
      reads machine.mem
    {
      FrameOf(Mem(), pgd, PageOf(va)).Some?
    }

    // ----- whole runs

    /** Before the first heap page is touched. */
    ghost predicate Initial()
      reads this, machine, machine.mem
    {
      && machine.Valid() && machine.IsTree(pgd) && Segments()
      && data.next_free == data.start && rodata.next_free == rodata.start
      && (forall p: nat :: InSegment(data, p) || InSegment(rodata, p) ==> FrameOf(Mem(), pgd, p) == None)
      && HasPermission(Mem(), pgd, stack)
    }

    /** Over every run of expands, shrinks and page faults that starts with no heap
        page mapped, up to the end of the process or the first overflow of SHRINK,
        the segments stay page-aligned and within their limits, the mapped heap
        pages stay before the end of use, and every mapped page has its segment's
        effective permission. */
    method Run(events: seq<Event>) returns (exited: bool)
      requires Initial()
      requires |machine.FreePt()| >= 3 * |events| && |machine.FreeUser()| >= |events|
      modifies this, machine, machine.mem
      ensures Valid() && SameLimits(old(data), data) && SameLimits(old(rodata), rodata) && stack == old(stack)
    {
      for i := 0 to |events|
        invariant Valid() && SameLimits(old(data), data) && SameLimits(old(rodata), rodata) && stack == old(stack)
        invariant |machine.FreePt()| >= 3 * (|events| - i) && |machine.FreeUser()| >= |events| - i
      {
        exited := Handle(events[i]);
        if exited {
          return;
        }
      }
      exited := false;
    }

    method Handle(event: Event) returns (exited: bool)
      requires Valid() && |machine.FreePt()| >= 3 && |machine.FreeUser()| >= 1
      modifies this, machine, machine.mem
      ensures Valid() && FewerFree(3, 1)
      ensures SameLimits(old(data), data) && SameLimits(old(rodata), rodata) && stack == old(stack)
    {
      exited := false;
      if event.ExpandBy? {
        var r := Expand(event.size, event.flags);
      } else if event.ShrinkBy? {
        var r := Shrink(event.size, event.flags);
        exited := r.None?;
      } else {
        exited := HandlePageFault(event.va, event.error_code);
      }
    }

    /** The loop of SHRINK over the pages before `next_free`, up to the first
        product that does not fit. */
    method UnmapBefore(next_free: nat, size: U32) returns (completed: bool)
      requires machine.Valid() && machine.IsTree(pgd)
      requires next_free % PAGE_SIZE == 0 && TWO_TO_32 <= next_free <= VA_LIMIT
      modifies machine, machine.mem
      ensures machine.IsTree(pgd) && FewerFree(0, 0) && (completed <==> size < INT_PAGES)
      ensures var hi := PageOf(next_free);
              var lo := hi - if completed then size else INT_PAGES - 1;
              && Unmapped(old(Mem()), Mem(), pgd, lo, hi)
              && machine.used == old(machine.used) - FramesIn(old(Mem()), pgd, lo, hi)
    {
      ghost var hi, m0 := PageOf(next_free), Mem();
      var i := 1;
      while i <= size
        invariant 1 <= i <= size + 1 && i <= INT_PAGES
        invariant machine.IsTree(pgd)
        invariant |machine.FreePt()| >= old(|machine.FreePt()|) && |machine.FreeUser()| >= old(|machine.FreeUser()|)
        invariant Unmapped(m0, Mem(), pgd, hi - (i - 1), hi)
        invariant machine.used == old(machine.used) - FramesIn(m0, pgd, hi - (i - 1), hi)
      {
        if !FitsInt(i) {
          return false;
        }
        var va := next_free - i * PAGE_SIZE;
        ghost var p, m := hi - i, Mem();
        assert PageOf(va) == p;
        assert SamePage(m0, m, pgd, p);
        FramesInSplit(m0, m, pgd, p, hi);
        ghost var pt, user := machine.FreePt(), machine.FreeUser();
        machine.Unmap(pgd, va);
        LargerSetHasMore(pt, machine.FreePt());
        LargerSetHasMore(user, machine.FreeUser());
        UnmapOneMore(m0, m, Mem(), pgd, p, hi);
        i := i + 1;
      }
      return true;
    }
  }

  /** A process that such a call harms: it has touched its first read-only page, and
      has no data yet. */
  method ProcessWithRodata() returns (p: Process)
    ensures p.Valid() && p.Layout() && p.data.next_free == p.data.start && p.Mapped(p.rodata.start)
    ensures !Writable(p.Mem(), p.pgd, PageOf(p.rodata.start))
  {
    hide Tree, Node, EntryAt, HeapMapped, HasPermission, Disjoint;
    p := NewProcess();
    var start := p.Expand(1, MAP_RD);
    var exited := p.HandlePageFault(p.rodata.start, 4);
  }

  /** A process that has touched nothing yet, in the source's layout. */
  method NewProcess() returns (p: Process)
    ensures fresh(p) && fresh(p.machine) && fresh(p.machine.mem) && p.Valid() && p.Layout()
    ensures p.data == Segment(0x1_8000_0000, 0x7_FFDF_FFFF, 0x1_8000_0000, 3)
    ensures p.rodata == Segment(0x1_4000_0000, 0x1_7FFF_FFFF, 0x1_4000_0000, 1)
    ensures |p.machine.FreePt()| >= 3 && p.machine.FreeUser() != {}
  {
    hide Tree, Node, EntryAt;
    var machine := new Machine();
    FreshMachineHasRoom(machine);
    var root := machine.AllocPt();
    machine.ClearTable(root);
    EmptyTree(machine.Mem(), root, machine.used);
    var data := Segment(0x1_8000_0000, 0x7_FFDF_FFFF, 0x1_8000_0000, 3);
    var rodata := Segment(0x1_4000_0000, 0x1_7FFF_FFFF, 0x1_4000_0000, 1);
    var stack := Segment(0x7_FFE0_0000, 0x8_0000_0000, 0, 3);
    p := new Process(machine, root, data, rodata, stack);
  }

  lemma FreshMachineHasRoom(machine: Machine)
    requires machine.used == {}
    ensures |machine.FreePt()| >= 4 && machine.FreeUser() != {}
  {
    var some := {PT_START, PT_START + 1, PT_START + 2, PT_START + 3};
    assert some <= machine.FreePt();
    LargerSetHasMore(some, machine.FreePt());
    assert USER_START in machine.FreeUser();
  }

  /** Between the two memories exactly the pages from `lo` up to `hi` were unmapped. */
  ghost predicate Unmapped(m: Memory, m': Memory, root: nat, lo: nat, hi: nat) {
    && (forall q: nat | lo <= q < hi :: FrameOf(m', root, q) == None)
    && (forall q: nat | !(lo <= q < hi) :: SamePage(m, m', root, q))
  }

  lemma GrowingKeepsHeap(m: Memory, root: nat, s: Segment, next_free: nat)
    requires HeapSegment(s) && HeapMapped(m, root, s) && s.next_free <= next_free
    ensures HeapMapped(m, root, s.(next_free := next_free))
  {
    assert forall p :: InSegment(s.(next_free := next_free), p) <==> InSegment(s, p);
  }

  lemma MovingKeepsDisjoint(s: Segment, next_free: nat)
    ensures forall t :: Disjoint(s, t) ==> Disjoint(s.(next_free := next_free), t)
    ensures forall t :: Disjoint(t, s) ==> Disjoint(t, s.(next_free := next_free))
  {
    assert forall p :: InSegment(s.(next_free := next_free), p) <==> InSegment(s, p);
  }

  lemma LargerSetHasMore(a: set<nat>, b: set<nat>)
    requires a <= b
    ensures |a| <= |b|
  {
    assert b == a + (b - a);
  }

  lemma UnmapOneMore(m: Memory, m': Memory, m'': Memory, root: nat, p: nat, hi: nat)
    requires p < hi && Unmapped(m, m', root, p + 1, hi)
    requires FrameOf(m'', root, p) == None && forall q: nat | q != p :: SamePage(m', m'', root, q)
    ensures Unmapped(m, m'', root, p, hi)
  {
    forall q: nat | !(p <= q < hi)
      ensures SamePage(m, m'', root, q)
    {
      assert SamePage(m, m', root, q) && SamePage(m', m'', root, q);
    }
    forall q: nat | p <= q < hi
      ensures FrameOf(m'', root, q) == None
    {
      assert q != p ==> SamePage(m', m'', root, q);
    }
  }

  lemma FramesInSplit(m: Memory, m': Memory, root: nat, lo: nat, hi: nat)
    requires lo < hi && FrameOf(m', root, lo) == FrameOf(m, root, lo)
    ensures FramesIn(m, root, lo, hi) == FramesIn(m', root, lo, lo + 1) + FramesIn(m, root, lo + 1, hi)
  {
    if FrameOf(m, root, lo).Some? {
      assert FrameOf(m, root, lo).value in FramesIn(m', root, lo, lo + 1);
    }
  }

  /** After the pages from `next_free` on were unmapped the segment may end there. */
  lemma ShrinkingKeepsHeap(m: Memory, m': Memory, root: nat, s: Segment, next_free: nat)
    requires HeapSegment(s) && HeapMapped(m, root, s) && s.start <= next_free && next_free % PAGE_SIZE == 0
    requires Unmapped(m, m', root, PageOf(next_free), PageOf(s.next_free))
    ensures HeapMapped(m', root, s.(next_free := next_free))
  {
    forall p: nat | InSegment(s, p) && FrameOf(m', root, p).Some?
      ensures PAGE_SIZE * p < next_free && (Writable(m', root, p) <==> AllowsWrite(s.access_flags))
    {
      assert SamePage(m, m', root, p);
    }
  }

  /** Unmapping pages breaks no segment's permissions or bounds. */
  lemma UnmappingKeepsPermission(m: Memory, m': Memory, root: nat, lo: nat, hi: nat, t: Segment)
    requires HasPermission(m, root, t) && Unmapped(m, m', root, lo, hi)
    ensures HasPermission(m', root, t)
  {
    forall p: nat | InSegment(t, p) && FrameOf(m', root, p).Some?
      ensures SamePage(m, m', root, p)
    {
    }
  }

  lemma UnmappingKeepsHeap(m: Memory, m': Memory, root: nat, lo: nat, hi: nat, t: Segment)
    requires HeapMapped(m, root, t) && Unmapped(m, m', root, lo, hi)
    ensures HeapMapped(m', root, t)
  {
    UnmappingKeepsPermission(m, m', root, lo, hi, t);
    forall p: nat | InSegment(t, p) && FrameOf(m', root, p).Some?
      ensures SamePage(m, m', root, p)
    {
    }
  }
}
