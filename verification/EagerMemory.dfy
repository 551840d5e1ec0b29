/** The first memory assignment: `prepare_context_mm` maps one page of each of
    three segments, and `cleanup_context_mm` takes the tables down again, from
    the pages up, one level of all three walks at a time. */
module EagerMemory {
  import opened Basics
  import opened PageWalk
  import opened Paging

  /** Every node is on the way to one of the pages, and those are all mapped. */
  ghost predicate Covers(m: Memory, root: nat, pages: set<nat>) {
    && (forall d: nat, x: nat :: IsNode(m, root, d, x) && d > 0 ==> IsPrefixOfOne(d, x, pages))
    && (forall p | p in pages :: p < PAGES && FrameOf(m, root, p).Some?)
  }

  ghost predicate IsPrefixOfOne(d: nat, x: nat, pages: set<nat>) {
    d <= 4 && exists p :: p in pages && Prefix(p, d) == x
  }

  // ----- taking the tables down

  /** Frame `f` is that of a node below depth `d`, or at depth `d` and in `done`. */
  ghost predicate Gone(m: Memory, root: nat, d: nat, done: set<nat>, f: nat) {
    exists k: nat, x: nat :: IsNode(m, root, k, x) && Node(m, root, k, x).value == f && (k > d || (k == d && x in done))
  }

  /** The pass over depth `d` has dealt with the nodes in `done`: their frames and
      those of all deeper nodes are free, and nothing else is; the tables above
      depth `d` are as they were, except that the entries to freed tables are zero. */
  ghost predicate Stage(m0: Memory, used0: set<nat>, m: Memory, used: set<nat>, root: nat, d: nat, done: set<nat>) {
    && 1 <= d <= 4
    && (forall k: nat, x: nat | k < d :: Node(m, root, k, x) == Node(m0, root, k, x))
    && (forall k: nat, x: nat | 1 <= k < d :: EntryAt(m, root, k, x) == EntryAt(m0, root, k, x))
    && (forall x: nat :: EntryAt(m, root, d, x) == if d < 4 && x in done then ZERO else EntryAt(m0, root, d, x))
    && (forall f :: f in used <==> f in used0 && !Gone(m0, root, d, done, f))
  }

  /** A table above the pass is still allocated: the pass may read it. */
  lemma UpperTablesStay(m0: Memory, used0: set<nat>, m: Memory, used: set<nat>, root: nat, d: nat, done: set<nat>, k: nat, x: nat)
    requires Tree(m0, root, used0) && Stage(m0, used0, m, used, root, d, done)
    requires k < d && IsNode(m0, root, k, x)
    ensures Node(m0, root, k, x).value in used && Node(m0, root, k, x).value < MEM_FRAMES
  {
    var f := Node(m0, root, k, x).value;
    if Gone(m0, root, d, done, f) {
      var k': nat, x': nat :| IsNode(m0, root, k', x') && Node(m0, root, k', x').value == f
        && (k' > d || (k' == d && x' in done));
      assert false;
    }
  }

  lemma RootNode(m: Memory, root: nat)
    ensures Node(m, root, 0, 0) == Some(root)
  {
  }

  /** On the way to a page the tables above the pass can be read and hold what
      they held before. */
  lemma ReadableOnPath(m0: Memory, used0: set<nat>, m: Memory, used: set<nat>, root: nat, d: nat, done: set<nat>, p: nat, k: nat)
    requires Tree(m0, root, used0) && Stage(m0, used0, m, used, root, d, done) && 1 <= k < d
    requires FrameOf(m0, root, p).Some?
    ensures IsNode(m0, root, k - 1, Prefix(p, k - 1)) && IsNode(m0, root, k, Prefix(p, k))
    ensures var t := Node(m0, root, k - 1, Prefix(p, k - 1)).value;
            && t in used && t < MEM_FRAMES
            && EntryIn(m, t, Prefix(p, k) % ENTRIES).frame == Node(m0, root, k, Prefix(p, k)).value < MEM_FRAMES
  {
    PrefixStep(p, k);
    WalkIsPresent(m0, root, p, k);
    WalkIsPresent(m0, root, p, k - 1);
    UpperTablesStay(m0, used0, m, used, root, d, done, k - 1, Prefix(p, k - 1));
    assert EntryAt(m, root, k, Prefix(p, k)) == EntryAt(m0, root, k, Prefix(p, k));
    assert Node(m, root, k - 1, Prefix(p, k - 1)) == Node(m0, root, k - 1, Prefix(p, k - 1));
  }

  /** A node the pass has not dealt with yet is still allocated. */
  lemma PendingNodeStays(m0: Memory, used0: set<nat>, m: Memory, used: set<nat>, root: nat, d: nat, done: set<nat>, x: nat)
    requires Tree(m0, root, used0) && Stage(m0, used0, m, used, root, d, done)
    requires IsNode(m0, root, d, x) && x !in done
    ensures Node(m0, root, d, x).value in used
  {
    var f := Node(m0, root, d, x).value;
    if Gone(m0, root, d, done, f) {
      var k': nat, x': nat :| IsNode(m0, root, k', x') && Node(m0, root, k', x').value == f
        && (k' > d || (k' == d && x' in done));
      assert false;
    }
  }

  /** The entry that the pass looks at: its table can be read, and the entry leads
      to a frame that is still allocated, unless the pass has cleared it. */
  lemma TableOfPass(m0: Memory, used0: set<nat>, m: Memory, used: set<nat>, root: nat, d: nat, done: set<nat>, p: nat)
    requires Tree(m0, root, used0) && Stage(m0, used0, m, used, root, d, done) && 1 <= d <= 4
    requires FrameOf(m0, root, p).Some?
    ensures IsNode(m0, root, d, Prefix(p, d)) && IsNode(m0, root, d - 1, Prefix(p, d - 1))
    ensures Prefix(p, d) / ENTRIES == Prefix(p, d - 1)
    ensures var t, x := Node(m0, root, d - 1, Prefix(p, d - 1)).value, Prefix(p, d);
            && t in used && t < MEM_FRAMES && t != Node(m0, root, d, x).value
            && if d < 4 && x in done then EntryIn(m, t, x % ENTRIES) == ZERO
               else EntryIn(m, t, x % ENTRIES).present && EntryIn(m, t, x % ENTRIES).frame == Node(m0, root, d, x).value
  {
    var x := Prefix(p, d);
    PrefixStep(p, d);
    WalkIsPresent(m0, root, p, d);
    WalkIsPresent(m0, root, p, d - 1);
    UpperTablesStay(m0, used0, m, used, root, d, done, d - 1, Prefix(p, d - 1));
    assert Node(m, root, d - 1, x / ENTRIES) == Node(m0, root, d - 1, x / ENTRIES);
    assert EntryAt(m, root, d, x) == if d < 4 && x in done then ZERO else EntryAt(m0, root, d, x);
  }

  lemma FreeingOneMore(m0: Memory, used0: set<nat>, root: nat, d: nat, done: set<nat>, x: nat, f: nat)
    requires Tree(m0, root, used0) && IsNode(m0, root, d, x)
    ensures Gone(m0, root, d, done + {x}, f) <==> Gone(m0, root, d, done, f) || f == Node(m0, root, d, x).value
  {
    if Gone(m0, root, d, done + {x}, f) {
      var k': nat, x': nat :| IsNode(m0, root, k', x') && Node(m0, root, k', x').value == f
        && (k' > d || (k' == d && x' in done + {x}));
      assert k' > d || x' in done || x' == x;
    }
    if Gone(m0, root, d, done, f) {
      var k': nat, x': nat :| IsNode(m0, root, k', x') && Node(m0, root, k', x').value == f
        && (k' > d || (k' == d && x' in done));
    }
    assert Node(m0, root, d, x).value == f ==> IsNode(m0, root, d, x) && x in done + {x};
  }

  ghost function Prefixes(pages: set<nat>, d: nat): set<nat>
    requires d <= 4
  {
    set p | p in pages :: Prefix(p, d)
  }

  /** When all nodes of a depth are done the next pass starts with none done. */
  lemma NextStage(m0: Memory, used0: set<nat>, m: Memory, used: set<nat>, root: nat, d: nat, pages: set<nat>)
    requires Covers(m0, root, pages) && 2 <= d <= 4
    requires Stage(m0, used0, m, used, root, d, Prefixes(pages, d))
    ensures Stage(m0, used0, m, used, root, d - 1, {})
  {
    var done := Prefixes(pages, d);
    forall f
      ensures Gone(m0, root, d, done, f) <==> Gone(m0, root, d - 1, {}, f)
    {
      if Gone(m0, root, d, done, f) {
        var k: nat, x: nat :| IsNode(m0, root, k, x) && Node(m0, root, k, x).value == f && (k > d || (k == d && x in done));
        assert k > d - 1;
      }
      if Gone(m0, root, d - 1, {}, f) {
        var k: nat, x: nat :| IsNode(m0, root, k, x) && Node(m0, root, k, x).value == f && k > d - 1;
        assert IsPrefixOfOne(k, x, pages);
        assert k == d ==> x in done;
      }
    }
  }

  /** Clearing an entry of depth `d` leaves the walk down to its table as it is. */
  lemma {:induction false} UpperNodesKept(m0: Memory, m: Memory, m': Memory, root: nat, d: nat, y: nat, k: nat, x: nat)
    requires NodesDistinct(m0, root) && 1 <= d <= 4 && k < d
    requires forall k: nat, x: nat | k < d :: Node(m, root, k, x) == Node(m0, root, k, x)
    requires IsNode(m0, root, d - 1, y / ENTRIES) && Node(m0, root, d - 1, y / ENTRIES).value < MEM_FRAMES
    requires m' == SetEntry(m, Node(m0, root, d - 1, y / ENTRIES).value, y % ENTRIES, ZERO)
    ensures Node(m', root, k, x) == Node(m, root, k, x)
    ensures k > 0 ==> EntryAt(m', root, k, x) == EntryAt(m, root, k, x)
    decreases k
  {
    if k > 0 {
      UpperNodesKept(m0, m, m', root, d, y, k - 1, x / ENTRIES);
      if IsNode(m0, root, k - 1, x / ENTRIES) {
        assert Node(m, root, k - 1, x / ENTRIES) == Node(m0, root, k - 1, x / ENTRIES);
        assert Node(m0, root, k - 1, x / ENTRIES) != Node(m0, root, d - 1, y / ENTRIES);
      }
    }
  }

  /** ... and of the entries at depth `d` it changes that one only. */
  lemma ClearingOneEntry(m0: Memory, m: Memory, m': Memory, root: nat, d: nat, y: nat, x: nat)
    requires NodesDistinct(m0, root) && 1 <= d <= 4
    requires forall k: nat, x: nat | k < d :: Node(m, root, k, x) == Node(m0, root, k, x)
    requires IsNode(m0, root, d - 1, y / ENTRIES) && Node(m0, root, d - 1, y / ENTRIES).value < MEM_FRAMES
    requires m' == SetEntry(m, Node(m0, root, d - 1, y / ENTRIES).value, y % ENTRIES, ZERO)
    ensures EntryAt(m', root, d, x) == if x == y then ZERO else EntryAt(m, root, d, x)
  {
    UpperNodesKept(m0, m, m', root, d, y, d - 1, x / ENTRIES);
    assert Node(m, root, d - 1, x / ENTRIES) == Node(m0, root, d - 1, x / ENTRIES);
    if x / ENTRIES != y / ENTRIES && IsNode(m0, root, d - 1, x / ENTRIES) {
      assert Node(m0, root, d - 1, x / ENTRIES) != Node(m0, root, d - 1, y / ENTRIES);
    }
  }

  lemma ClearingAdvances(m0: Memory, used0: set<nat>, m: Memory, used: set<nat>, m': Memory, used': set<nat>,
                         root: nat, d: nat, done: set<nat>, y: nat)
    requires Tree(m0, root, used0) && Stage(m0, used0, m, used, root, d, done)
    requires d < 4 && IsNode(m0, root, d, y) && IsNode(m0, root, d - 1, y / ENTRIES)
    requires Node(m0, root, d - 1, y / ENTRIES).value < MEM_FRAMES
    requires m' == SetEntry(m, Node(m0, root, d - 1, y / ENTRIES).value, y % ENTRIES, ZERO)
    requires used' == used - {Node(m0, root, d, y).value}
    ensures Stage(m0, used0, m', used', root, d, done + {y})
  {
    forall k: nat, x: nat | k < d
      ensures Node(m', root, k, x) == Node(m0, root, k, x)
      ensures k > 0 ==> EntryAt(m', root, k, x) == EntryAt(m0, root, k, x)
    {
      UpperNodesKept(m0, m, m', root, d, y, k, x);
    }
    forall x: nat
      ensures EntryAt(m', root, d, x) == if x in done + {y} then ZERO else EntryAt(m0, root, d, x)
    {
      assert EntryAt(m, root, d, x) == if x in done then ZERO else EntryAt(m0, root, d, x);
      ClearingOneEntry(m0, m, m', root, d, y, x);
    }
    forall f
      ensures f in used' <==> f in used0 && !Gone(m0, root, d, done + {y}, f)
    {
      FreeingOneMore(m0, used0, root, d, done, y, f);
    }
  }

  lemma FreeingPageAdvances(m0: Memory, used0: set<nat>, m: Memory, used: set<nat>, used': set<nat>, root: nat, done: set<nat>, p: nat)
    requires Tree(m0, root, used0) && Stage(m0, used0, m, used, root, 4, done) && IsNode(m0, root, 4, p)
    requires used' == used - {Node(m0, root, 4, p).value}
    ensures Stage(m0, used0, m, used', root, 4, done + {p})
  {
    forall f
      ensures f in used' <==> f in used0 && !Gone(m0, root, 4, done + {p}, f)
    {
      FreeingOneMore(m0, used0, root, 4, done, p, f);
    }
  }

  // ----- which frames an address space holds

  ghost predicate IsNodeFrame(m: Memory, root: nat, f: nat) {
    exists d: nat, x: nat :: IsNode(m, root, d, x) && Node(m, root, d, x).value == f
  }

  /** The frames in use are those of `before` and those of the tree, which come
      from free frames, apart from the page that was passed in. */
  ghost predicate Accounts(m: Memory, root: nat, before: set<nat>, used: set<nat>, arg_pfn: nat) {
    && (forall f :: f in used <==> f in before || IsNodeFrame(m, root, f))
    && (forall d: nat, x: nat | IsNode(m, root, d, x) ::
          Node(m, root, d, x).value !in before || Node(m, root, d, x).value == arg_pfn)
  }

  lemma EmptyRoot(m: Memory, root: nat, before: set<nat>, used: set<nat>, arg_pfn: nat)
    requires IsPtFrame(root) && m[root] == ZeroTable() && root !in before && used == before + {root}
    ensures Tree(m, root, used) && Covers(m, root, {}) && Accounts(m, root, before, used, arg_pfn)
    ensures forall q: nat :: FrameOf(m, root, q) == None
  {
    EmptyTree(m, root, used);
    assert IsNode(m, root, 0, 0);
  }

  lemma PathKeepsCover(m: Memory, m': Memory, root: nat, p: nat, used: set<nat>, used': set<nat>, leaf: Option<nat>, pages: set<nat>)
    requires PathGrew(m, m', root, p, 4, used, used', leaf) && Covers(m, root, pages)
    requires p < PAGES && FrameOf(m', root, p).Some?
    requires forall q: nat | q != p :: SamePage(m, m', root, q)
    ensures Covers(m', root, pages + {p})
  {
    forall d: nat, x: nat | IsNode(m', root, d, x) && d > 0
      ensures IsPrefixOfOne(d, x, pages + {p})
    {
      if x != Prefix(p, d) {
        assert IsNode(m, root, d, x);
        assert IsPrefixOfOne(d, x, pages);
      }
    }
    forall q | q in pages + {p}
      ensures q < PAGES && FrameOf(m', root, q).Some?
    {
      assert q != p ==> SamePage(m, m', root, q);
    }
  }

  lemma PathNodes(m: Memory, m': Memory, root: nat, p: nat, used: set<nat>, used': set<nat>, leaf: Option<nat>, d: nat, x: nat)
    requires PathGrew(m, m', root, p, 4, used, used', leaf) && d <= 4
    ensures IsNode(m, root, d, x) ==> Node(m', root, d, x) == Node(m, root, d, x)
    ensures IsNode(m', root, d, x) && !IsNode(m, root, d, x) ==>
              Node(m', root, d, x).value !in used || (d == 4 && Node(m', root, d, x) == leaf)
  {
    if 1 <= d && x == Prefix(p, d) {
      assert OnPath(m, m', root, d, x, used, leaf);
    }
  }

  lemma PathKeepsAccounts(m: Memory, m': Memory, root: nat, p: nat, before: set<nat>, used: set<nat>, used': set<nat>,
                          leaf: Option<nat>, arg_pfn: nat)
    requires PathGrew(m, m', root, p, 4, used, used', leaf) && Accounts(m, root, before, used, arg_pfn)
    requires Tree(m', root, used') && (leaf.Some? ==> leaf.value == arg_pfn)
    ensures Accounts(m', root, before, used', arg_pfn)
  {
    forall d: nat, x: nat | IsNode(m', root, d, x)
      ensures Node(m', root, d, x).value !in before || Node(m', root, d, x).value == arg_pfn
    {
      PathNodes(m, m', root, p, used, used', leaf, d, x);
    }
    forall f
      ensures f in used' <==> f in before || IsNodeFrame(m', root, f)
    {
      if f in used && f !in before {
        var d: nat, x: nat :| IsNode(m, root, d, x) && Node(m, root, d, x).value == f;
        PathNodes(m, m', root, p, used, used', leaf, d, x);
        assert IsNode(m', root, d, x);
      } else if f in used' && f !in used {
        var k: nat :| 1 <= k <= 4 && Node(m', root, k, Prefix(p, k)) == Some(f);
        assert IsNode(m', root, k, Prefix(p, k));
      }
      if IsNodeFrame(m', root, f) {
        var d: nat, x: nat :| IsNode(m', root, d, x) && Node(m', root, d, x).value == f;
      }
    }
  }

  // ----- the two functions of the source

  /** `struct mm_segment` of the first assignment. */
  datatype Segment = Segment(start: nat, end: nat, access_flags: nat)

  class Context {
    const machine: Machine
    const code: Segment
    const data: Segment
    const stack: Segment
    const arg_pfn: nat
    var pgd: nat

    constructor (machine: Machine, code: Segment, data: Segment, stack: Segment, arg_pfn: nat)
      ensures this.machine == machine && this.arg_pfn == arg_pfn
      ensures this.code == code && this.data == data && this.stack == stack
    {
      this.machine, this.arg_pfn, this.pgd := machine, arg_pfn, 0;
      this.code, this.data, this.stack := code, data, stack;
    }

    /** The address of the one page of a segment: its first, or the stack's last. */
    function Address(c: char): int {
      if c == 'c' then code.start else if c == 'd' then data.start else stack.end - 0x1000
    }

    ghost predicate Addresses() {
      && 0 <= Address('c') < VA_LIMIT && 0 <= Address('d') < VA_LIMIT && 0 <= Address('s') < VA_LIMIT
      && PageOf(Address('c')) != PageOf(Address('d')) && PageOf(Address('c')) != PageOf(Address('s'))
      && PageOf(Address('d')) != PageOf(Address('s'))
    }

    ghost function Page(c: char): nat
      requires Addresses() && c in {'c', 'd', 's'}
    {
      PageOf(Address(c))
    }

    ghost function Pages(): set<nat>
      requires Addresses()
    {
      {Page('c'), Page('d'), Page('s')}
    }

    /** The address space that `prepare_context_mm` promises. */
    ghost predicate Prepared()
      requires machine.Valid() && Addresses()
      reads this, machine, machine.mem
    {
      && machine.IsTree(pgd) && Covers(machine.Mem(), pgd, Pages())
      && FrameOf(machine.Mem(), pgd, Page('d')) == Some(arg_pfn)
      && (Writable(machine.Mem(), pgd, Page('c')) <==> AllowsWrite(code.access_flags))
      && (Writable(machine.Mem(), pgd, Page('d')) <==> AllowsWrite(data.access_flags))
      && (Writable(machine.Mem(), pgd, Page('s')) <==> AllowsWrite(stack.access_flags))
    }

    /** `prepare_context_mm`. */
    method Prepare()
      requires machine.Valid() && Addresses() && |machine.FreePt()| >= 10 && |machine.FreeUser()| >= 2
      requires arg_pfn in machine.used && IsUserFrame(arg_pfn)
      modifies this, machine, machine.mem
      ensures Prepared() && Accounts(machine.Mem(), pgd, old(machine.used), machine.used, arg_pfn)
      ensures FrameOf(machine.Mem(), pgd, PageOf(data.start)) == Some(arg_pfn)
      ensures IsMappedFresh(PageOf(code.start), old(machine.used)) && IsMappedFresh(PageOf(stack.end - 0x1000), old(machine.used))
      ensures Writable(machine.Mem(), pgd, PageOf(code.start)) <==> AllowsWrite(code.access_flags)
      ensures Writable(machine.Mem(), pgd, PageOf(data.start)) <==> AllowsWrite(data.access_flags)
      ensures Writable(machine.Mem(), pgd, PageOf(stack.end - 0x1000)) <==> AllowsWrite(stack.access_flags)
      ensures forall q: nat | q != PageOf(code.start) && q != PageOf(data.start) && q != PageOf(stack.end - 0x1000) ::
                FrameOf(machine.Mem(), pgd, q) == None
    {
      hide Tree, Covers, Accounts;
      ghost var before := machine.used;
      NewRoot();
      MapSegment('c', before, {});
      ghost var m1 := machine.Mem();
      assert {} + {Page('c')} == {Page('c')};
      ArgIsNotMapped(m1, before);
      MapSegment('d', before, {Page('c')});
      ghost var m2 := machine.Mem();
      assert {Page('c')} + {Page('d')} == {Page('c'), Page('d')};
      MapSegment('s', before, {Page('c'), Page('d')});
      assert {Page('c'), Page('d')} + {Page('s')} == Pages();
      assert SamePage(m1, m2, pgd, Page('c')) && SamePage(m2, machine.Mem(), pgd, Page('c'));
      assert SamePage(m2, machine.Mem(), pgd, Page('d'));
      forall q: nat | q !in Pages()
        ensures FrameOf(machine.Mem(), pgd, q) == None
      {
        NotCoveredIsNotMapped(machine.Mem(), pgd, Pages(), q);
      }
    }

    /** Page `p` is mapped to a frame that was free. */
    ghost predicate IsMappedFresh(p: nat, before: set<nat>)
      requires machine.Valid()
      reads this, machine, machine.mem
    {
      FrameOf(machine.Mem(), pgd, p).Some? && FrameOf(machine.Mem(), pgd, p).value !in before
    }

    method NewRoot()
      requires machine.Valid() && Addresses() && machine.FreePt() != {}
      modifies this, machine, machine.mem
      ensures machine.IsTree(pgd) && Covers(machine.Mem(), pgd, {})
      ensures Accounts(machine.Mem(), pgd, old(machine.used), machine.used, arg_pfn)
      ensures |machine.FreePt()| >= old(|machine.FreePt()|) - 1 && machine.FreeUser() == old(machine.FreeUser())
    {
      ghost var before := machine.used;
      pgd := machine.AllocPt();
      machine.ClearTable(pgd);
      EmptyRoot(machine.Mem(), pgd, before, machine.used, arg_pfn);
    }

    /** The data page can be mapped: the page passed in is not in the tree yet. */
    lemma ArgIsNotMapped(m: Memory, before: set<nat>)
      requires Addresses() && Covers(m, pgd, {Page('c')})
      requires FrameOf(m, pgd, Page('c')).Some? && FrameOf(m, pgd, Page('c')).value !in before && arg_pfn in before
      ensures !IsMapped(m, pgd, arg_pfn)
    {
      forall q: nat
        ensures FrameOf(m, pgd, q) != Some(arg_pfn)
      {
        assert IsNode(m, pgd, 4, q) ==> IsPrefixOfOne(4, q, {Page('c')});
      }
    }

    /** `allocate(c, l4, segment, arg_pfn)` on an address space that maps `pages`. */
    method MapSegment(c: char, ghost before: set<nat>, ghost pages: set<nat>)
      requires machine.Valid() && Addresses() && c in {'c', 'd', 's'} && Page(c) !in pages
      requires machine.IsTree(pgd) && Covers(machine.Mem(), pgd, pages)
      requires Accounts(machine.Mem(), pgd, before, machine.used, arg_pfn)
      requires |machine.FreePt()| >= 3 && (c != 'd' ==> machine.FreeUser() != {})
      requires c == 'd' ==> arg_pfn in before && IsUserFrame(arg_pfn) && !IsMapped(machine.Mem(), pgd, arg_pfn)
      modifies machine, machine.mem
      ensures machine.IsTree(pgd) && Covers(machine.Mem(), pgd, pages + {Page(c)})
      ensures Accounts(machine.Mem(), pgd, before, machine.used, arg_pfn)
      ensures |machine.FreePt()| >= old(|machine.FreePt()|) - 3
      ensures |machine.FreeUser()| >= old(|machine.FreeUser()|) - if c == 'd' then 0 else 1
      ensures forall q: nat | q != Page(c) :: SamePage(old(machine.Mem()), machine.Mem(), pgd, q)
      ensures FrameOf(machine.Mem(), pgd, Page(c)).Some?
      ensures if c == 'd' then FrameOf(machine.Mem(), pgd, Page(c)) == Some(arg_pfn)
              else FrameOf(machine.Mem(), pgd, Page(c)).value !in before
      ensures Writable(machine.Mem(), pgd, Page(c)) <==>
              AllowsWrite((if c == 'c' then code else if c == 'd' then data else stack).access_flags)
    {
      ghost var m, u := machine.Mem(), machine.used;
      NotCoveredIsNotMapped(m, pgd, pages, Page(c));
      var leaf := if c == 'd' then Some(arg_pfn) else None;
      var flag := AllowsWrite((if c == 'c' then code else if c == 'd' then data else stack).access_flags);
      machine.Allocate(pgd, Address(c), flag, leaf);
      PathKeepsCover(m, machine.Mem(), pgd, Page(c), u, machine.used, leaf, pages);
      PathKeepsAccounts(m, machine.Mem(), pgd, Page(c), before, u, machine.used, leaf, arg_pfn);
    }

    /** One call of `free_memory`: the walk of one segment's page down to level
        `lower`, where the frame it arrives at is freed. Every table that it reads
        is still allocated, and so is the frame that it frees. */
    method FreeMemory(c: char, lower: nat, ghost m0: Memory, ghost used0: set<nat>, ghost done: set<nat>)
      requires machine.Valid() && Addresses() && c in {'c', 'd', 's'} && 1 <= lower <= 4
      requires Tree(m0, pgd, used0) && FrameOf(m0, pgd, Page(c)).Some?
      requires c == 'd' ==> FrameOf(m0, pgd, Page(c)) == Some(arg_pfn)
      requires Stage(m0, used0, machine.Mem(), machine.used, pgd, 5 - lower, done)
      requires lower == 1 ==> Page(c) !in done
      modifies machine, machine.mem
      ensures Stage(m0, used0, machine.Mem(), machine.used, pgd, 5 - lower, done + {Prefix(Page(c), 5 - lower)})
    {
      hide Stage, Tree, Node, EntryAt;
      var va := Address(c);
      ghost var p, d := Page(c), 5 - lower;
      ghost var x := Prefix(p, d);
      ghost var m, u := machine.Mem(), machine.used;
      var table := WalkTo(va, lower, m0, used0, done);
      IndexIsPrefix(va, lower);
      TableOfPass(m0, used0, m, u, pgd, d, done, p);
      if lower == 1 {
        PendingNodeStays(m0, used0, m, u, pgd, 4, done, p);
        FreeingPageAdvances(m0, used0, m, u, u - {Node(m0, pgd, 4, p).value}, pgd, done, p);
        if c == 's' || c == 'c' {
          var e := machine.Load(table, Index(va, 1));
          machine.Free(e.frame);
        } else {
          machine.Free(arg_pfn);
        }
      } else {
        var e := machine.Load(table, Index(va, lower));
        if e.present {
          PendingNodeStays(m0, used0, m, u, pgd, d, done, x);
          machine.Free(e.frame);
          machine.Store(table, Index(va, lower), ZERO);
          ClearingAdvances(m0, used0, m, u, machine.Mem(), machine.used, pgd, d, done, x);
        } else {
          assert done + {x} == done;
        }
      }
    }

    /** The part of `free_memory` above level `lower`. */
    method WalkTo(va: nat, lower: nat, ghost m0: Memory, ghost used0: set<nat>, ghost done: set<nat>) returns (table: nat)
      requires machine.Valid() && va < VA_LIMIT && 1 <= lower <= 4
      requires Tree(m0, pgd, used0) && FrameOf(m0, pgd, PageOf(va)).Some?
      requires Stage(m0, used0, machine.Mem(), machine.used, pgd, 5 - lower, done)
      ensures Node(m0, pgd, 4 - lower, Prefix(PageOf(va), 4 - lower)) == Some(table)
    {
      hide Stage, Tree, Node;
      ghost var p := PageOf(va);
      table := pgd;
      var level := 4;
      IndexIsPrefix(va, 4);
      RootNode(m0, pgd);
      PrefixStep(p, 1);
      while level > lower
        invariant lower <= level <= 4
        invariant Node(m0, pgd, 4 - level, Prefix(p, 4 - level)) == Some(table)
      {
        IndexIsPrefix(va, level);
        ReadableOnPath(m0, used0, machine.Mem(), machine.used, pgd, 5 - lower, done, p, 5 - level);
        var e := machine.Load(table, Index(va, level));
        table := e.frame % 0x1_0000_0000;
        level := level - 1;
      }
    }

    /** One pass of `cleanup_context_mm` over the three segments. */
    method FreeLevel(lower: nat, ghost m0: Memory, ghost used0: set<nat>)
      requires machine.Valid() && Addresses() && 1 <= lower <= 4
      requires Tree(m0, pgd, used0) && Covers(m0, pgd, Pages()) && FrameOf(m0, pgd, Page('d')) == Some(arg_pfn)
      requires Stage(m0, used0, machine.Mem(), machine.used, pgd, 5 - lower, {})
      modifies machine, machine.mem
      ensures Stage(m0, used0, machine.Mem(), machine.used, pgd, 5 - lower, Prefixes(Pages(), 5 - lower))
    {
      hide Stage, Tree;
      ghost var d, s, c, t := 5 - lower, Page('s'), Page('c'), Page('d');
      FreeMemory('s', lower, m0, used0, {});
      FreeMemory('c', lower, m0, used0, {} + {Prefix(s, d)});
      FreeMemory('d', lower, m0, used0, {} + {Prefix(s, d)} + {Prefix(c, d)});
      assert {} + {Prefix(s, d)} + {Prefix(c, d)} + {Prefix(t, d)} == Prefixes(Pages(), d);
    }

    /** `cleanup_context_mm`: exactly the frames of the tree are freed. */
    method Cleanup()
      requires machine.Valid() && Addresses() && Prepared()
      modifies machine, machine.mem
      ensures forall f :: f in machine.used <==> f in old(machine.used) && !IsNodeFrame(old(machine.Mem()), pgd, f)
    {
      hide Stage, Tree, Covers;
      ghost var m0, used0 := machine.Mem(), machine.used;
      NothingGoneYet(m0, used0, pgd);
      var i := 1;
      while i <= 4
        invariant 1 <= i <= 5
        invariant i <= 4 ==> Stage(m0, used0, machine.Mem(), machine.used, pgd, 5 - i, {})
        invariant i == 5 ==> Stage(m0, used0, machine.Mem(), machine.used, pgd, 1, Prefixes(Pages(), 1))
      {
        FreeLevel(i, m0, used0);
        if i < 4 {
          NextStage(m0, used0, machine.Mem(), machine.used, pgd, 5 - i, Pages());
        }
        i := i + 1;
      }
      RootIsLast(m0, used0, machine.Mem(), machine.used, pgd, Pages());
      machine.Free(pgd);
    }

    /** Preparing a context and cleaning it up leaves every frame as it was, apart
        from the page that was passed in, which is free afterwards. */
    method PrepareThenCleanup()
      requires machine.Valid() && Addresses() && |machine.FreePt()| >= 10 && |machine.FreeUser()| >= 2
      requires arg_pfn in machine.used && IsUserFrame(arg_pfn)
      modifies this, machine, machine.mem
      ensures machine.used == old(machine.used) - {arg_pfn}
    {
      hide Tree, Covers, Accounts;
      Prepare();
      ghost var m, used := machine.Mem(), machine.used;
      Cleanup();
      AccountsBalance(m, pgd, old(machine.used), used, machine.used, arg_pfn, Page('d'));
    }
  }

  lemma NotCoveredIsNotMapped(m: Memory, root: nat, pages: set<nat>, p: nat)
    requires Covers(m, root, pages) && p !in pages
    ensures FrameOf(m, root, p) == None
  {
    assert IsNode(m, root, 4, p) ==> IsPrefixOfOne(4, p, pages);
  }

  lemma AccountsBalance(m: Memory, root: nat, before: set<nat>, used: set<nat>, used': set<nat>, arg_pfn: nat, p: nat)
    requires Accounts(m, root, before, used, arg_pfn) && FrameOf(m, root, p) == Some(arg_pfn)
    requires forall f :: f in used' <==> f in used && !IsNodeFrame(m, root, f)
    ensures used' == before - {arg_pfn}
  {
    assert IsNode(m, root, 4, p);
    assert IsNodeFrame(m, root, arg_pfn);
    forall f | f in before && f != arg_pfn
      ensures !IsNodeFrame(m, root, f)
    {
    }
  }

  lemma NothingGoneYet(m: Memory, used: set<nat>, root: nat)
    requires Tree(m, root, used)
    ensures Stage(m, used, m, used, root, 4, {})
  {
    assert forall f :: !Gone(m, root, 4, {}, f);
  }

  lemma RootIsLast(m0: Memory, used0: set<nat>, m: Memory, used: set<nat>, root: nat, pages: set<nat>)
    requires Tree(m0, root, used0) && Covers(m0, root, pages)
    requires Stage(m0, used0, m, used, root, 1, Prefixes(pages, 1))
    ensures root in used
    ensures forall f :: f in used - {root} <==> f in used0 && !IsNodeFrame(m0, root, f)
  {
    assert IsNode(m0, root, 0, 0);
    forall f
      ensures IsNodeFrame(m0, root, f) <==> Gone(m0, root, 1, Prefixes(pages, 1), f) || f == root
    {
      if IsNodeFrame(m0, root, f) && f != root {
        var d: nat, x: nat :| IsNode(m0, root, d, x) && Node(m0, root, d, x).value == f;
        assert d > 0 && IsPrefixOfOne(d, x, pages);
        assert d == 1 ==> x in Prefixes(pages, 1);
      }
    }
    assert forall k: nat, x: nat | IsNode(m0, root, k, x) && Node(m0, root, k, x).value == root :: k == 0;
  }
}
