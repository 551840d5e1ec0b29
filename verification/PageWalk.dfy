/** Four-level page tables held in physical frames, as the hardware walks them
    (4-level paging, Intel 64 SDM volume 3A). A table of depth `d` is reached by
    the `d` highest 9-bit indices of a page number; depth 4 is the page itself. */
module PageWalk {
  import opened Basics

  /** A 64-bit entry: bits 12 and up, and the flag bits 0 (present), 1 (write)
      and 2 (user). */
  datatype Entry = Entry(frame: nat, present: bool, write: bool, user: bool)

  const ZERO := Entry(0, false, false, false)

  const ENTRIES := 512
  const MEM_FRAMES := 0x2_0000
  const PT_START := 0x2000
  const USER_START := 0x6400
  const PAGES := 0x10_0000_0000

  type Table = t: seq<Entry> | |t| == ENTRIES witness seq(ENTRIES, _ => ZERO)
  type Memory = m: seq<Table> | |m| == MEM_FRAMES witness seq(MEM_FRAMES, _ => seq(ENTRIES, _ => ZERO))

  function ZeroTable(): Table {
    seq(ENTRIES, _ => ZERO)
  }

  predicate IsPtFrame(f: nat) {
    PT_START <= f < USER_START
  }

  predicate IsUserFrame(f: nat) {
    USER_START <= f < MEM_FRAMES
  }

  function EntryIn(m: Memory, f: nat, i: nat): Entry
    requires i < ENTRIES
  {
    if f < MEM_FRAMES then m[f][i] else ZERO
  }

  /** The frame that the walk along `x` reaches at depth `d`. */
  function Node(m: Memory, root: nat, d: nat, x: nat): Option<nat> {
    if d == 0 then (if x == 0 then Some(root) else None)
    else
      match Node(m, root, d - 1, x / ENTRIES)
      case None => None
      case Some(f) =>
        var e := EntryIn(m, f, x % ENTRIES);
        if e.present then Some(e.frame) else None
  }

  /** The entry that leads to the node at depth `d`, if its table exists. */
  function EntryAt(m: Memory, root: nat, d: nat, x: nat): Entry
    requires d > 0
  {
    match Node(m, root, d - 1, x / ENTRIES)
    case None => ZERO
    case Some(f) => EntryIn(m, f, x % ENTRIES)
  }

  /** The indices of page `p` down to depth `d`. */
  function Prefix(p: nat, d: nat): nat
    requires d <= 4
  {
    if d == 4 then p else if d == 3 then p / 0x200 else if d == 2 then p / 0x4_0000 else if d == 1 then p / 0x800_0000
    else p / 0x10_0000_0000
  }

  lemma PrefixStep(p: nat, d: nat)
    requires 0 < d <= 4
    ensures Prefix(p, d) / ENTRIES == Prefix(p, d - 1)
    ensures p < PAGES ==> Prefix(p, 0) == 0
  {
  }

  // ----- what a walk means

  /** The frame of page `p`. */
  function FrameOf(m: Memory, root: nat, p: nat): Option<nat> {
    Node(m, root, 4, p)
  }

  /** A write to page `p` is allowed: the write flag is set on all four levels. */
  predicate Writable(m: Memory, root: nat, p: nat) {
    && EntryAt(m, root, 4, Prefix(p, 4)).write && EntryAt(m, root, 3, Prefix(p, 3)).write
    && EntryAt(m, root, 2, Prefix(p, 2)).write && EntryAt(m, root, 1, Prefix(p, 1)).write
  }

  // ----- the tables form a tree

  ghost predicate IsNode(m: Memory, root: nat, d: nat, x: nat) {
    d <= 4 && Node(m, root, d, x).Some?
  }

  /** Tables are allocated page-table frames and pages allocated user frames. */
  ghost predicate NodesAllocated(m: Memory, root: nat, used: set<nat>) {
    forall d: nat, x: nat :: IsNode(m, root, d, x) ==>
      var f := Node(m, root, d, x).value;
      f in used && if d < 4 then IsPtFrame(f) else IsUserFrame(f)
  }

  /** No frame is reached twice. */
  ghost predicate NodesDistinct(m: Memory, root: nat) {
    forall d: nat, x: nat, d': nat, x': nat ::
      IsNode(m, root, d, x) && IsNode(m, root, d', x') && Node(m, root, d, x) == Node(m, root, d', x') ==>
        d == d' && x == x'
  }

  /** An entry that is not present is zero. */
  ghost predicate AbsentAreZero(m: Memory, root: nat) {
    forall d: nat, x: nat :: 0 < d <= 4 && !EntryAt(m, root, d, x).present ==> EntryAt(m, root, d, x) == ZERO
  }

  /** The tables above a writable page are writable. */
  ghost predicate WritableBelowWritable(m: Memory, root: nat) {
    forall p: nat :: FrameOf(m, root, p).Some? && EntryAt(m, root, 4, p).write ==> Writable(m, root, p)
  }

  /** User code may use every entry on the way to a page. */
  ghost predicate PresentAreUser(m: Memory, root: nat) {
    forall d: nat, x: nat :: 0 < d <= 4 && EntryAt(m, root, d, x).present ==> EntryAt(m, root, d, x).user
  }

  ghost predicate Tree(m: Memory, root: nat, used: set<nat>) {
    && NodesAllocated(m, root, used) && NodesDistinct(m, root)
    && AbsentAreZero(m, root) && PresentAreUser(m, root) && WritableBelowWritable(m, root)
  }

  /** Every entry on the way to a mapped page is present. */
  lemma {:induction false} WalkIsPresent(m: Memory, root: nat, p: nat, k: nat)
    requires FrameOf(m, root, p).Some? && k <= 4
    ensures IsNode(m, root, k, Prefix(p, k))
    ensures k > 0 ==> EntryAt(m, root, k, Prefix(p, k)).present
    decreases 4 - k
  {
    if k < 4 {
      WalkIsPresent(m, root, p, k + 1);
      PrefixStep(p, k + 1);
    }
    if k > 0 {
      PrefixStep(p, k);
    }
  }

  /** In a tree the flag of the last level decides whether a page is writable. */
  lemma WritableIsLastFlag(m: Memory, root: nat, used: set<nat>, p: nat)
    requires Tree(m, root, used)
    ensures Writable(m, root, p) <==> EntryAt(m, root, 4, p).write
    ensures Writable(m, root, p) ==> FrameOf(m, root, p).Some?
  {
  }

  lemma {:induction false} OnlyRoot(m: Memory, root: nat, d: nat, x: nat)
    requires IsPtFrame(root) && m[root] == ZeroTable() && d <= 4
    ensures IsNode(m, root, d, x) <==> d == 0 && x == 0
    ensures d > 0 ==> EntryAt(m, root, d, x) == ZERO
    decreases d
  {
    if d > 0 {
      OnlyRoot(m, root, d - 1, x / ENTRIES);
    }
  }

  /** A zeroed root maps nothing. */
  lemma EmptyTree(m: Memory, root: nat, used: set<nat>)
    requires IsPtFrame(root) && m[root] == ZeroTable() && root in used
    ensures Tree(m, root, used)
    ensures forall d: nat, x: nat :: IsNode(m, root, d, x) <==> d == 0 && x == 0
    ensures forall q: nat :: FrameOf(m, root, q) == None
  {
    forall d: nat, x: nat | d <= 4
      ensures IsNode(m, root, d, x) <==> d == 0 && x == 0
      ensures d > 0 ==> EntryAt(m, root, d, x) == ZERO
    {
      OnlyRoot(m, root, d, x);
    }
    forall q: nat
      ensures FrameOf(m, root, q) == None
    {
      OnlyRoot(m, root, 4, q);
    }
  }

  // ----- adding a child

  /** The memory after table entry `i` of frame `f` is set to `e`. */
  function SetEntry(m: Memory, f: nat, i: nat, e: Entry): Memory
    requires f < MEM_FRAMES && i < ENTRIES
  {
    m[f := m[f][i := e]]
  }

  function Cleared(m: Memory, a: nat): Memory
    requires a < MEM_FRAMES
  {
    m[a := ZeroTable()]
  }

  /** `m'` is `m` with the fresh frame `a` as the child at (`d`, `x`). */
  ghost predicate ChildAdded(m: Memory, m': Memory, root: nat, d: nat, x: nat, e: Entry) {
    && 0 < d <= 4 && IsNode(m, root, d - 1, x / ENTRIES) && !EntryAt(m, root, d, x).present
    && e.present && NodesDistinct(m, root)
    && (forall d': nat, x': nat | IsNode(m, root, d', x') :: Node(m, root, d', x').value != e.frame)
    && var f := Node(m, root, d - 1, x / ENTRIES).value;
       f < MEM_FRAMES && e.frame < MEM_FRAMES
       && m' == SetEntry(if d < 4 then Cleared(m, e.frame) else m, f, x % ENTRIES, e)
  }

  lemma {:induction false} AddedChildIsOneNode(m: Memory, m': Memory, root: nat, d: nat, x: nat, e: Entry, d': nat, x': nat)
    requires ChildAdded(m, m', root, d, x, e) && d' <= 4
    ensures Node(m', root, d', x') == if d' == d && x' == x then Some(e.frame) else Node(m, root, d', x')
    decreases d'
  {
    if d' > 0 {
      AddedChildIsOneNode(m, m', root, d, x, e, d' - 1, x' / ENTRIES);
      if IsNode(m, root, d' - 1, x' / ENTRIES) {
        assert IsNode(m, root, d - 1, x / ENTRIES);
      }
    }
  }

  lemma EntryAfterAdding(m: Memory, m': Memory, root: nat, d: nat, x: nat, e: Entry, d': nat, x': nat)
    requires ChildAdded(m, m', root, d, x, e) && 0 < d' <= 4
    ensures EntryAt(m', root, d', x') == if d' == d && x' == x then e else EntryAt(m, root, d', x')
  {
    AddedChildIsOneNode(m, m', root, d, x, e, d' - 1, x' / ENTRIES);
    if IsNode(m, root, d' - 1, x' / ENTRIES) {
      assert IsNode(m, root, d - 1, x / ENTRIES);
    } else if d' - 1 == d && x' / ENTRIES == x {
      assert EntryAt(m', root, d', x') == ZeroTable()[x' % ENTRIES];
    }
  }

  /** A new table or page keeps the tree, if a writable page comes below writable tables. */
  lemma AddingKeepsTree(m: Memory, m': Memory, root: nat, d: nat, x: nat, e: Entry, used: set<nat>)
    requires Tree(m, root, used) && ChildAdded(m, m', root, d, x, e)
    requires e.user && if d < 4 then IsPtFrame(e.frame) else IsUserFrame(e.frame)
    requires d == 4 && e.write ==>
               forall k | 1 <= k <= 3 :: EntryAt(m, root, k, Prefix(x, k)).write
    ensures Tree(m', root, used + {e.frame})
  {
    forall d': nat, x': nat | d' <= 4
      ensures Node(m', root, d', x') == if d' == d && x' == x then Some(e.frame) else Node(m, root, d', x')
      ensures IsNode(m', root, d', x') <==> IsNode(m, root, d', x') || (d' == d && x' == x)
    {
      AddedChildIsOneNode(m, m', root, d, x, e, d', x');
    }
    forall d': nat, x': nat | 0 < d' <= 4
      ensures EntryAt(m', root, d', x') == if d' == d && x' == x then e else EntryAt(m, root, d', x')
    {
      EntryAfterAdding(m, m', root, d, x, e, d', x');
    }
    AddingKeepsWritable(m, m', root, d, x, e);
  }

  lemma AddingKeepsWritable(m: Memory, m': Memory, root: nat, d: nat, x: nat, e: Entry)
    requires ChildAdded(m, m', root, d, x, e) && WritableBelowWritable(m, root)
    requires d == 4 && e.write ==>
               forall k | 1 <= k <= 3 :: EntryAt(m, root, k, Prefix(x, k)).write
    ensures WritableBelowWritable(m', root)
  {
    forall p: nat | FrameOf(m', root, p).Some? && EntryAt(m', root, 4, p).write
      ensures Writable(m', root, p)
    {
      AddedChildIsOneNode(m, m', root, d, x, e, 4, p);
      EntryAfterAdding(m, m', root, d, x, e, 4, p);
      forall k | 1 <= k <= 4
        ensures EntryAt(m', root, k, Prefix(p, k)).write
      {
        EntryAfterAdding(m, m', root, d, x, e, k, Prefix(p, k));
        if !(d == 4 && x == p) {
          WalkIsPresent(m, root, p, k);
          assert Writable(m, root, p);
        }
      }
    }
  }

  // ----- setting the write flag of an entry

  /** `m'` is `m` with the write flag set in the entry that leads to (`d`, `x`). */
  ghost predicate WriteSet(m: Memory, m': Memory, root: nat, d: nat, x: nat) {
    && 0 < d <= 4 && IsNode(m, root, d, x) && NodesDistinct(m, root)
    && var f := Node(m, root, d - 1, x / ENTRIES).value;
       f < MEM_FRAMES && m' == SetEntry(m, f, x % ENTRIES, EntryAt(m, root, d, x).(write := true))
  }

  lemma {:induction false} WriteSetKeepsNode(m: Memory, m': Memory, root: nat, d: nat, x: nat, d': nat, x': nat)
    requires WriteSet(m, m', root, d, x) && d' <= 4
    ensures Node(m', root, d', x') == Node(m, root, d', x')
    decreases d'
  {
    if d' > 0 {
      WriteSetKeepsNode(m, m', root, d, x, d' - 1, x' / ENTRIES);
      if IsNode(m, root, d' - 1, x' / ENTRIES) {
        assert IsNode(m, root, d - 1, x / ENTRIES);
      }
    }
  }

  lemma EntryAfterWriteSet(m: Memory, m': Memory, root: nat, d: nat, x: nat, d': nat, x': nat)
    requires WriteSet(m, m', root, d, x) && 0 < d' <= 4
    ensures EntryAt(m', root, d', x')
            == if d' == d && x' == x then EntryAt(m, root, d, x).(write := true) else EntryAt(m, root, d', x')
  {
    WriteSetKeepsNode(m, m', root, d, x, d' - 1, x' / ENTRIES);
    if IsNode(m, root, d' - 1, x' / ENTRIES) {
      assert IsNode(m, root, d - 1, x / ENTRIES);
    }
  }

  /** Making a table writable keeps the tree. */
  lemma WriteSetKeepsTree(m: Memory, m': Memory, root: nat, d: nat, x: nat, used: set<nat>)
    requires Tree(m, root, used) && WriteSet(m, m', root, d, x) && d < 4
    ensures Tree(m', root, used)
  {
    forall d': nat, x': nat | d' <= 4
      ensures Node(m', root, d', x') == Node(m, root, d', x')
      ensures IsNode(m', root, d', x') <==> IsNode(m, root, d', x')
    {
      WriteSetKeepsNode(m, m', root, d, x, d', x');
    }
    forall d': nat, x': nat | 0 < d' <= 4
      ensures EntryAt(m', root, d', x')
              == if d' == d && x' == x then EntryAt(m, root, d, x).(write := true) else EntryAt(m, root, d', x')
    {
      EntryAfterWriteSet(m, m', root, d, x, d', x');
    }
    assert EntryAt(m, root, d, x).present;
  }

  // ----- removing a page

  /** `m'` is `m` with the entry of the mapped page `p` cleared. */
  ghost predicate PageRemoved(m: Memory, m': Memory, root: nat, p: nat) {
    && FrameOf(m, root, p).Some? && NodesDistinct(m, root)
    && var f := Node(m, root, 3, p / ENTRIES).value;
       f < MEM_FRAMES && m' == SetEntry(m, f, p % ENTRIES, ZERO)
  }

  lemma {:induction false} RemovedPageIsOneNode(m: Memory, m': Memory, root: nat, p: nat, d': nat, x': nat)
    requires PageRemoved(m, m', root, p) && d' <= 4
    ensures Node(m', root, d', x') == if d' == 4 && x' == p then None else Node(m, root, d', x')
    decreases d'
  {
    if d' > 0 {
      RemovedPageIsOneNode(m, m', root, p, d' - 1, x' / ENTRIES);
      if IsNode(m, root, d' - 1, x' / ENTRIES) {
        assert IsNode(m, root, 3, p / ENTRIES);
      }
    }
  }

  lemma EntryAfterRemoving(m: Memory, m': Memory, root: nat, p: nat, d': nat, x': nat)
    requires PageRemoved(m, m', root, p) && 0 < d' <= 4
    ensures EntryAt(m', root, d', x') == if d' == 4 && x' == p then ZERO else EntryAt(m, root, d', x')
  {
    RemovedPageIsOneNode(m, m', root, p, d' - 1, x' / ENTRIES);
    if IsNode(m, root, d' - 1, x' / ENTRIES) {
      assert IsNode(m, root, 3, p / ENTRIES);
    }
  }

  lemma RemovingKeepsTree(m: Memory, m': Memory, root: nat, p: nat, used: set<nat>)
    requires Tree(m, root, used) && PageRemoved(m, m', root, p)
    ensures Tree(m', root, used - {FrameOf(m, root, p).value})
  {
    assert IsNode(m, root, 4, p);
    forall d': nat, x': nat | d' <= 4
      ensures Node(m', root, d', x') == if d' == 4 && x' == p then None else Node(m, root, d', x')
      ensures IsNode(m', root, d', x') <==> IsNode(m, root, d', x') && !(d' == 4 && x' == p)
    {
      RemovedPageIsOneNode(m, m', root, p, d', x');
    }
    forall d': nat, x': nat | 0 < d' <= 4
      ensures EntryAt(m', root, d', x') == if d' == 4 && x' == p then ZERO else EntryAt(m, root, d', x')
    {
      EntryAfterRemoving(m, m', root, p, d', x');
    }
    forall q: nat | FrameOf(m', root, q).Some? && EntryAt(m', root, 4, q).write
      ensures Writable(m', root, q)
    {
      assert Writable(m, root, q);
    }
  }
}
