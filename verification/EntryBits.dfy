/** The bit operations on page-table entries. `PageWalk.Entry` splits an entry
    into its frame bits and flags; here the same steps are done on 64-bit words, and
    shown to be those of `Paging`. */
module EntryBits {
  import opened PageWalk
  import Paging

  type Word = bv64

  const PRESENT: Word := 1
  const WRITE: Word := 2
  const PRESENT_USER: Word := 5
  const LOW: Word := 0xFFF

  function FrameBits(e: Word): Word {
    e >> 12
  }

  /** `e |= a<<12; e |= 0x5;` */
  function Filled(e: Word, a: Word): Word {
    (e | (a << 12)) | PRESENT_USER
  }

  /** In a zero entry the two steps leave exactly frame `a` and the flags. */
  lemma FilledZero(a: Word)
    requires a < 0x2_0000
    ensures FrameBits(Filled(0, a)) == a && Filled(0, a) & PRESENT != 0 && Filled(0, a) & WRITE == 0
    ensures Filled(0, a) & LOW == PRESENT_USER
  {
  }

  /** In any other entry they name frame `a` exactly when the entry's frame bits
      are among those of `a`. */
  lemma FilledNamesFrameIff(e: Word, a: Word)
    requires a < 0x2_0000
    ensures FrameBits(Filled(e, a)) == a <==> FrameBits(e) & !a == 0
  {
    FilledOrsFrames(e, a);
    OrIsSecondIff(FrameBits(e), a);
  }

  lemma FilledOrsFrames(e: Word, a: Word)
    requires a < 0x2_0000
    ensures FrameBits(Filled(e, a)) == FrameBits(e) | a
  {
  }

  lemma OrIsSecondIff(x: Word, a: Word)
    ensures x | a == a <==> x & !a == 0
  {
  }

  /** `e |= 0x2` sets the write flag and keeps the frame and the other flags. */
  lemma SettingWrite(e: Word)
    ensures (e | WRITE) & WRITE != 0 && FrameBits(e | WRITE) == FrameBits(e)
    ensures (e | WRITE) & PRESENT == e & PRESENT
  {
  }

  // ----- the entries of the other modules

  /** The number that a word stands for, from its lowest bit up. */
  function Value(x: Word): nat
    decreases x
  {
    if x == 0 then 0 else HalvesAreSmaller(x); 2 * Value(x >> 1) + if x & 1 == 1 then 1 else 0
  }

  lemma HalvesAreSmaller(x: Word)
    requires x != 0
    ensures x >> 1 < x
  {
  }

  function EntryOf(w: Word): Entry {
    Entry(Value(FrameBits(w)), w & PRESENT != 0, w & WRITE != 0, w & 4 != 0)
  }

  lemma OrOfHalves(x: Word, y: Word)
    ensures (x | y) >> 1 == (x >> 1) | (y >> 1)
    ensures (x | y) & 1 == 1 <==> x & 1 == 1 || y & 1 == 1
    ensures x | y == 0 <==> x == 0 && y == 0
    ensures x | 0 == x && 0 | y == y
  {
  }

  lemma {:induction false} ValueStep(x: Word)
    ensures Value(x) / 2 == Value(x >> 1) && (Value(x) % 2 == 1 <==> x & 1 == 1)
    ensures Value(x) == 0 <==> x == 0
    decreases x
  {
    if x != 0 {
      HalvesAreSmaller(x);
      ValueStep(x >> 1);
      OddOrHalf(x);
    }
  }

  lemma OddOrHalf(x: Word)
    requires x != 0
    ensures x & 1 == 1 || x >> 1 != 0
  {
  }

  lemma {:induction false} ValueOfOr(x: Word, y: Word)
    ensures Value(x | y) == Paging.Or(Value(x), Value(y))
    decreases Value(x) + Value(y)
  {
    OrOfHalves(x, y);
    ValueStep(x);
    ValueStep(y);
    if x != 0 && y != 0 {
      ValueOfOr(x >> 1, y >> 1);
    }
  }

  /** `m` is the power of two `n`. */
  predicate IsPower(m: Word, n: nat)
    decreases n
  {
    if n <= 1 then m == 1 && n == 1 else n % 2 == 0 && m & 1 == 0 && IsPower(m >> 1, n / 2)
  }

  lemma HalvesAreOrdered(x: Word, m: Word, h: Word, k: Word, n: nat)
    requires x < m && IsPower(m, n) && n > 1 && h == x >> 1 && k == m >> 1
    ensures h < k && IsPower(k, n / 2) && 2 * (n / 2) == n
  {
  }

  lemma BelowOne(x: Word, m: Word, n: nat)
    requires x < m && IsPower(m, n) && n <= 1
    ensures Value(x) < n
  {
  }

  lemma ValueOfHalf(x: Word, h: Word)
    requires h == x >> 1
    ensures Value(x) <= 2 * Value(h) + 1
  {
    ValueStep(x);
  }

  lemma {:induction false} ValueBelow(x: Word, m: Word, n: nat)
    requires x < m && IsPower(m, n)
    ensures Value(x) < n
    decreases n
  {
    hide Value, IsPower;
    if n > 1 {
      var h, k := x >> 1, m >> 1;
      HalvesAreOrdered(x, m, h, k, n);
      ValueOfHalf(x, h);
      ValueBelow(h, k, n / 2);
    } else {
      BelowOne(x, m, n);
    }
  }

  lemma FilledFlags(e: Word, a: Word)
    requires a < 0x2_0000
    ensures Filled(e, a) & PRESENT != 0 && Filled(e, a) & 4 != 0
    ensures Filled(e, a) & WRITE != 0 <==> e & WRITE != 0
  {
  }

  lemma FrameValueIsSmall(a: Word)
    requires a < 0x2_0000
    ensures Value(a) < 0x2_0000
  {
    assert IsPower(0x20, 0x20) by { assert IsPower(0x8, 0x8); }
    assert IsPower(0x200, 0x200) by { assert IsPower(0x80, 0x80); }
    assert IsPower(0x2000, 0x2000) by { assert IsPower(0x800, 0x800); }
    assert IsPower(0x2_0000, 0x2_0000) by { assert IsPower(0x8000, 0x8000); }
    ValueBelow(a, 0x2_0000, 0x2_0000);
  }

  lemma FilledFrame(e: Word, a: Word, f: Word, g: Word)
    requires a < 0x2_0000 && f == FrameBits(e) && g == FrameBits(Filled(e, a))
    ensures Value(g) == Paging.Or(Value(f), Value(a))
  {
    hide Value, FrameBits, Filled;
    FilledOrsFrames(e, a);
    ValueOfOr(f, a);
  }

  /** The steps on machine words are those of `Paging` on split entries, whatever
      the entry held before. */
  lemma FillingCommutes(e: Word, a: Word)
    requires a < 0x2_0000
    ensures EntryOf(Filled(e, a)) == Paging.Filled(EntryOf(e), Value(a))
  {
    hide Value, FrameBits, Filled;
    FilledFrame(e, a, FrameBits(e), FrameBits(Filled(e, a)));
    FilledFlags(e, a);
    FrameValueIsSmall(a);
  }

  lemma SettingWriteCommutes(e: Word)
    ensures EntryOf(e | WRITE) == Paging.WithWrite(EntryOf(e), true)
  {
    hide Value;
    SettingWrite(e);
  }

  /** In a zero entry this is the entry that a walk adds for frame `a`. */
  lemma FillingZero(a: Word)
    requires a < 0x2_0000
    ensures EntryOf(0) == ZERO && EntryOf(Filled(0, a)) == Entry(Value(a), true, false, true)
  {
    hide Filled;
    assert FrameBits(0) == 0;
    FillingCommutes(0, a);
    FrameValueIsSmall(a);
  }

  /** `(flag & 0x2) == 2` */
  lemma WriteTestIff(flags: Word)
    ensures flags & 2 == 2 <==> Paging.AllowsWrite(Value(flags))
  {
    hide Value;
    ValueStep(flags);
    ValueStep(flags >> 1);
    SecondBit(flags, flags >> 1);
  }

  lemma SecondBit(x: Word, h: Word)
    requires h == x >> 1
    ensures x & 2 == 2 <==> h & 1 == 1
  {
  }
}
