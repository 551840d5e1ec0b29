/** The store keeps its bitmaps in 32-bit words and walks them with a mask that
    starts at `1<<31` and is shifted right by one, so bit 0 of a word is its most
    significant bit. This module shows, on machine words, that `word & b` and
    `word | b` with mask number `j` read and write element `j` of the sequence of
    bits of the word and nothing else. The other modules work on those sequences. */
module MaskWords {
  import opened Bitmap

  type MachineWord = bv32

  /** The mask `b` after `j` executions of `b = b>>1`. */
  function Mask(j: nat): MachineWord
    requires j < BITS
  {
    if j == 0 then 0x8000_0000 else Mask(j - 1) >> 1
  }

  predicate Test(w: MachineWord, b: MachineWord) {
    w & b != 0
  }

  ghost predicate AtMostOneBit(b: MachineWord) {
    b & (b - 1) == 0
  }

  lemma HalfOfOneBit(b: MachineWord)
    requires AtMostOneBit(b)
    ensures AtMostOneBit(b >> 1)
  {
  }

  lemma {:induction false} MaskIsOneBit(j: nat)
    requires j < BITS
    ensures AtMostOneBit(Mask(j))
  {
    if j > 0 {
      MaskIsOneBit(j - 1);
      HalfOfOneBit(Mask(j - 1));
    }
  }

  lemma LastMask()
    ensures Mask(31) == 1
  {
    assert Mask(7) == 0x0100_0000 by { assert Mask(3) == 0x1000_0000; }
    assert Mask(15) == 0x0001_0000 by { assert Mask(11) == 0x0010_0000; }
    assert Mask(23) == 0x0000_0100 by { assert Mask(19) == 0x0000_1000; }
    assert Mask(27) == 0x0000_0010;
  }

  lemma {:induction false} MaskIsPositive(j: nat)
    requires j < BITS
    ensures Mask(j) >= 1
    decreases BITS - j
  {
    if j == 31 {
      LastMask();
    } else {
      MaskIsPositive(j + 1);
      assert Mask(j + 1) == Mask(j) >> 1;
    }
  }

  lemma {:induction false} MasksDecrease(j: nat, k: nat)
    requires j < k < BITS
    ensures Mask(j) > Mask(k)
    decreases k - j
  {
    MaskIsPositive(j);
    assert Mask(j + 1) == Mask(j) >> 1;
    if j + 1 < k {
      MasksDecrease(j + 1, k);
    }
  }

  lemma SmallerIsDisjoint(b: MachineWord, c: MachineWord)
    requires AtMostOneBit(b) && c < b
    ensures b & c == 0 && c & b == 0
  {
  }

  lemma DifferentMasksAreDisjoint(j: nat, k: nat)
    requires j < BITS && k < BITS && j != k
    ensures Mask(j) & Mask(k) == 0
  {
    MaskIsOneBit(j);
    MaskIsOneBit(k);
    if j < k {
      MasksDecrease(j, k);
      SmallerIsDisjoint(Mask(j), Mask(k));
    } else {
      MasksDecrease(k, j);
      SmallerIsDisjoint(Mask(k), Mask(j));
    }
  }

  lemma OrThenTestSame(w: MachineWord, b: MachineWord)
    requires b >= 1
    ensures Test(w | b, b)
  {
    assert (w | b) & b == b;
  }

  lemma AndOverOr(w: MachineWord, b: MachineWord, c: MachineWord)
    ensures (w | b) & c == (w & c) | (b & c)
  {
  }

  lemma OrZero(w: MachineWord)
    ensures w | 0 == w
  {
  }

  lemma OrThenTestOther(w: MachineWord, b: MachineWord, c: MachineWord)
    requires b & c == 0
    ensures Test(w | b, c) <==> Test(w, c)
  {
    AndOverOr(w, b, c);
    OrZero(w & c);
  }

  /** `w | b` with mask number `j` sets bit `j` and keeps every other bit. */
  lemma OrSetsOnlyThatBit(w: MachineWord, j: nat, b: MachineWord, k: nat, c: MachineWord)
    requires j < BITS && b == Mask(j)
    requires k < BITS && c == Mask(k)
    ensures Test(w | b, c) <==> j == k || Test(w, c)
  {
    if j == k {
      assert b >= 1 by { MaskIsPositive(j); }
      OrThenTestSame(w, b);
    } else {
      assert b & c == 0 by { DifferentMasksAreDisjoint(j, k); }
      OrThenTestOther(w, b, c);
    }
  }

  // ----- the words of the other modules

  /** The bits of a machine word as the masks see them, in the order of the masks. */
  function BitsOf(w: MachineWord): Word {
    seq(BITS, j requires 0 <= j < BITS => Test(w, Mask(j)))
  }

  lemma ElementAfterOr(w: MachineWord, b: MachineWord, v: MachineWord, j: nat, k: nat)
    requires j < BITS && k < BITS && b == Mask(j) && v == w | b
    ensures BitsOf(v)[k] <==> j == k || BitsOf(w)[k]
  {
    hide Mask, Test;
    OrSetsOnlyThatBit(w, j, b, k, Mask(k));
  }

  /** `w & b` with mask number `j` reads element `j`, and `v = w | b` is the update
      of that element. */
  lemma OrIsUpdate(w: MachineWord, b: MachineWord, v: MachineWord, j: nat)
    requires j < BITS && b == Mask(j) && v == w | b
    ensures Test(w, b) <==> BitsOf(w)[j]
    ensures BitsOf(v) == BitsOf(w)[j := true]
  {
    hide Mask, Test;
    forall k | 0 <= k < BITS
      ensures BitsOf(v)[k] == BitsOf(w)[j := true][k]
    {
      ElementAfterOr(w, b, v, j, k);
    }
  }
}
