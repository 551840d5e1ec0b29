/** Disk blocks as bytes, and what the store keeps in them: user data padded with
    zeros, tables of 32-bit block numbers, bitmap words, and 88-byte inodes. All
    integers are little-endian. */
module Blocks {
  import opened Basics
  import opened Bitmap

  type Byte = n: nat | n < 256

  const BLOCK_SIZE := 4096
  const INTS := 1024

  type Block = s: seq<Byte> | |s| == BLOCK_SIZE witness seq(BLOCK_SIZE, _ => 0)

  function ZeroBlock(): Block {
    seq(BLOCK_SIZE, _ => 0)
  }

  // ----- integers

  /** Byte `m` of the four bytes that hold `v`. */
  function LeByte(v: U32, m: nat): Byte
    requires m < 4
  {
    if m == 0 then v % 0x100
    else if m == 1 then v / 0x100 % 0x100
    else if m == 2 then v / 0x1_0000 % 0x100
    else v / 0x100_0000 % 0x100
  }

  function LeValue(b0: Byte, b1: Byte, b2: Byte, b3: Byte): U32 {
    b0 + 0x100 * b1 + 0x1_0000 * b2 + 0x100_0000 * b3
  }

  lemma SplitLowByte(v: nat)
    ensures v == v % 0x100 + 0x100 * (v / 0x100)
  {
  }

  lemma DivideTwice(v: nat)
    ensures v / 0x1_0000 == v / 0x100 / 0x100 && v / 0x100_0000 == v / 0x1_0000 / 0x100
  {
  }

  lemma LeRoundTrip(v: U32)
    ensures LeValue(LeByte(v, 0), LeByte(v, 1), LeByte(v, 2), LeByte(v, 3)) == v
  {
    DivideTwice(v);
    SplitLowByte(v);
    SplitLowByte(v / 0x100);
    SplitLowByte(v / 0x1_0000);
  }

  /** The `k`-th 32-bit integer of a run of bytes. */
  function IntAt(s: seq<Byte>, k: nat): U32
    requires 4 * k + 4 <= |s|
  {
    LeValue(s[4 * k], s[4 * k + 1], s[4 * k + 2], s[4 * k + 3])
  }

  /** The run of bytes after storing `v` as its `k`-th integer. */
  function PutInt(s: seq<Byte>, k: nat, v: U32): (r: seq<Byte>)
    requires 4 * k + 4 <= |s|
    ensures |r| == |s|
  {
    s[4 * k := LeByte(v, 0)][4 * k + 1 := LeByte(v, 1)][4 * k + 2 := LeByte(v, 2)][4 * k + 3 := LeByte(v, 3)]
  }

  lemma PutIntChangesOneInt(s: seq<Byte>, k: nat, v: U32, m: nat)
    requires 4 * k + 4 <= |s| && 4 * m + 4 <= |s|
    ensures IntAt(PutInt(s, k, v), m) == if m == k then v else IntAt(s, m)
  {
    hide LeByte, LeValue;
    LeRoundTrip(v);
  }

  lemma ZeroBlockHoldsZeros(m: nat)
    requires m < INTS
    ensures IntAt(ZeroBlock(), m) == 0
  {
  }

  function IntBytes(vs: seq<U32>): (r: seq<Byte>)
    ensures |r| == 4 * |vs|
  {
    seq(4 * |vs|, p requires 0 <= p < 4 * |vs| => LeByte(vs[p / 4], p % 4))
  }

  lemma IntBytesRoundTrip(vs: seq<U32>, rest: seq<Byte>, k: nat)
    requires k < |vs|
    ensures IntAt(IntBytes(vs) + rest, k) == vs[k]
  {
    hide LeByte, LeValue;
    forall m | 0 <= m < 4
      ensures IntBytes(vs)[4 * k + m] == LeByte(vs[k], m)
    {
      assert (4 * k + m) / 4 == k && (4 * k + m) % 4 == m;
    }
    LeRoundTrip(vs[k]);
  }

  /** Integers are little-endian. */
  lemma LittleEndian(s: seq<Byte>, k: nat)
    requires 4 * k + 4 <= |s|
    ensures IntAt(s, k) == 0x100_0000 * (s[4 * k + 3] as int) + 0x1_0000 * (s[4 * k + 2] as int)
                           + 0x100 * (s[4 * k + 1] as int) + s[4 * k] as int
  {
  }

  // ----- user data

  /** A zero-filled block with `buff` copied to its start. */
  function Pad(buff: seq<Byte>): Block
    requires |buff| <= BLOCK_SIZE
  {
    buff + seq(BLOCK_SIZE - |buff|, _ => 0)
  }

  lemma PadIs(buff: seq<Byte>, i: nat)
    requires |buff| <= BLOCK_SIZE && i < BLOCK_SIZE
    ensures Pad(buff)[i] == if i < |buff| then buff[i] else 0
  {
  }

  method PadCopy(buff: seq<Byte>) returns (temp: Block)
    requires |buff| <= BLOCK_SIZE
    ensures temp == Pad(buff)
  {
    var a := new Byte[BLOCK_SIZE](_ => 0);
    for i := 0 to |buff|
      invariant a[..i] == buff[..i]
      invariant forall k :: i <= k < BLOCK_SIZE ==> a[k] == 0
    {
      a[i] := buff[i];
    }
    temp := a[..];
  }

  // ----- bitmap words

  function Digit(b: bool): nat {
    if b then 1 else 0
  }

  /** Byte `m` of a bitmap word: its bits `24-8m .. 31-8m`, most significant first. */
  function WordByte(w: Word, m: nat): Byte
    requires m < 4
  {
    var t := 24 - 8 * m;
    128 * Digit(w[t]) + 64 * Digit(w[t + 1]) + 32 * Digit(w[t + 2]) + 16 * Digit(w[t + 3])
    + 8 * Digit(w[t + 4]) + 4 * Digit(w[t + 5]) + 2 * Digit(w[t + 6]) + Digit(w[t + 7])
  }

  /** The byte without its last `7-t` bits. */
  function Upper(v: Byte, t: nat): nat
    requires t < 8
  {
    if t == 0 then v / 128 else if t == 1 then v / 64 else if t == 2 then v / 32
    else if t == 3 then v / 16 else if t == 4 then v / 8 else if t == 5 then v / 4
    else if t == 6 then v / 2 else v
  }

  function ByteBit(v: Byte, t: nat): bool
    requires t < 8
  {
    Upper(v, t) % 2 == 1
  }

  lemma BinaryDigits(d: seq<nat>, v: nat)
    requires |d| == 8 && forall i :: 0 <= i < 8 ==> d[i] <= 1
    requires v == 128 * d[0] + 64 * d[1] + 32 * d[2] + 16 * d[3] + 8 * d[4] + 4 * d[5] + 2 * d[6] + d[7]
    ensures v / 128 == d[0]
    ensures v / 64 == 2 * d[0] + d[1]
    ensures v / 32 == 4 * d[0] + 2 * d[1] + d[2]
    ensures v / 16 == 8 * d[0] + 4 * d[1] + 2 * d[2] + d[3]
    ensures v / 8 == 16 * d[0] + 8 * d[1] + 4 * d[2] + 2 * d[3] + d[4]
    ensures v / 4 == 32 * d[0] + 16 * d[1] + 8 * d[2] + 4 * d[3] + 2 * d[4] + d[5]
    ensures v / 2 == 64 * d[0] + 32 * d[1] + 16 * d[2] + 8 * d[3] + 4 * d[4] + 2 * d[5] + d[6]
  {
  }

  lemma LastDigit(q: nat, x: nat, d: nat)
    requires q == 2 * x + d && d <= 1
    ensures q % 2 == d
  {
  }

  lemma DigitsOfByte(d: seq<nat>, v: Byte)
    requires |d| == 8 && forall i :: 0 <= i < 8 ==> d[i] <= 1
    requires v == 128 * d[0] + 64 * d[1] + 32 * d[2] + 16 * d[3] + 8 * d[4] + 4 * d[5] + 2 * d[6] + d[7]
    ensures forall t :: 0 <= t < 8 ==> (ByteBit(v, t) <==> d[t] == 1)
  {
    BinaryDigits(d, v);
    LastDigit(v / 128, 0, d[0]);
    LastDigit(v / 64, v / 128, d[1]);
    LastDigit(v / 32, v / 64, d[2]);
    LastDigit(v / 16, v / 32, d[3]);
    LastDigit(v / 8, v / 16, d[4]);
    LastDigit(v / 4, v / 8, d[5]);
    LastDigit(v / 2, v / 4, d[6]);
    LastDigit(v, v / 2, d[7]);
  }

  lemma WordByteRoundTrip(w: Word, m: nat, t: nat)
    requires m < 4 && t < 8
    ensures ByteBit(WordByte(w, m), t) == w[24 - 8 * m + t]
  {
    hide ByteBit;
    var d := seq<nat>(8, i requires 0 <= i < 8 => Digit(w[24 - 8 * m + i]));
    DigitsOfByte(d, WordByte(w, m));
  }

  /** The `k`-th bitmap word of a run of bytes. */
  function WordAt(s: seq<Byte>, k: nat): Word
    requires 4 * k + 4 <= |s|
  {
    seq(BITS, j requires 0 <= j < BITS => ByteBit(s[4 * k + 3 - j / 8], j % 8))
  }

  /** The number whose binary digits, highest first, are the first `n` bits of `w`. */
  function Binary(w: seq<bool>, n: nat): nat
    requires n <= |w|
  {
    if n == 0 then 0 else 2 * Binary(w, n - 1) + Digit(w[n - 1])
  }

  function EightBits(d: seq<bool>): nat
    requires |d| == 8
  {
    128 * Digit(d[0]) + 64 * Digit(d[1]) + 32 * Digit(d[2]) + 16 * Digit(d[3])
    + 8 * Digit(d[4]) + 4 * Digit(d[5]) + 2 * Digit(d[6]) + Digit(d[7])
  }

  lemma EightDigits(w: seq<bool>, n: nat)
    requires n + 8 <= |w|
    ensures Binary(w, n + 8) == 256 * Binary(w, n) + EightBits(w[n..n + 8])
  {
    hide Digit;
    assert Binary(w, n + 2) == 4 * Binary(w, n) + 2 * Digit(w[n]) + Digit(w[n + 1]);
    assert Binary(w, n + 4) == 4 * Binary(w, n + 2) + 2 * Digit(w[n + 2]) + Digit(w[n + 3]);
    assert Binary(w, n + 6) == 4 * Binary(w, n + 4) + 2 * Digit(w[n + 4]) + Digit(w[n + 5]);
    assert Binary(w, n + 8) == 4 * Binary(w, n + 6) + 2 * Digit(w[n + 6]) + Digit(w[n + 7]);
  }

  lemma UpperStep(v: Byte, t: nat)
    requires t < 8
    ensures Upper(v, t) == (if t == 0 then 0 else 2 * Upper(v, t - 1)) + Digit(ByteBit(v, t))
    ensures Upper(v, 7) == v
  {
  }

  function ByteBits(v: Byte): (r: seq<bool>)
    ensures |r| == 8
  {
    seq(8, t requires 0 <= t < 8 => ByteBit(v, t))
  }

  lemma {:induction false} UpperIsBinary(v: Byte, t: nat)
    requires t < 8
    ensures Binary(ByteBits(v), t + 1) == Upper(v, t)
  {
    hide Upper, ByteBit;
    UpperStep(v, t);
    if t > 0 {
      UpperIsBinary(v, t - 1);
    }
  }

  lemma ByteIsItsBits(v: Byte)
    ensures EightBits(ByteBits(v)) == v
  {
    hide Upper, ByteBits, EightBits;
    EightDigits(ByteBits(v), 0);
    UpperIsBinary(v, 7);
    UpperStep(v, 7);
    assert ByteBits(v)[0..8] == ByteBits(v);
  }

  lemma ByteOfWord(s: seq<Byte>, k: nat, m: nat, n: nat)
    requires 4 * k + 4 <= |s| && m < 4 && n == 8 * m
    ensures Binary(WordAt(s, k), n + 8) == 256 * Binary(WordAt(s, k), n) + s[4 * k + 3 - m] as int
  {
    hide ByteBit, Binary, EightBits;
    var v := s[4 * k + 3 - m];
    forall t: nat | n <= t < n + 8
      ensures WordAt(s, k)[t] == ByteBit(v, t - n)
    {
      assert t / 8 == m && t % 8 == t - n;
    }
    EightDigits(WordAt(s, k), n);
    ByteIsItsBits(v);
    assert WordAt(s, k)[n..n + 8] == ByteBits(v);
  }

  /** A bitmap word is the 32-bit integer of its bytes, most significant bit first. */
  lemma WordIsItsInt(s: seq<Byte>, k: nat)
    requires 4 * k + 4 <= |s|
    ensures Binary(WordAt(s, k), 32) == IntAt(s, k)
  {
    ByteOfWord(s, k, 0, 0);
    ByteOfWord(s, k, 1, 8);
    ByteOfWord(s, k, 2, 16);
    ByteOfWord(s, k, 3, 24);
    assert Binary(WordAt(s, k), 0) == 0;
    LittleEndian(s, k);
  }

  /** The bytes of bitmap words `lo .. lo + INTS`. */
  function WordsBlock(words: seq<Word>, lo: nat): Block
    requires lo + INTS <= |words|
  {
    seq(BLOCK_SIZE, p requires 0 <= p < BLOCK_SIZE => WordByte(words[lo + p / 4], p % 4))
  }

  lemma WordFromItsBytes(s: seq<Byte>, k: nat, w: Word)
    requires 4 * k + 4 <= |s|
    requires forall m :: 0 <= m < 4 ==> s[4 * k + m] == WordByte(w, m)
    ensures WordAt(s, k) == w
  {
    forall j | 0 <= j < BITS
      ensures WordAt(s, k)[j] == w[j]
    {
      var m := 3 - j / 8;
      assert s[4 * k + m] == WordByte(w, m);
      WordByteRoundTrip(w, m, j % 8);
    }
  }

  lemma WordsBlockRoundTrip(words: seq<Word>, lo: nat, k: nat)
    requires lo + INTS <= |words| && k < INTS
    ensures WordAt(WordsBlock(words, lo), k) == words[lo + k]
  {
    var w := words[lo + k];
    forall m | 0 <= m < 4
      ensures WordsBlock(words, lo)[4 * k + m] == WordByte(w, m)
    {
      assert (4 * k + m) / 4 == k && (4 * k + m) % 4 == m;
    }
    WordFromItsBytes(WordsBlock(words, lo), k, w);
  }

  lemma ZeroBlockHoldsClearWords(k: nat, j: nat)
    requires k < INTS && j < BITS
    ensures !WordAt(ZeroBlock(), k)[j]
  {
  }

  // ----- inodes

  type Quad = s: seq<U32> | |s| == 4 witness [0, 0, 0, 0]
  type Name = s: seq<Byte> | |s| == 32 witness seq(32, _ => 0)

  /** `struct object`, in the order of its fields; 88 bytes. */
  datatype Inode = Inode(id: U64, size: U64, cache_index: U32, dirty: U32, direct: Quad, indirect: Quad, key: Name)

  const INODE_SIZE := 88
  const INODE_INTS := 14

  function InodeInts(o: Inode): (r: seq<U32>)
    ensures |r| == INODE_INTS
  {
    [o.id % 0x1_0000_0000, o.id / 0x1_0000_0000, o.size % 0x1_0000_0000, o.size / 0x1_0000_0000,
     o.cache_index, o.dirty] + o.direct + o.indirect
  }

  function InodeBytes(o: Inode): (r: seq<Byte>)
    ensures |r| == INODE_SIZE
  {
    IntBytes(InodeInts(o)) + o.key
  }

  function IntsOf(s: seq<Byte>, count: nat): (r: seq<U32>)
    requires 4 * count <= |s|
    ensures |r| == count
  {
    seq(count, k requires 0 <= k < count => IntAt(s, k))
  }

  function InodeOfInts(vs: seq<U32>, key: Name): Inode
    requires |vs| == INODE_INTS
  {
    Inode(vs[0] + TWO_TO_32 * vs[1], vs[2] + TWO_TO_32 * vs[3], vs[4], vs[5], vs[6..10], vs[10..14], key)
  }

  function InodeOf(s: seq<Byte>): Inode
    requires |s| == INODE_SIZE
  {
    InodeOfInts(IntsOf(s, INODE_INTS), s[4 * INODE_INTS..])
  }

  lemma InodeIntsRoundTrip(o: Inode)
    ensures InodeOfInts(InodeInts(o), o.key) == o
  {
    assert o.id == o.id % 0x1_0000_0000 + 0x1_0000_0000 * (o.id / 0x1_0000_0000);
    assert o.size == o.size % 0x1_0000_0000 + 0x1_0000_0000 * (o.size / 0x1_0000_0000);
  }

  lemma IntsOfIntBytes(vs: seq<U32>, rest: seq<Byte>)
    ensures IntsOf(IntBytes(vs) + rest, |vs|) == vs
  {
    forall k | 0 <= k < |vs|
      ensures IntsOf(IntBytes(vs) + rest, |vs|)[k] == vs[k]
    {
      IntBytesRoundTrip(vs, rest, k);
    }
  }

  /** The struct read back from its bytes is the struct that was written. */
  lemma InodeRoundTrip(o: Inode)
    ensures InodeOf(InodeBytes(o)) == o
  {
    IntsOfIntBytes(InodeInts(o), o.key);
    assert InodeBytes(o)[4 * INODE_INTS..] == o.key;
    InodeIntsRoundTrip(o);
  }

  function ZeroInode(): Inode {
    Inode(0, 0, 0, 0, [0, 0, 0, 0], [0, 0, 0, 0], seq(32, _ => 0))
  }

  lemma ZeroInodeIsZeroBytes()
    ensures forall p :: 0 <= p < INODE_SIZE ==> InodeBytes(ZeroInode())[p] == 0
  {
    assert forall k :: 0 <= k < INODE_INTS ==> InodeInts(ZeroInode())[k] == 0;
  }

  /** The fields of the struct at their offsets. */
  lemma InodeLayout(o: Inode)
    ensures IntAt(InodeBytes(o), 0) + 0x1_0000_0000 * IntAt(InodeBytes(o), 1) == o.id
    ensures IntAt(InodeBytes(o), 2) + 0x1_0000_0000 * IntAt(InodeBytes(o), 3) == o.size
    ensures IntAt(InodeBytes(o), 4) == o.cache_index && IntAt(InodeBytes(o), 5) == o.dirty
    ensures forall j | 0 <= j < 4 :: IntAt(InodeBytes(o), 6 + j) == o.direct[j] && IntAt(InodeBytes(o), 10 + j) == o.indirect[j]
    ensures InodeBytes(o)[56..] == o.key
  {
    hide IntAt, IntBytes;
    forall k: nat | k < INODE_INTS
      ensures IntAt(InodeBytes(o), k) == InodeInts(o)[k]
    {
      IntBytesRoundTrip(InodeInts(o), o.key, k);
    }
    assert InodeBytes(o)[4 * INODE_INTS..] == o.key;
  }

  // ----- names

  /** The C string in a buffer: everything before its first zero byte. */
  function CString(s: seq<Byte>): (r: seq<Byte>) {
    if s == [] || s[0] == 0 then [] else [s[0]] + CString(s[1..])
  }

  /** The buffer after `strcpy(buffer, key)`. */
  function StrCpy(buffer: Name, key: seq<Byte>): Name
    requires |key| < 32
  {
    key + [0] + buffer[|key| + 1..]
  }

  /** The terminating zero is stored too, and the rest of the buffer is kept. */
  lemma StrCpyIs(buffer: Name, key: seq<Byte>, i: nat)
    requires |key| < 32 && i < 32
    ensures StrCpy(buffer, key)[i] == if i < |key| then key[i] else if i == |key| then 0 else buffer[i]
  {
  }

  ghost predicate NoZero(key: seq<Byte>) {
    forall i | 0 <= i < |key| :: key[i] != 0
  }

  lemma {:induction false} CStringStopsAtZero(key: seq<Byte>, rest: seq<Byte>)
    requires NoZero(key)
    ensures CString(key + [0] + rest) == key
  {
    if key == [] {
      assert key + [0] + rest == [0] + rest;
    } else {
      assert (key + [0] + rest)[1..] == key[1..] + [0] + rest;
      CStringStopsAtZero(key[1..], rest);
    }
  }
}
