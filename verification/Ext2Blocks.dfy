/** Raw contents of an ext2 volume: bytes, 32-bit little-endian pointer
    tables, and bits of an allocation bitmap. */
module Ext2Blocks {
  import opened Machine
  import opened Arithmetic

  /** One filesystem block, as the bytes the device transfers. */
  type Block = seq<byte>

  /* ---------- pointer tables ---------- */

  /** Entry i of the block read as an array of little-endian 32-bit words. */
  function Word(b: Block, i: nat): u32
    requires 4 * i + 4 <= |b|
  {
    var b0: int, b1: int, b2: int, b3: int := b[4 * i], b[4 * i + 1], b[4 * i + 2], b[4 * i + 3];
    b0 + 0x100 * b1 + 0x1_0000 * b2 + 0x100_0000 * b3
  }

  function WordBytes(w: u32): (b: Block)
    ensures |b| == 4 && Word(b, 0) == w
  {
    [w % 0x100, w / 0x100 % 0x100, w / 0x1_0000 % 0x100, w / 0x100_0000]
  }

  function Decode(b: Block): (t: seq<u32>)
    ensures |t| == |b| / 4
    ensures forall i :: 0 <= i < |t| ==> t[i] == Word(b, i)
  {
    seq(|b| / 4, i requires 0 <= i < |b| / 4 => Word(b, i))
  }

  function Encode(t: seq<u32>): (b: Block)
    ensures |b| == 4 * |t|
    ensures forall i :: 0 <= i < |t| ==> Word(b, i) == t[i]
  {
    if t == [] then []
    else
      var init := Encode(t[..|t| - 1]);
      var b := init + WordBytes(t[|t| - 1]);
      assert forall i :: 0 <= i < |t| ==> Word(b, i) == t[i] by {
        forall i | 0 <= i < |t| ensures Word(b, i) == t[i] {
          if i < |t| - 1 {
            assert Word(b, i) == Word(init, i) == t[..|t| - 1][i];
          } else {
            assert b[4 * i..] == WordBytes(t[i]);
            assert Word(b, i) == Word(WordBytes(t[i]), 0);
          }
        }
      }
      b
  }

  /** Little-endian digits are determined by the number they make up. */
  lemma DigitsUnique(lo: int, hi: int, lo': int, hi': int)
    requires 0 <= lo < 0x100 && 0 <= lo' < 0x100
    requires lo + 0x100 * hi == lo' + 0x100 * hi'
    ensures lo == lo' && hi == hi'
  {
  }

  lemma WordInjective(a: Block, b: Block, i: nat)
    requires 4 * i + 4 <= |a| && 4 * i + 4 <= |b|
    requires Word(a, i) == Word(b, i)
    ensures forall k :: 4 * i <= k < 4 * i + 4 ==> a[k] == b[k]
  {
    var a0: int, a1: int, a2: int, a3: int := a[4 * i], a[4 * i + 1], a[4 * i + 2], a[4 * i + 3];
    var b0: int, b1: int, b2: int, b3: int := b[4 * i], b[4 * i + 1], b[4 * i + 2], b[4 * i + 3];
    DigitsUnique(a0, a1 + 0x100 * a2 + 0x1_0000 * a3, b0, b1 + 0x100 * b2 + 0x1_0000 * b3);
    DigitsUnique(a1, a2 + 0x100 * a3, b1, b2 + 0x100 * b3);
    DigitsUnique(a2, a3, b2, b3);
  }

  lemma LowDigit(lo: nat, hi: nat)
    requires lo < 0x100
    ensures (lo + 0x100 * hi) % 0x100 == lo && (lo + 0x100 * hi) / 0x100 == hi
  {
  }

  lemma TwoDigits(w: nat)
    ensures w / 0x1_0000 == w / 0x100 / 0x100 && w / 0x100_0000 == w / 0x100 / 0x100 / 0x100
  {
  }

  /** The bytes of a word are its digits to the base 256, the lowest first. */
  lemma WordDigits(b: Block, i: nat)
    requires 4 * i + 4 <= |b|
    ensures Word(b, i) % 0x100 == b[4 * i] && Word(b, i) / 0x100 % 0x100 == b[4 * i + 1]
    ensures Word(b, i) / 0x1_0000 % 0x100 == b[4 * i + 2] && Word(b, i) / 0x100_0000 == b[4 * i + 3]
  {
    var b1: nat, b2: nat, b3: nat := b[4 * i + 1], b[4 * i + 2], b[4 * i + 3];
    LowDigit(b[4 * i], b1 + 0x100 * (b2 + 0x100 * b3));
    LowDigit(b1, b2 + 0x100 * b3);
    LowDigit(b2, b3);
    TwoDigits(Word(b, i));
  }

  /** Reading a table that was written gives its entries back, and writing
      back a table that was only read changes nothing on the disk. */
  lemma TableRoundTrip(t: seq<u32>, b: Block)
    ensures Decode(Encode(t)) == t
    ensures |b| % 4 == 0 ==> Encode(Decode(b)) == b
  {
    if |b| % 4 == 0 {
      var c := Encode(Decode(b));
      forall k | 0 <= k < |b| ensures c[k] == b[k] {
        assert Word(c, k / 4) == Decode(b)[k / 4] == Word(b, k / 4);
        WordInjective(c, b, k / 4);
      }
    }
  }

  /* ---------- bitmaps ---------- */

  /** (x & (1 << j)) != 0 */
  predicate TestMask(x: nat, j: nat)
  {
    if j == 0 then x % 2 == 1 else TestMask(x / 2, j - 1)
  }

  /** x | (1 << j) */
  function OrMask(x: nat, j: nat): (y: nat)
    ensures forall k: nat :: TestMask(y, k) <==> k == j || TestMask(x, k)
    ensures forall k: nat :: k > j && x < Pow2(k) ==> y < Pow2(k)
  {
    if j == 0 then (if x % 2 == 1 then x else x + 1)
    else 2 * OrMask(x / 2, j - 1) + x % 2
  }

  /** x & ~(1 << j) */
  function AndNotMask(x: nat, j: nat): (y: nat)
    ensures forall k: nat :: TestMask(y, k) <==> k != j && TestMask(x, k)
    ensures y <= x
  {
    if j == 0 then (if x % 2 == 1 then x - 1 else x)
    else 2 * AndNotMask(x / 2, j - 1) + x % 2
  }

  /** Bit i of a bitmap block, least significant bit of each byte first. */
  predicate Bit(b: Block, i: nat) {
    i < 8 * |b| && TestMask(b[i / 8], i % 8)
  }

  function SetBit(b: Block, i: nat): (c: Block)
    requires i < 8 * |b|
    ensures |c| == |b|
    ensures forall k: nat :: Bit(c, k) <==> k == i || Bit(b, k)
  {
    assert Pow2(8) == 256;
    b[i / 8 := OrMask(b[i / 8], i % 8)]
  }

  function ClearBit(b: Block, i: nat): (c: Block)
    requires i < 8 * |b|
    ensures |c| == |b|
    ensures forall k: nat :: Bit(c, k) <==> k != i && Bit(b, k)
  {
    b[i / 8 := AndNotMask(b[i / 8], i % 8)]
  }

  /** The bits of a byte are its digits to the base 2, the lowest first. */
  lemma BitDigits(b: Block, k: nat)
    requires k < |b|
    ensures (Bit(b, 8 * k) <==> b[k] % 2 == 1) && (Bit(b, 8 * k + 1) <==> b[k] / 2 % 2 == 1)
    ensures (Bit(b, 8 * k + 2) <==> b[k] / 4 % 2 == 1) && (Bit(b, 8 * k + 3) <==> b[k] / 8 % 2 == 1)
    ensures (Bit(b, 8 * k + 4) <==> b[k] / 16 % 2 == 1) && (Bit(b, 8 * k + 5) <==> b[k] / 32 % 2 == 1)
    ensures (Bit(b, 8 * k + 6) <==> b[k] / 64 % 2 == 1) && (Bit(b, 8 * k + 7) <==> b[k] / 128 == 1)
  {
    hide Bit, TestMask;
    var x: nat := b[k];
    FirstMasks(x);
    FirstMasks(x / 16);
    forall j | 0 <= j < 8 ensures Bit(b, 8 * k + j) <==> TestMask(x, j) {
      BitOfByte(b, k, j);
    }
    assert Bit(b, 8 * k) <==> TestMask(x, 0);
    assert x / 16 / 2 == x / 32 && x / 16 / 4 == x / 64 && x / 16 / 8 == x / 128;
    assert TestMask(x, 4) == TestMask(x / 16, 0) && TestMask(x, 5) == TestMask(x / 16, 1);
    assert TestMask(x, 6) == TestMask(x / 16, 2) && TestMask(x, 7) == TestMask(x / 16, 3);
  }

  lemma BitOfByte(b: Block, k: nat, j: nat)
    requires k < |b| && j < 8
    ensures Bit(b, 8 * k + j) <==> TestMask(b[k], j)
  {
    hide TestMask;
  }

  lemma FirstMasks(x: nat)
    ensures (TestMask(x, 0) <==> x % 2 == 1) && (TestMask(x, 1) <==> x / 2 % 2 == 1)
    ensures (TestMask(x, 2) <==> x / 4 % 2 == 1) && (TestMask(x, 3) <==> x / 8 % 2 == 1)
    ensures forall j: nat :: j >= 4 ==> TestMask(x, j) == TestMask(x / 16, j - 4)
  {
    assert x / 2 / 2 == x / 4 && x / 4 / 2 == x / 8 && x / 8 / 2 == x / 16;
    assert TestMask(x, 2) == TestMask(x / 2, 1) == TestMask(x / 4, 0);
    assert TestMask(x, 3) == TestMask(x / 2, 2) == TestMask(x / 4, 1) == TestMask(x / 8, 0);
    forall j: nat | j >= 4 ensures TestMask(x, j) == TestMask(x / 16, j - 4) {
      assert TestMask(x, j) == TestMask(x / 2, j - 1) == TestMask(x / 4, j - 2) == TestMask(x / 8, j - 3) == TestMask(x / 16, j - 4);
    }
  }

  /** Number of clear bits among the first k bits. */
  function ClearBits(b: Block, k: nat): (c: nat)
    ensures c <= k
    ensures c == 0 <==> forall i :: 0 <= i < k ==> Bit(b, i)
  {
    if k == 0 then 0 else ClearBits(b, k - 1) + (if Bit(b, k - 1) then 0 else 1)
  }

  /** Two bitmaps that differ in bit i only differ in their count by one. */
  lemma {:induction false} ClearBitsStep(b: Block, c: Block, i: nat, k: nat)
    requires !Bit(b, i) && Bit(c, i)
    requires forall j: nat :: j != i ==> (Bit(b, j) <==> Bit(c, j))
    ensures ClearBits(b, k) == ClearBits(c, k) + (if i < k then 1 else 0)
  {
    if k > 0 {
      ClearBitsStep(b, c, i, k - 1);
    }
  }
}
