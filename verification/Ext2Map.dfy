/** The block mapper: from a logical block of a file to a block of the volume,
    for reading and for writing. */
module Ext2Map {
  import opened Machine
  import opened Arithmetic
  import opened Ext2Blocks
  import opened Ext2Tree
  import opened Ext2Bitmap
  import opened Ext2Cache
  import opened Ext2Grow
  import opened Ext2Volume

  class BlockCache {
    var single: Table
    var root: Table
    var leaf: Table

    constructor ()
      ensures View() == Cache(EMPTY, EMPTY, EMPTY)
    {
      single, root, leaf := EMPTY, EMPTY, EMPTY;
    }

    function View(): Cache
      reads this
    {
      Cache(single, root, leaf)
    }
  }

  /** The leaf table that logical block k belongs to. */
  function LeafOf(E: pos, k: nat): nat
    requires k >= 12 + E
  {
    (k - 12 - E) / E
  }

  /** Reading logical block k does not throw away a dirty leaf table. */
  predicate KeepsLeaf(E: pos, o: seq<Block>, c: Cache, ino: Inode, k: nat) {
    c.leaf.dirty && 12 + E <= k < Capacity(E) ==>
      var n := At(o, ino, Leaf(LeafOf(E, k)));
      n == 0 || n == c.leaf.number
  }

  /** A dirty leaf is the leaf of the file's last block. */
  predicate LeafTail(E: pos, o: seq<Block>, c: Cache, ino: Inode, n: nat) {
    c.leaf.dirty ==> 12 + E < n <= Capacity(E) && c.leaf.valid && c.leaf.number == At(o, ino, Leaf(LeafOf(E, n - 1)))
  }

  lemma LeafOfIs(E: pos, k: nat, index: nat)
    requires k == 12 + E + index
    ensures LeafOf(E, k) == index / E
  {
  }

  /** Which slot logical block k is, and which tables lie above it. */
  lemma SlotPath(E: pos, k: nat)
    requires k < Capacity(E)
    ensures InTree(E, SlotOf(E, k)) && Index(E, SlotOf(E, k)) == k
    ensures k < 12 ==> SlotOf(E, k) == Direct(k)
    ensures 12 <= k < 12 + E ==> SlotOf(E, k) == SEntry(k - 12) && InTree(E, Single)
    ensures k >= 12 + E ==> LeafOf(E, k) < E && SlotOf(E, k) == LEntry(LeafOf(E, k), (k - 12 - E) % E) && (k - 12 - E) % E < E
  {
    SlotIndex(E, k);
  }

  /** What a well-formed cache says about the tables it may hold. */
  lemma TableFacts(E: pos, bs: seq<Block>, c: Cache, ino: Inode, sh: Shape)
    requires Mapped(E, bs, c, ino, sh)
    ensures ino.block[12] != 0 <==> Live(E, sh, Single)
    ensures ino.block[13] != 0 <==> Live(E, sh, Root)
    ensures c.single.valid ==> c.single.number == ino.block[12] && ino.block[12] != 0 && |c.single.entries| == E
    ensures c.root.valid ==> c.root.number == ino.block[13] && ino.block[13] != 0 && |c.root.entries| == E
    ensures c.leaf.valid ==> c.root.valid && |c.leaf.entries| == E
    ensures c.single.dirty ==> c.single.valid
    ensures c.root.dirty ==> c.root.valid
    ensures c.leaf.dirty ==> c.leaf.valid
    ensures forall j: nat :: j < E ==> (At(Over(bs, c), ino, Leaf(j)) != 0 <==> Live(E, sh, Leaf(j)))
    ensures !Live(E, sh, Single) ==> forall i: nat :: i < E ==> At(Over(bs, c), ino, SEntry(i)) == 0
    ensures !Live(E, sh, Root) ==> forall j: nat :: j < E ==> At(Over(bs, c), ino, Leaf(j)) == 0
    ensures forall j: nat, i: nat :: j < E && i < E && At(Over(bs, c), ino, Leaf(j)) == 0 ==> At(Over(bs, c), ino, LEntry(j, i)) == 0
  {
    assert At(Over(bs, c), ino, Single) != 0 <==> Live(E, sh, Single);
    assert At(Over(bs, c), ino, Root) != 0 <==> Live(E, sh, Root);
  }

  /** A regular file open for reading and writing. */
  class Vnode {
    const fs: Volume
    const number: nat
    const cache: BlockCache
    var inode: Inode
    var size: nat
    ghost var shape: Shape

    constructor (fs: Volume, number: nat, inode: Inode, ghost shape: Shape)
      ensures this.fs == fs && this.number == number && this.inode == inode && size == inode.size && this.shape == shape
      ensures fresh(cache) && cache.View() == Cache(EMPTY, EMPTY, EMPTY)
    {
      this.fs, this.number, this.inode, size, this.shape := fs, number, inode, inode.size, shape;
      cache := new BlockCache();
    }

    ghost predicate Readable()
      reads this, fs, cache
    {
      Mapped(fs.L.entries, fs.disk.blocks, cache.View(), inode, shape)
    }

    ghost function Blocks(): seq<Block>
      reads this, fs, cache
    {
      Over(fs.disk.blocks, cache.View())
    }

    /** ext2_get_data_block: 0 for a hole. The leaf table it replaces is not
        written back, so the caller must not let it be dirty. */
    method GetDataBlock(k: nat) returns (ok: bool, b: u32)
      requires Readable() && KeepsLeaf(fs.L.entries, Blocks(), cache.View(), inode, k)
      modifies cache, fs`failed
      ensures ok ==> Readable() && Blocks() == old(Blocks()) && fs.failed == old(fs.failed)
      ensures ok ==> k < Capacity(fs.L.entries) && b == At(Blocks(), inode, SlotOf(fs.L.entries, k))
      ensures ok ==> cache.single.dirty == old(cache.single.dirty) && cache.root.dirty == old(cache.root.dirty) && cache.leaf.dirty == old(cache.leaf.dirty)
      ensures ok && cache.leaf.dirty ==> cache.leaf == old(cache.leaf)
      ensures !ok ==> k >= Capacity(fs.L.entries) || fs.failed
    {
      hide Mapped, Over, Encode, Decode, Live, LeafOf, SlotOf, Capacity;
      var E := fs.L.entries;
      TableFacts(E, fs.disk.blocks, cache.View(), inode, shape);
      SlotOfIs(E, k);
      if k < 12 {
        return true, inode.block[k];
      }
      var index: nat := k - 12;
      if index < E {
        SlotPath(E, k);
        if inode.block[12] == 0 {
          return true, 0;
        }
        ok := LoadSingle();
        if !ok {
          return false, 0;
        }
        HeldEntry(E, fs.disk.blocks, cache.View(), inode, shape, SEntry(index));
        return true, cache.single.entries[index];
      }
      index := index - E;
      if index < E * E {
        SlotPath(E, k);
        LeafOfIs(E, k, index);
        ok, b := GetDoubleBlock(index / E, index % E);
        return;
      }
      return false, 0;
    }

    /** The double-indirect half of ext2_get_data_block. */
    method GetDoubleBlock(first: nat, second: nat) returns (ok: bool, b: u32)
      requires Readable() && first < fs.L.entries && second < fs.L.entries
      requires cache.leaf.dirty ==> At(Blocks(), inode, Leaf(first)) in {0, cache.leaf.number}
      modifies cache`root, cache`leaf, fs`failed
      ensures ok ==> Readable() && Blocks() == old(Blocks()) && fs.failed == old(fs.failed)
      ensures ok ==> b == At(Blocks(), inode, LEntry(first, second))
      ensures ok ==> cache.root.dirty == old(cache.root.dirty) && cache.leaf.dirty == old(cache.leaf.dirty)
      ensures ok && cache.leaf.dirty ==> cache.leaf == old(cache.leaf)
      ensures !ok ==> fs.failed
    {
      hide Mapped, Over, Encode, Decode, Live, LeafOf;
      var E := fs.L.entries;
      TableFacts(E, fs.disk.blocks, cache.View(), inode, shape);
      if inode.block[13] == 0 {
        return true, 0;
      }
      ok := LoadRoot();
      if !ok {
        return false, 0;
      }
      HeldEntry(E, fs.disk.blocks, cache.View(), inode, shape, Leaf(first));
      var leafBlock := cache.root.entries[first];
      TableFacts(E, fs.disk.blocks, cache.View(), inode, shape);
      if leafBlock == 0 {
        return true, 0;
      }
      ok := LoadLeaf(first);
      if !ok {
        return false, 0;
      }
      HeldEntry(E, fs.disk.blocks, cache.View(), inode, shape, LEntry(first, second));
      return true, cache.leaf.entries[second];
    }

    /** The single-indirect table, from the cache or the disk. */
    method LoadSingle() returns (ok: bool)
      requires Readable() && inode.block[12] != 0
      modifies cache`single, fs`failed
      ensures ok ==> Readable() && Blocks() == old(Blocks()) && fs.failed == old(fs.failed)
      ensures ok ==> Holds(cache.View(), Blocks(), inode, Single) && cache.single.dirty == old(cache.single.dirty)
      ensures !ok ==> fs.failed
    {
      hide Mapped, Over, Encode, Decode, Live;
      TableFacts(fs.L.entries, fs.disk.blocks, cache.View(), inode, shape);
      if !cache.single.valid || cache.single.number != inode.block[12] {
        LoadSlot(fs.L.entries, fs.disk.blocks, cache.View(), inode, shape, Single);
        var block: Block;
        ok, block := fs.ReadBlock(inode.block[12]);
        if !ok {
          return;
        }
        cache.single := cache.single.(number := inode.block[12], valid := true, entries := Decode(block));
      }
      return true;
    }

    /** The double-indirect root, from the cache or the disk; a newly read
        root drops the cached leaf. */
    method LoadRoot() returns (ok: bool)
      requires Readable() && inode.block[13] != 0
      modifies cache`root, cache`leaf, fs`failed
      ensures ok ==> Readable() && Blocks() == old(Blocks()) && fs.failed == old(fs.failed)
      ensures ok ==> Holds(cache.View(), Blocks(), inode, Root) && cache.root.dirty == old(cache.root.dirty) && cache.leaf == old(cache.leaf)
      ensures !ok ==> fs.failed
    {
      hide Mapped, Over, Encode, Decode, Live;
      TableFacts(fs.L.entries, fs.disk.blocks, cache.View(), inode, shape);
      if !cache.root.valid || cache.root.number != inode.block[13] {
        LoadSlot(fs.L.entries, fs.disk.blocks, cache.View(), inode, shape, Root);
        var block: Block;
        ok, block := fs.ReadBlock(inode.block[13]);
        if !ok {
          return;
        }
        cache.root := cache.root.(number := inode.block[13], valid := true, entries := Decode(block));
        cache.leaf := cache.leaf.(valid := false);
      }
      return true;
    }

    /** Leaf table j, from the cache or the disk. */
    method LoadLeaf(j: nat) returns (ok: bool)
      requires Readable() && Holds(cache.View(), Blocks(), inode, Root)
      requires j < fs.L.entries && At(Blocks(), inode, Leaf(j)) != 0
      requires cache.leaf.dirty ==> cache.leaf.number == At(Blocks(), inode, Leaf(j))
      modifies cache`leaf, fs`failed
      ensures ok ==> Readable() && Blocks() == old(Blocks()) && fs.failed == old(fs.failed)
      ensures ok ==> Holds(cache.View(), Blocks(), inode, Leaf(j)) && cache.leaf.dirty == old(cache.leaf.dirty)
      ensures ok && cache.leaf.dirty ==> cache.leaf == old(cache.leaf)
      ensures !ok ==> fs.failed
    {
      hide Mapped, Over, Encode, Decode, Live;
      TableFacts(fs.L.entries, fs.disk.blocks, cache.View(), inode, shape);
      HeldEntry(fs.L.entries, fs.disk.blocks, cache.View(), inode, shape, Leaf(j));
      var leafBlock := cache.root.entries[j];
      if !cache.leaf.valid || cache.leaf.number != leafBlock {
        LoadSlot(fs.L.entries, fs.disk.blocks, cache.View(), inode, shape, Leaf(j));
        var block: Block;
        ok, block := fs.ReadBlock(leafBlock);
        if !ok {
          return;
        }
        cache.leaf := cache.leaf.(number := leafBlock, valid := true, entries := Decode(block));
      }
      return true;
    }

    /* ---------- writing ---------- */

    ghost function Now(ctx: AllocationContext): State
      reads this, fs, cache, ctx
    {
      State(fs.disk, fs.free, ctx.View(), ctx.allocatedBlocks, cache.View(), inode, shape)
    }

    /** ext2_allocate_block and the refusal of block 0 that follows each call. */
    method TakeBlock(ctx: AllocationContext) returns (ok: bool, b: u32)
      requires ctx.fs == fs && Busy(fs.L, Now(ctx))
      modifies ctx, fs
      ensures ok ==> HeldOk(fs.L, fs.disk, fs.free, ctx.View()) && SameData(fs.L, old(fs.disk), fs.disk)
      ensures ok ==> fs.free + 1 == old(fs.free) && ctx.allocatedBlocks == old(ctx.allocatedBlocks) + 1 && fs.failed == old(fs.failed)
      ensures ok ==> fs.L.first <= b < fs.L.count && b !in fs.L.meta && b !in old(UsedNow(fs.L, Now(ctx)))
      ensures ok ==> InUse(fs.L, Overlaid(fs.disk, ctx.View())) == old(UsedNow(fs.L, Now(ctx))) + {b as nat}
      ensures !ok && !fs.failed ==> fs.free == 0
    {
      hide HeldOk, Mapped, InUse, Overlaid, Over, Encode, Decode, Busy, Advanced, SameData, SectorsPerBlock, Full, At, Live;
      BusyFacts(fs.L, Now(ctx));
      NoSumWraps(fs.L);
      var n: nat;
      ok, n := ctx.Allocate();
      if !ok || n == 0 {
        return false, 0;
      }
      return true, n;
    }

    /** The single-indirect table of a file about to use it: created with its
        first entry, otherwise read unless cached. */
    method EnsureSingle(ctx: AllocationContext) returns (ok: bool)
      requires ctx.fs == fs && Busy(fs.L, Now(ctx))
      modifies this`inode, this`shape, cache`single, ctx, fs
      ensures ok ==> Busy(fs.L, Now(ctx)) && Advanced(fs.L, old(Now(ctx)), Now(ctx)) && fs.failed == old(fs.failed)
      ensures ok ==> Holds(cache.View(), Blocks(), inode, Single) && shape == old(shape).(single := true)
      ensures !ok && !fs.failed ==> fs.free == 0
    {
      hide HeldOk, Mapped, InUse, Overlaid, Over, Encode, Decode, Busy, Advanced, SameData, SectorsPerBlock, Full, At, Live;
      ghost var st := Now(ctx);
      BusyFacts(fs.L, st);
      TableFacts(fs.L.entries, fs.disk.blocks, cache.View(), inode, shape);
      if inode.block[12] == 0 {
        var b: u32;
        ok, b := TakeBlock(ctx);
        if !ok {
          return;
        }
        inode := inode.(block := inode.block[12 := b], sectors := inode.sectors + SectorsPerBlock(fs.L.entries));
        cache.single := Table(true, true, b, seq(fs.L.entries, _ => 0));
        shape := shape.(single := true);
        GrowsSingle(fs.L, st, fs.disk, fs.free, ctx.View(), b, Now(ctx));
      } else {
        ok := LoadSingle();
        if !ok {
          return;
        }
        BusyAgain(fs.L, st, Now(ctx));
        LiveSingle(fs.L.entries, shape);
      }
      return true;
    }

    /** The double-indirect root of a file about to use it. */
    method EnsureRoot(ctx: AllocationContext) returns (ok: bool)
      requires ctx.fs == fs && Busy(fs.L, Now(ctx))
      modifies this`inode, this`shape, cache`root, cache`leaf, ctx, fs
      ensures ok ==> Busy(fs.L, Now(ctx)) && Advanced(fs.L, old(Now(ctx)), Now(ctx)) && fs.failed == old(fs.failed)
      ensures ok ==> Holds(cache.View(), Blocks(), inode, Root) && shape == old(shape).(root := true)
      ensures ok ==> cache.leaf == old(cache.leaf)
      ensures !ok && !fs.failed ==> fs.free == 0
    {
      hide HeldOk, Mapped, InUse, Overlaid, Over, Encode, Decode, Busy, Advanced, SameData, SectorsPerBlock, Full, At, Live;
      ghost var st := Now(ctx);
      BusyFacts(fs.L, st);
      TableFacts(fs.L.entries, fs.disk.blocks, cache.View(), inode, shape);
      if inode.block[13] == 0 {
        var b: u32;
        ok, b := TakeBlock(ctx);
        if !ok {
          return;
        }
        inode := inode.(block := inode.block[13 := b], sectors := inode.sectors + SectorsPerBlock(fs.L.entries));
        cache.root := Table(true, true, b, seq(fs.L.entries, _ => 0));
        cache.leaf := cache.leaf.(valid := false, dirty := false);
        shape := shape.(root := true);
        GrowsRoot(fs.L, st, fs.disk, fs.free, ctx.View(), b, Now(ctx));
      } else {
        ok := LoadRoot();
        if !ok {
          return;
        }
        BusyAgain(fs.L, st, Now(ctx));
        LiveSingle(fs.L.entries, shape);
      }
      return true;
    }

    /** The write-back of a dirty leaf before its slot is reused. */
    method FlushLeaf(ghost ctx: AllocationContext) returns (ok: bool)
      requires ctx.fs == fs && Busy(fs.L, Now(ctx))
      modifies cache`leaf, fs`disk, fs`failed
      ensures ok ==> Busy(fs.L, Now(ctx)) && Advanced(fs.L, old(Now(ctx)), Now(ctx)) && fs.failed == old(fs.failed)
      ensures ok ==> !cache.leaf.dirty && Blocks() == old(Blocks()) && cache.leaf == old(cache.leaf).(dirty := false)
      ensures !ok ==> fs.failed
    {
      hide HeldOk, Mapped, InUse, Overlaid, Over, Encode, Decode, Busy, Advanced, SameData, SectorsPerBlock, Full, At, Live;
      ghost var st := Now(ctx);
      BusyFacts(fs.L, st);
      TableFacts(fs.L.entries, fs.disk.blocks, cache.View(), inode, shape);
      if cache.leaf.valid && cache.leaf.dirty {
        BusyFlushesLeaf(fs.L, st);
        ok := fs.WriteBlock(cache.leaf.number, Encode(cache.leaf.entries));
        if !ok {
          return;
        }
        cache.leaf := cache.leaf.(dirty := false);
      } else {
        BusyAgain(fs.L, st, st);
      }
      return true;
    }

    /** The leaf behind the last one, empty. */
    method CreateLeaf(ctx: AllocationContext, j: nat) returns (ok: bool)
      requires ctx.fs == fs && Busy(fs.L, Now(ctx)) && Holds(cache.View(), Blocks(), inode, Root)
      requires j < fs.L.entries && j == shape.leaves
      modifies this`inode, this`shape, cache`root, cache`leaf, ctx, fs
      ensures ok ==> Busy(fs.L, Now(ctx)) && Advanced(fs.L, old(Now(ctx)), Now(ctx)) && fs.failed == old(fs.failed)
      ensures ok ==> Holds(cache.View(), Blocks(), inode, Leaf(j)) && shape == old(shape).(leaves := j + 1)
      ensures !ok && !fs.failed ==> fs.free == 0
    {
      hide HeldOk, Mapped, InUse, Overlaid, Over, Encode, Decode, Busy, Advanced, SameData, SectorsPerBlock, Full, At, Live;
      var E := fs.L.entries;
      ghost var st := Now(ctx);
      ok := FlushLeaf(ctx);
      if !ok {
        return;
      }
      ghost var st1 := Now(ctx);
      BusyFacts(fs.L, st1);
      TableFacts(E, fs.disk.blocks, cache.View(), inode, shape);
      HeldLeaf(E, fs.disk.blocks, cache.View(), inode, shape, j);
      var b: u32;
      ok, b := TakeBlock(ctx);
      if !ok {
        return;
      }
      cache.root := cache.root.(entries := cache.root.entries[j := b], dirty := true);
      inode := inode.(sectors := inode.sectors + SectorsPerBlock(E));
      cache.leaf := Table(true, true, b, seq(E, _ => 0));
      shape := shape.(leaves := shape.leaves + 1);
      GrowsLeaf(fs.L, st1, j, fs.disk, fs.free, ctx.View(), b, Now(ctx));
      AdvancedTwice(fs.L, st, st1, Now(ctx));
    }

    /** Leaf table j of a file about to use it. */
    method EnsureLeaf(ctx: AllocationContext, j: nat) returns (ok: bool)
      requires ctx.fs == fs && Busy(fs.L, Now(ctx)) && Holds(cache.View(), Blocks(), inode, Root)
      requires j < fs.L.entries && j <= shape.leaves
      modifies this`inode, this`shape, cache`root, cache`leaf, ctx, fs
      ensures ok ==> Busy(fs.L, Now(ctx)) && Advanced(fs.L, old(Now(ctx)), Now(ctx)) && fs.failed == old(fs.failed)
      ensures ok ==> Holds(cache.View(), Blocks(), inode, Leaf(j))
      ensures ok ==> shape == if j < old(shape).leaves then old(shape) else old(shape).(leaves := j + 1)
      ensures ok && j < old(shape).leaves && !old(cache.leaf.dirty) ==> !cache.leaf.dirty
      ensures !ok && !fs.failed ==> fs.free == 0
    {
      hide HeldOk, Mapped, InUse, Overlaid, Over, Encode, Decode, Busy, Advanced, SameData, SectorsPerBlock, Full, At, Live;
      var E := fs.L.entries;
      ghost var st := Now(ctx);
      BusyFacts(fs.L, st);
      TableFacts(E, fs.disk.blocks, cache.View(), inode, shape);
      HeldLeaf(E, fs.disk.blocks, cache.View(), inode, shape, j);
      var leafBlock := cache.root.entries[j];
      if leafBlock == 0 {
        ok := CreateLeaf(ctx, j);
        return;
      } else if !cache.leaf.valid || cache.leaf.number != leafBlock {
        ok := FlushLeaf(ctx);
        if !ok {
          return;
        }
        ghost var st1 := Now(ctx);
        BusyFacts(fs.L, st1);
        HoldsAgain(st, st1);
        ok := LoadLeaf(j);
        if !ok {
          return;
        }
        BusyAgain(fs.L, st1, Now(ctx));
        AdvancedTwice(fs.L, st, st1, Now(ctx));
      } else {
        BusyAgain(fs.L, st, st);
      }
      return true;
    }

    /** The write-back of the single-indirect table and of the root. */
    method FlushSingle(ghost ctx: AllocationContext) returns (ok: bool)
      requires ctx.fs == fs && Busy(fs.L, Now(ctx))
      modifies cache`single, fs`disk, fs`failed
      ensures ok ==> Busy(fs.L, Now(ctx)) && Advanced(fs.L, old(Now(ctx)), Now(ctx)) && fs.failed == old(fs.failed)
      ensures ok ==> !cache.single.dirty && Blocks() == old(Blocks())
      ensures !ok ==> fs.failed
    {
      hide HeldOk, Mapped, InUse, Overlaid, Over, Encode, Decode, Busy, Advanced, SameData, SectorsPerBlock, Full, At, Live;
      ghost var st := Now(ctx);
      BusyFacts(fs.L, st);
      TableFacts(fs.L.entries, fs.disk.blocks, cache.View(), inode, shape);
      if cache.single.valid && cache.single.dirty {
        BusyFlushes(fs.L, st, TheSingle);
        ok := fs.WriteBlock(cache.single.number, Encode(cache.single.entries));
        if !ok {
          return;
        }
        cache.single := cache.single.(dirty := false);
      } else {
        BusyAgain(fs.L, st, st);
      }
      return true;
    }

    method FlushRoot(ghost ctx: AllocationContext) returns (ok: bool)
      requires ctx.fs == fs && Busy(fs.L, Now(ctx))
      modifies cache`root, fs`disk, fs`failed
      ensures ok ==> Busy(fs.L, Now(ctx)) && Advanced(fs.L, old(Now(ctx)), Now(ctx)) && fs.failed == old(fs.failed)
      ensures ok ==> !cache.root.dirty && Blocks() == old(Blocks())
      ensures !ok ==> fs.failed
    {
      hide HeldOk, Mapped, InUse, Overlaid, Over, Encode, Decode, Busy, Advanced, SameData, SectorsPerBlock, Full, At, Live;
      ghost var st := Now(ctx);
      BusyFacts(fs.L, st);
      TableFacts(fs.L.entries, fs.disk.blocks, cache.View(), inode, shape);
      if cache.root.valid && cache.root.dirty {
        BusyFlushes(fs.L, st, TheRoot);
        ok := fs.WriteBlock(cache.root.number, Encode(cache.root.entries));
        if !ok {
          return;
        }
        cache.root := cache.root.(dirty := false);
      } else {
        BusyAgain(fs.L, st, st);
      }
      return true;
    }

    /** ext2_flush_block_cache: single, leaf, root. */
    method FlushCache(ghost ctx: AllocationContext) returns (ok: bool)
      requires ctx.fs == fs && Busy(fs.L, Now(ctx))
      modifies cache, fs`disk, fs`failed
      ensures ok ==> Busy(fs.L, Now(ctx)) && Advanced(fs.L, old(Now(ctx)), Now(ctx)) && fs.failed == old(fs.failed)
      ensures ok ==> Clean(cache.View()) && Blocks() == old(Blocks())
      ensures !ok ==> fs.failed
    {
      hide HeldOk, Mapped, InUse, Overlaid, Over, Encode, Decode, Busy, Advanced, SameData, SectorsPerBlock, Full, At, Live;
      ghost var st := Now(ctx);
      ok := FlushSingle(ctx);
      if !ok {
        return;
      }
      ghost var st1 := Now(ctx);
      ok := FlushLeaf(ctx);
      if !ok {
        return;
      }
      ghost var st2 := Now(ctx);
      AdvancedTwice(fs.L, st, st1, st2);
      ok := FlushRoot(ctx);
      if ok {
        AdvancedTwice(fs.L, st, st2, Now(ctx));
      }
    }

    /** A direct block of the file, allocated when it is the next one. */
    method TakeDirect(ctx: AllocationContext, k: nat) returns (ok: bool, b: u32)
      requires ctx.fs == fs && Busy(fs.L, Now(ctx)) && k < 12 && k <= shape.n
      modifies this`inode, this`shape, ctx, fs
      ensures ok ==> Busy(fs.L, Now(ctx)) && Advanced(fs.L, old(Now(ctx)), Now(ctx)) && fs.failed == old(fs.failed)
      ensures ok ==> b == At(Blocks(), inode, Direct(k)) && shape == AtLeast(old(shape), k + 1)
      ensures !ok && !fs.failed ==> fs.free == 0
    {
      hide HeldOk, Mapped, InUse, Overlaid, Over, Encode, Decode, Busy, Advanced, SameData, SectorsPerBlock, Full, At, Live;
      ghost var st := Now(ctx);
      BusyFacts(fs.L, st);
      DirectFacts(fs.L.entries, fs.disk.blocks, cache.View(), inode, shape, k);
      if inode.block[k] == 0 {
        var newBlock: u32;
        ok, newBlock := TakeBlock(ctx);
        if !ok {
          return false, 0;
        }
        inode := inode.(block := inode.block[k := newBlock], sectors := inode.sectors + SectorsPerBlock(fs.L.entries));
        shape := shape.(n := shape.n + 1);
        GrowsDirect(fs.L, st, k, fs.disk, fs.free, ctx.View(), newBlock, Now(ctx));
      } else {
        BusyAgain(fs.L, st, st);
      }
      return true, inode.block[k];
    }

    /** A data block listed in the single-indirect table. */
    method TakeSingleEntry(ctx: AllocationContext, i: nat) returns (ok: bool, b: u32)
      requires ctx.fs == fs && Busy(fs.L, Now(ctx)) && Holds(cache.View(), Blocks(), inode, Single)
      requires i < fs.L.entries && 12 + i <= shape.n
      modifies this`inode, this`shape, cache`single, ctx, fs
      ensures ok ==> Busy(fs.L, Now(ctx)) && Advanced(fs.L, old(Now(ctx)), Now(ctx)) && fs.failed == old(fs.failed)
      ensures ok ==> b == At(Blocks(), inode, SEntry(i)) && shape == AtLeast(old(shape), 12 + i + 1)
      ensures !ok && !fs.failed ==> fs.free == 0
    {
      hide HeldOk, Mapped, InUse, Overlaid, Over, Encode, Decode, Busy, Advanced, SameData, SectorsPerBlock, Full, At, Live;
      ghost var st := Now(ctx);
      BusyFacts(fs.L, st);
      EntryFacts(fs.L.entries, fs.disk.blocks, cache.View(), inode, shape, SEntry(i));
      if cache.single.entries[i] == 0 {
        var newBlock: u32;
        ok, newBlock := TakeBlock(ctx);
        if !ok {
          return false, 0;
        }
        cache.single := cache.single.(entries := cache.single.entries[i := newBlock], dirty := true);
        inode := inode.(sectors := inode.sectors + SectorsPerBlock(fs.L.entries));
        shape := shape.(n := shape.n + 1);
        GrowsEntry(fs.L, st, SEntry(i), fs.disk, fs.free, ctx.View(), newBlock, Now(ctx));
      } else {
        BusyAgain(fs.L, st, st);
      }
      return true, cache.single.entries[i];
    }

    /** A data block listed in leaf table j. */
    method TakeLeafEntry(ctx: AllocationContext, j: nat, i: nat) returns (ok: bool, b: u32)
      requires ctx.fs == fs && Busy(fs.L, Now(ctx)) && Holds(cache.View(), Blocks(), inode, Leaf(j))
      requires j < fs.L.entries && j < shape.leaves && i < fs.L.entries && LeafBase(fs.L.entries, j) + i <= shape.n
      modifies this`inode, this`shape, cache`leaf, ctx, fs
      ensures ok ==> Busy(fs.L, Now(ctx)) && Advanced(fs.L, old(Now(ctx)), Now(ctx)) && fs.failed == old(fs.failed)
      ensures ok ==> b == At(Blocks(), inode, LEntry(j, i)) && shape == AtLeast(old(shape), LeafBase(fs.L.entries, j) + i + 1)
      ensures ok ==> Holds(cache.View(), Blocks(), inode, Leaf(j))
      ensures ok && shape == old(shape) ==> cache.leaf == old(cache.leaf)
      ensures !ok && !fs.failed ==> fs.free == 0
    {
      hide HeldOk, Mapped, InUse, Overlaid, Over, Encode, Decode, Busy, Advanced, SameData, SectorsPerBlock, Full, At, Live, LeafBase;
      ghost var st := Now(ctx);
      BusyFacts(fs.L, st);
      EntryFacts(fs.L.entries, fs.disk.blocks, cache.View(), inode, shape, LEntry(j, i));
      if cache.leaf.entries[i] == 0 {
        var newBlock: u32;
        ok, newBlock := TakeBlock(ctx);
        if !ok {
          return false, 0;
        }
        cache.leaf := cache.leaf.(entries := cache.leaf.entries[i := newBlock], dirty := true);
        inode := inode.(sectors := inode.sectors + SectorsPerBlock(fs.L.entries));
        shape := shape.(n := shape.n + 1);
        GrowsEntry(fs.L, st, LEntry(j, i), fs.disk, fs.free, ctx.View(), newBlock, Now(ctx));
      } else {
        BusyAgain(fs.L, st, st);
      }
      return true, cache.leaf.entries[i];
    }

    /** ext2_get_or_allocate_data_block. */
    method GetOrAllocate(ctx: AllocationContext, k: nat) returns (ok: bool, b: u32)
      requires ctx.fs == fs && Busy(fs.L, Now(ctx)) && shape == Canon(fs.L.entries, shape.n) && k <= shape.n
      requires LeafTail(fs.L.entries, Blocks(), cache.View(), inode, shape.n) && (k < shape.n ==> !cache.leaf.dirty)
      modifies this`inode, this`shape, cache, ctx, fs
      ensures ok ==> Busy(fs.L, Now(ctx)) && Advanced(fs.L, old(Now(ctx)), Now(ctx)) && fs.failed == old(fs.failed)
      ensures ok ==> k < Capacity(fs.L.entries) && b == At(Blocks(), inode, SlotOf(fs.L.entries, k))
      ensures ok ==> shape == Canon(fs.L.entries, if k < old(shape.n) then old(shape.n) else k + 1)
      ensures ok ==> LeafTail(fs.L.entries, Blocks(), cache.View(), inode, shape.n) && (k < old(shape.n) ==> !cache.leaf.dirty)
      ensures !ok && !fs.failed ==> k >= Capacity(fs.L.entries) || fs.free == 0
    {
      hide HeldOk, Mapped, InUse, Overlaid, Over, Encode, Decode, Busy, Advanced, SameData, SectorsPerBlock, Full, At, Live, LeafBase, LeafOf, LeavesFor;
      var E := fs.L.entries;
      ghost var st := Now(ctx);
      BusyFacts(fs.L, st);
      CanonSteps(E, shape.n, k);
      if k < 12 {
        NoLeafYet(fs.L, st);
        ok, b := TakeDirect(ctx, k);
        return;
      }
      var index: nat := k - 12;
      if index < E {
        NoLeafYet(fs.L, st);
        ok := EnsureSingle(ctx);
        if !ok {
          return false, 0;
        }
        ghost var st1 := Now(ctx);
        ok, b := TakeSingleEntry(ctx, index);
        if ok {
          AdvancedTwice(fs.L, st, st1, Now(ctx));
        }
        return;
      }
      index := index - E;
      if index < E * E {
        LeafOfIs(E, k, index);
        ok, b := TakeDoubleBlock(ctx, k, index / E, index % E);
        return;
      }
      return false, 0;
    }

    /** The double-indirect part of ext2_get_or_allocate_data_block. */
    method TakeDoubleBlock(ctx: AllocationContext, k: nat, first: nat, second: nat) returns (ok: bool, b: u32)
      requires ctx.fs == fs && Busy(fs.L, Now(ctx)) && k <= shape.n
      requires first < fs.L.entries && second < fs.L.entries && k == LeafBase(fs.L.entries, first) + second
      requires first <= shape.leaves
      modifies this`inode, this`shape, cache, ctx, fs
      ensures ok ==> Busy(fs.L, Now(ctx)) && Advanced(fs.L, old(Now(ctx)), Now(ctx)) && fs.failed == old(fs.failed)
      ensures ok ==> b == At(Blocks(), inode, LEntry(first, second))
      ensures ok ==> shape == AtLeast(old(shape).(root := true, leaves := if first < old(shape).leaves then old(shape).leaves else first + 1), k + 1)
      ensures ok ==> Holds(cache.View(), Blocks(), inode, Leaf(first))
      ensures ok && k < old(shape).n && first < old(shape).leaves && !old(cache.leaf.dirty) ==> !cache.leaf.dirty
      ensures !ok && !fs.failed ==> fs.free == 0
    {
      hide HeldOk, Mapped, InUse, Overlaid, Over, Encode, Decode, Busy, Advanced, SameData, SectorsPerBlock, Full, At, Live, LeafBase;
      ghost var st := Now(ctx);
      ok := EnsureRoot(ctx);
      if !ok {
        return false, 0;
      }
      ghost var st1 := Now(ctx);
      ok := EnsureLeaf(ctx, first);
      if !ok {
        return false, 0;
      }
      ghost var st2 := Now(ctx);
      AdvancedTwice(fs.L, st, st1, st2);
      ok, b := TakeLeafEntry(ctx, first, second);
      if ok {
        AdvancedTwice(fs.L, st, st2, Now(ctx));
      }
    }
  }

  /* ---------- the allocation steps, one slot each ---------- */

  lemma GrowsSingle(L: Layout, st: State, d1: Disk, free1: nat, h1: Held, b: u32, st': State)
    requires Busy(L, st) && st.ino.block[12] == 0
    requires HeldOk(L, d1, free1, h1) && SameData(L, st.d, d1) && free1 + 1 == st.free
    requires L.first <= b < L.count && b !in L.meta && b !in UsedNow(L, st)
    requires InUse(L, Overlaid(d1, h1)) == UsedNow(L, st) + {b as nat}
    requires st' == State(d1, free1, h1, st.taken + 1, st.c.(single := Table(true, true, b, seq(L.entries, _ => 0))),
                          st.ino.(block := st.ino.block[12 := b], sectors := st.ino.sectors + SectorsPerBlock(L.entries)),
                          st.sh.(single := true))
    ensures Busy(L, st') && Advanced(L, st, st') && Holds(st'.c, Seen(st'), st'.ino, Single)
  {
    hide HeldOk, Tree, CacheOk, InUse, Overlaid, OwnedIn, Over, SectorsPerBlock, SameData;
    TableFacts(L.entries, st.d.blocks, st.c, st.ino, st.sh);
    BusyGrows(L, st, d1, free1, h1, Single, b, st');
  }

  lemma GrowsRoot(L: Layout, st: State, d1: Disk, free1: nat, h1: Held, b: u32, st': State)
    requires Busy(L, st) && st.ino.block[13] == 0
    requires HeldOk(L, d1, free1, h1) && SameData(L, st.d, d1) && free1 + 1 == st.free
    requires L.first <= b < L.count && b !in L.meta && b !in UsedNow(L, st)
    requires InUse(L, Overlaid(d1, h1)) == UsedNow(L, st) + {b as nat}
    requires st' == State(d1, free1, h1, st.taken + 1,
                          st.c.(root := Table(true, true, b, seq(L.entries, _ => 0)), leaf := st.c.leaf.(valid := false, dirty := false)),
                          st.ino.(block := st.ino.block[13 := b], sectors := st.ino.sectors + SectorsPerBlock(L.entries)),
                          st.sh.(root := true))
    ensures Busy(L, st') && Advanced(L, st, st') && Holds(st'.c, Seen(st'), st'.ino, Root)
    ensures st'.c.leaf == st.c.leaf
  {
    hide HeldOk, Tree, CacheOk, InUse, Overlaid, OwnedIn, Over, SectorsPerBlock, SameData;
    TableFacts(L.entries, st.d.blocks, st.c, st.ino, st.sh);
    BusyGrows(L, st, d1, free1, h1, Root, b, st');
  }

  lemma GrowsLeaf(L: Layout, st: State, j: nat, d1: Disk, free1: nat, h1: Held, b: u32, st': State)
    requires Busy(L, st) && Holds(st.c, Seen(st), st.ino, Root) && j < L.entries && j <= st.sh.leaves
    requires |st.c.root.entries| == L.entries && st.c.root.entries[j] == 0 && !st.c.leaf.dirty
    requires HeldOk(L, d1, free1, h1) && SameData(L, st.d, d1) && free1 + 1 == st.free
    requires L.first <= b < L.count && b !in L.meta && b !in UsedNow(L, st)
    requires InUse(L, Overlaid(d1, h1)) == UsedNow(L, st) + {b as nat}
    requires st' == State(d1, free1, h1, st.taken + 1,
                          st.c.(root := st.c.root.(entries := st.c.root.entries[j := b], dirty := true), leaf := Table(true, true, b, seq(L.entries, _ => 0))),
                          st.ino.(sectors := st.ino.sectors + SectorsPerBlock(L.entries)),
                          st.sh.(leaves := st.sh.leaves + 1))
    ensures j == st.sh.leaves
    ensures Busy(L, st') && Advanced(L, st, st') && Holds(st'.c, Seen(st'), st'.ino, Leaf(j))
  {
    hide HeldOk, Tree, CacheOk, InUse, Overlaid, OwnedIn, Over, SectorsPerBlock, SameData;
    TableFacts(L.entries, st.d.blocks, st.c, st.ino, st.sh);
    HeldEntry(L.entries, st.d.blocks, st.c, st.ino, st.sh, Leaf(j));
    BusyGrows(L, st, d1, free1, h1, Leaf(j), b, st');
    HoldsRoot(L.entries, st'.d.blocks, st'.c, st'.ino, st'.sh, j);
  }

  lemma HoldsRoot(E: pos, bs: seq<Block>, c: Cache, ino: Inode, sh: Shape, j: nat)
    requires Mapped(E, bs, c, ino, sh) && c.root.valid && c.leaf.valid && j < E
    requires |c.root.entries| == E && c.root.entries[j] == c.leaf.number
    ensures Holds(c, Over(bs, c), ino, Leaf(j))
  {
    CachedSlots(E, bs, c, ino, sh);
    HeldEntry(E, bs, c, ino, sh, Leaf(j));
  }

  lemma LiveSingle(E: pos, sh: Shape)
    ensures Live(E, sh, Single) <==> sh.single
    ensures Live(E, sh, Root) <==> sh.root
  {
  }

  lemma HeldLeaf(E: pos, bs: seq<Block>, c: Cache, ino: Inode, sh: Shape, j: nat)
    requires Mapped(E, bs, c, ino, sh) && Holds(c, Over(bs, c), ino, Root) && j < E
    ensures c.root.valid && |c.root.entries| == E && c.root.entries[j] == At(Over(bs, c), ino, Leaf(j))
    ensures c.root.entries[j] != 0 <==> j < sh.leaves
    ensures c.leaf.valid && c.leaf.number == c.root.entries[j] ==> Holds(c, Over(bs, c), ino, Leaf(j))
  {
    HeldEntry(E, bs, c, ino, sh, Leaf(j));
    assert At(Over(bs, c), ino, Leaf(j)) != 0 <==> Live(E, sh, Leaf(j));
  }

  lemma HoldsAgain(st: State, st1: State)
    requires Holds(st.c, Seen(st), st.ino, Root) && st1.c.root == st.c.root && Seen(st1) == Seen(st) && st1.ino == st.ino
    ensures Holds(st1.c, Seen(st1), st1.ino, Root)
  {
  }

  lemma BusyFlushesLeaf(L: Layout, st: State)
    requires Busy(L, st) && st.c.leaf.valid
    ensures st.c.leaf.number < |st.d.blocks|
    ensures
      var st' := st.(d := st.d.(blocks := st.d.blocks[st.c.leaf.number := Encode(st.c.leaf.entries)]), c := st.c.(leaf := st.c.leaf.(dirty := false)));
      Busy(L, st') && Advanced(L, st, st') && Seen(st') == Seen(st)
  {
    BusyFlushes(L, st, TheLeaf);
  }

  /** A shape with at least n data blocks. */
  function AtLeast(sh: Shape, n: nat): Shape {
    sh.(n := if n > sh.n then n else sh.n)
  }

  lemma DirectFacts(E: pos, bs: seq<Block>, c: Cache, ino: Inode, sh: Shape, k: nat)
    requires Mapped(E, bs, c, ino, sh) && k < 12
    ensures ino.block[k] == At(Over(bs, c), ino, Direct(k)) && (ino.block[k] != 0 <==> k < sh.n)
  {
    assert At(Over(bs, c), ino, Direct(k)) != 0 <==> Live(E, sh, Direct(k));
  }

  lemma EntryFacts(E: pos, bs: seq<Block>, c: Cache, ino: Inode, sh: Shape, s: Slot)
    requires Mapped(E, bs, c, ino, sh) && InTree(E, s) && (s.SEntry? || s.LEntry?)
    requires Holds(c, Over(bs, c), ino, Parent(s))
    ensures |Get(c, WhichOf(Parent(s))).entries| == E
    ensures Get(c, WhichOf(Parent(s))).entries[Position(s)] == At(Over(bs, c), ino, s)
    ensures At(Over(bs, c), ino, s) != 0 <==> Index(E, s) < sh.n
    ensures s.SEntry? ==> sh.single
    ensures s.LEntry? ==> sh.root && s.j < sh.leaves
  {
    HeldEntry(E, bs, c, ino, sh, s);
    TableFacts(E, bs, c, ino, sh);
    assert At(Over(bs, c), ino, s) != 0 <==> Live(E, sh, s);
    assert At(Over(bs, c), ino, Parent(s)) != 0 <==> Live(E, sh, Parent(s));
  }

  lemma GrowsDirect(L: Layout, st: State, k: nat, d1: Disk, free1: nat, h1: Held, b: u32, st': State)
    requires Busy(L, st) && k < 12 && k == st.sh.n
    requires HeldOk(L, d1, free1, h1) && SameData(L, st.d, d1) && free1 + 1 == st.free
    requires L.first <= b < L.count && b !in L.meta && b !in UsedNow(L, st)
    requires InUse(L, Overlaid(d1, h1)) == UsedNow(L, st) + {b as nat}
    requires st' == State(d1, free1, h1, st.taken + 1, st.c,
                          st.ino.(block := st.ino.block[k := b], sectors := st.ino.sectors + SectorsPerBlock(L.entries)),
                          st.sh.(n := st.sh.n + 1))
    ensures Busy(L, st') && Advanced(L, st, st') && st'.ino.block[k] == At(Seen(st'), st'.ino, Direct(k))
  {
    hide HeldOk, Tree, CacheOk, InUse, Overlaid, OwnedIn, Over, SectorsPerBlock, SameData;
    BusyFacts(L, st);
    BusyGrows(L, st, d1, free1, h1, Direct(k), b, st');
  }

  lemma GrowsEntry(L: Layout, st: State, s: Slot, d1: Disk, free1: nat, h1: Held, b: u32, st': State)
    requires Busy(L, st) && (s.SEntry? || s.LEntry?) && InTree(L.entries, s) && Index(L.entries, s) == st.sh.n
    requires Holds(st.c, Seen(st), st.ino, Parent(s))
    requires |Get(st.c, WhichOf(Parent(s))).entries| == L.entries
    requires HeldOk(L, d1, free1, h1) && SameData(L, st.d, d1) && free1 + 1 == st.free
    requires L.first <= b < L.count && b !in L.meta && b !in UsedNow(L, st)
    requires InUse(L, Overlaid(d1, h1)) == UsedNow(L, st) + {b as nat}
    requires st' == State(d1, free1, h1, st.taken + 1, EntryFilled(st.c, s, b),
                          st.ino.(sectors := st.ino.sectors + SectorsPerBlock(L.entries)), st.sh.(n := st.sh.n + 1))
    ensures Busy(L, st') && Advanced(L, st, st')
    ensures |Get(st'.c, WhichOf(Parent(s))).entries| == L.entries
    ensures Get(st'.c, WhichOf(Parent(s))).entries[Position(s)] == At(Seen(st'), st'.ino, s)
    ensures Holds(st'.c, Seen(st'), st'.ino, Parent(s))
  {
    hide HeldOk, Tree, CacheOk, InUse, Overlaid, OwnedIn, Over, SectorsPerBlock, SameData, LeafBase;
    BusyFacts(L, st);
    EntryFacts(L.entries, st.d.blocks, st.c, st.ino, st.sh, s);
    BusyGrows(L, st, d1, free1, h1, s, b, st');
    HoldsParent(L, st, st', s);
    HeldEntry(L.entries, st'.d.blocks, st'.c, st'.ino, st'.sh, s);
  }

  lemma HoldsParent(L: Layout, st: State, st': State, s: Slot)
    requires Busy(L, st) && (s.SEntry? || s.LEntry?) && InTree(L.entries, s) && Holds(st.c, Seen(st), st.ino, Parent(s))
    requires Busy(L, st') && Advanced(L, st, st')
    requires Get(st'.c, WhichOf(Parent(s))).valid && Get(st'.c, WhichOf(Parent(s))).number == Get(st.c, WhichOf(Parent(s))).number
    ensures Holds(st'.c, Seen(st'), st'.ino, Parent(s))
  {
    EntryFacts(L.entries, st.d.blocks, st.c, st.ino, st.sh, s);
    assert Live(L.entries, st.sh, Parent(s));
  }

  /** Before the double-indirect range no leaf can be dirty. */
  lemma NoLeafYet(L: Layout, st: State)
    requires Busy(L, st)
    ensures st.sh.leaves == 0 ==> !st.c.leaf.dirty
  {
  }

  /** A block in leaf j needs the leaves up to j and no more. */
  lemma LeavesUpTo(E: pos, n: nat, k: nat, j: nat, i: nat)
    requires k <= n <= Capacity(E) && k < Capacity(E) && j < E && i < E && k == LeafBase(E, j) + i
    ensures j <= LeavesFor(E, n) && (k < n ==> j < LeavesFor(E, n)) && LeavesFor(E, k + 1) == j + 1
    ensures k == n ==> LeavesFor(E, n) <= j + 1
  {
    LeavesForExact(E, n, j);
    LeavesForExact(E, k + 1, j);
    LeavesForExact(E, k + 1, j + 1);
    LeavesForExact(E, n, j + 1);
    if j > 0 {
      LeavesForExact(E, n, j - 1);
      MulLess(j - 1, j, E);
    }
  }

  lemma LeavesNone(E: pos, n: nat)
    ensures n <= 12 + E ==> LeavesFor(E, n) == 0
  {
  }

  /** How the canonical shape grows by the block at k, k <= n. */
  lemma CanonSteps(E: pos, n: nat, k: nat)
    requires k <= n <= Capacity(E)
    ensures k < Capacity(E) ==> InTree(E, SlotOf(E, k)) && Index(E, SlotOf(E, k)) == k
    ensures k < 12 ==> SlotOf(E, k) == Direct(k) && AtLeast(Canon(E, n), k + 1) == Canon(E, if k < n then n else k + 1)
    ensures 12 <= k < 12 + E ==>
              && SlotOf(E, k) == SEntry(k - 12)
              && AtLeast(Canon(E, n).(single := true), k + 1) == Canon(E, if k < n then n else k + 1)
    ensures 12 + E <= k < Capacity(E) ==>
              && var j, i := (k - 12 - E) / E, (k - 12 - E) % E;
              && SlotOf(E, k) == LEntry(j, i) && j < E && i < E && k == LeafBase(E, j) + i && j <= LeavesFor(E, n)
              && (k < n ==> j < LeavesFor(E, n))
              && AtLeast(Canon(E, n).(root := true, leaves := if j < LeavesFor(E, n) then LeavesFor(E, n) else j + 1), k + 1)
                 == Canon(E, if k < n then n else k + 1)
    ensures n < 12 + E ==> LeavesFor(E, n) == 0
  {
    hide LeavesFor, LeafBase, Capacity;
    LeavesNone(E, n);
    LeavesNone(E, k + 1);
    if k < Capacity(E) {
      SlotIndex(E, k);
      if 12 + E <= k {
        var j, i := (k - 12 - E) / E, (k - 12 - E) % E;
        SlotIsLeaf(E, k, j, i);
        LeavesUpTo(E, n, k, j, i);
      }
    }
  }

  lemma SlotIsLeaf(E: pos, k: nat, j: nat, i: nat)
    requires 12 + E <= k < Capacity(E) && j == (k - 12 - E) / E && i == (k - 12 - E) % E
    ensures SlotOf(E, k) == LEntry(j, i) && j < E && i < E && k == LeafBase(E, j) + i
  {
    SlotIndex(E, k);
  }
}
