/** Block groups: where allocation bits live and how free blocks are counted. */
module Ext2Bitmap {
  import opened Machine
  import opened Arithmetic
  import opened Ext2Blocks
  import opened Ext2Tree

  /** The fields of a block-group descriptor that the block allocator uses. */
  datatype Descriptor = Descriptor(bitmap: u32, freeBlocks: u16)

  /** What the superblock fixes for the life of a mount: block size (as
      pointer entries per block), first data block, block count and blocks per
      group. meta are the blocks that hold filesystem metadata: superblock,
      descriptors, bitmaps and inode tables. */
  datatype Layout = Layout(entries: pos, first: nat, count: nat, perGroup: pos, meta: set<nat>)

  /** uint32_t addition. */
  function Add32(a: nat, b: nat): nat {
    (a + b) % 0x1_0000_0000
  }

  /** Groups of perGroup that this many items fill, the last one perhaps in part. */
  function GroupsFor(items: nat, perGroup: pos): nat {
    Quotient(items + perGroup - 1, perGroup)
  }

  /** The same as the allocators compute it. */
  function GroupsFor32(items: nat, perGroup: pos): nat {
    Quotient(Add32(items, perGroup - 1), perGroup)
  }

  /** The end of group g as the allocators compare it with the number behind
      the last item. */
  predicate PastEnd32(first: nat, items: nat, perGroup: pos, g: nat) {
    Add32(first + g * perGroup, perGroup) > first + items
  }

  /** The two sums of an allocator stay below 2^32. */
  predicate SumsFit(first: nat, items: nat, perGroup: pos) {
    && items + perGroup - 1 < 0x1_0000_0000
    && first + GroupsFor(items, perGroup) * perGroup < 0x1_0000_0000
  }

  /** Every group is counted, and the end of each compared rightly. */
  predicate GroupsRight(first: nat, items: nat, perGroup: pos) {
    && GroupsFor32(items, perGroup) == GroupsFor(items, perGroup)
    && forall g: nat :: g < GroupsFor(items, perGroup) ==>
         (PastEnd32(first, items, perGroup, g) <==> first + g * perGroup + perGroup > first + items)
  }

  lemma Wraps(a: nat, b: nat)
    requires a < 0x1_0000_0000 && b < 0x1_0000
    ensures Add32(a, b) == if a + b < 0x1_0000_0000 then a + b else a + b - 0x1_0000_0000
  {
  }

  lemma GroupStartsBelow(items: nat, perGroup: pos, g: nat)
    requires g < GroupsFor(items, perGroup)
    ensures g * perGroup < items && g * perGroup + perGroup <= GroupsFor(items, perGroup) * perGroup
  {
    DivMod(perGroup, items + perGroup - 1);
    MulLess(g, GroupsFor(items, perGroup), perGroup);
  }

  /** With 32-bit sums the allocators see the right groups exactly when neither
      sum wraps. */
  lemma SumsExact(first: nat, items: nat, perGroup: pos)
    requires 0 < items && first + items < 0x1_0000_0000 && perGroup < 0x1_0000
    ensures SumsFit(first, items, perGroup) <==> GroupsRight(first, items, perGroup)
  {
    hide Add32;
    var n := GroupsFor(items, perGroup);
    Wraps(items, perGroup - 1);
    DivMod(perGroup, items + perGroup - 1);
    if items + perGroup - 1 >= 0x1_0000_0000 {
      CountLost(items, perGroup);
    } else if first + n * perGroup >= 0x1_0000_0000 {
      MulLess(0, n, perGroup);
      GroupStartsBelow(items, perGroup, n - 1);
      Wraps(first + (n - 1) * perGroup, perGroup);
      assert (n - 1) * perGroup + perGroup == n * perGroup;
      assert !PastEnd32(first, items, perGroup, n - 1);
    } else {
      forall g: nat | g < n
        ensures PastEnd32(first, items, perGroup, g) <==> first + g * perGroup + perGroup > first + items
      {
        GroupStartsBelow(items, perGroup, g);
        Wraps(first + g * perGroup, perGroup);
      }
    }
  }

  lemma CountLost(items: nat, perGroup: pos)
    requires items < 0x1_0000_0000 <= items + perGroup - 1 && perGroup < 0x1_0000
    ensures GroupsFor32(items, perGroup) == 0 < GroupsFor(items, perGroup)
  {
    Wraps(items, perGroup - 1);
    DivModUnique(perGroup, GroupsFor32(items, perGroup), Add32(items, perGroup - 1) % perGroup, 0, Add32(items, perGroup - 1));
    DivMod(perGroup, items + perGroup - 1);
  }

  /** 2^32 - 1 blocks in groups of 32768: the allocator counts no group at all. */
  lemma NoGroupSeen()
    ensures GroupsFor32(0xFFFF_FFFF, 32768) == 0 && GroupsFor(0xFFFF_FFFF, 32768) == 131072
  {
  }

  predicate LayoutOk(L: Layout) {
    && L.first < L.count < 0x1_0000_0000
    && L.perGroup <= 32 * L.entries
    && L.perGroup < 0x1_0000
    && 0 in L.meta
    && forall m :: m in L.meta ==> m < L.count
  }

  /** The allocator sees the groups of this volume as they are. */
  predicate SumsOk(L: Layout) {
    L.first < L.count && SumsFit(L.first, L.count - L.first, L.perGroup)
  }

  /** The first sum wraps: the allocator counts no group at all. */
  predicate NoGroups32(L: Layout) {
    L.first < L.count && L.count - L.first + L.perGroup - 1 >= 0x1_0000_0000
  }

  function GroupCount(L: Layout): nat
    requires L.first <= L.count
  {
    GroupsFor(L.count - L.first, L.perGroup)
  }

  function GroupFirst(L: Layout, g: nat): nat {
    L.first + g * L.perGroup
  }

  /** Blocks in group g; the last group may be short. */
  function GroupSize(L: Layout, g: nat): nat {
    if GroupFirst(L, g) + L.perGroup > L.count
    then (if GroupFirst(L, g) > L.count then 0 else L.count - GroupFirst(L, g))
    else L.perGroup
  }

  function GroupOf(L: Layout, b: nat): nat
    requires L.first <= b
  {
    (b - L.first) / L.perGroup
  }

  function BitOf(L: Layout, b: nat): nat
    requires L.first <= b
  {
    (b - L.first) % L.perGroup
  }

  /** Blocks and (group, bit) pairs correspond one to one. */
  lemma BlockGroup(L: Layout, b: nat)
    requires LayoutOk(L) && L.first <= b < L.count
    ensures GroupOf(L, b) < GroupCount(L) && BitOf(L, b) < GroupSize(L, GroupOf(L, b))
    ensures GroupFirst(L, GroupOf(L, b)) + BitOf(L, b) == b
  {
    var g := GroupOf(L, b);
    DivMod(L.perGroup, b - L.first);
    var y := L.count - L.first + L.perGroup - 1;
    DivMod(L.perGroup, y);
    if y / L.perGroup < g {
      MulLess(y / L.perGroup, g, L.perGroup);
    }
  }

  lemma GroupBlock(L: Layout, g: nat, i: nat)
    requires i < GroupSize(L, g)
    ensures L.first <= GroupFirst(L, g) + i < L.count
    ensures GroupOf(L, GroupFirst(L, g) + i) == g && BitOf(L, GroupFirst(L, g) + i) == i
  {
    DivModOf(L.perGroup, g, i);
  }

  lemma GroupStart(L: Layout, g: nat)
    requires LayoutOk(L) && g < GroupCount(L)
    ensures GroupFirst(L, g) < L.count
  {
    var y := L.count - L.first + L.perGroup - 1;
    DivMod(L.perGroup, y);
    MulLess(g, y / L.perGroup, L.perGroup);
  }

  /** Each group's bitmap block exists, is metadata and belongs to no other group. */
  predicate GroupsOk(L: Layout, blocks: seq<Block>, descs: seq<Descriptor>) {
    && LayoutOk(L)
    && |blocks| == L.count
    && SizedBlocks(L.entries, blocks)
    && |descs| == GroupCount(L)
    && (forall g :: 0 <= g < |descs| ==> descs[g].bitmap in L.meta)
    && (forall g, h :: 0 <= g < |descs| && 0 <= h < |descs| && descs[g].bitmap == descs[h].bitmap ==> g == h)
  }

  function Bitmap(blocks: seq<Block>, descs: seq<Descriptor>, g: nat): Block {
    if g < |descs| && descs[g].bitmap < |blocks| then blocks[descs[g].bitmap] else []
  }

  predicate UsedBit(L: Layout, blocks: seq<Block>, descs: seq<Descriptor>, b: nat) {
    L.first <= b && Bit(Bitmap(blocks, descs, GroupOf(L, b)), BitOf(L, b))
  }

  /** The blocks whose allocation bit is set. */
  function Used(L: Layout, blocks: seq<Block>, descs: seq<Descriptor>): set<nat>
  {
    set b: nat | L.first <= b < L.count && UsedBit(L, blocks, descs, b)
  }

  /** Sum of the group descriptors' free counts. */
  function SumFree(descs: seq<Descriptor>): nat {
    if descs == [] then 0 else SumFree(descs[..|descs| - 1]) + descs[|descs| - 1].freeBlocks
  }

  lemma {:induction false} SumFreeUpdate(descs: seq<Descriptor>, g: nat, d: Descriptor)
    requires g < |descs|
    ensures SumFree(descs[g := d]) == SumFree(descs) - descs[g].freeBlocks + d.freeBlocks
  {
    var n := |descs| - 1;
    if g < n {
      SumFreeUpdate(descs[..n], g, d);
      assert descs[g := d][..n] == descs[..n][g := d];
    } else {
      assert descs[g := d][..n] == descs[..n];
    }
  }

  lemma {:induction false} SumFreeZero(descs: seq<Descriptor>, g: nat)
    requires SumFree(descs) == 0 && g < |descs|
    ensures descs[g].freeBlocks == 0
  {
    if g < |descs| - 1 {
      SumFreeZero(descs[..|descs| - 1], g);
    }
  }

  predicate DescriptorsOk(L: Layout, blocks: seq<Block>, descs: seq<Descriptor>)
  {
    forall g :: 0 <= g < |descs| ==> descs[g].freeBlocks == ClearBits(Bitmap(blocks, descs, g), GroupSize(L, g))
  }

  /** Every count agrees with the bits: each descriptor counts the clear bits
      of its group, and the superblock count is the sum of the descriptors.
      Metadata is marked as allocated. */
  predicate CountsOk(L: Layout, blocks: seq<Block>, descs: seq<Descriptor>, free: nat) {
    && GroupsOk(L, blocks, descs)
    && DescriptorsOk(L, blocks, descs)
    && free == SumFree(descs)
    && MetaUsed(L, blocks, descs)
  }

  predicate MetaUsed(L: Layout, blocks: seq<Block>, descs: seq<Descriptor>) {
    (forall m :: m in L.meta && L.first <= m ==> m in Used(L, blocks, descs))
  }

  /** Only bitmap blocks and descriptors decide what is allocated. */
  lemma UsedFrame(L: Layout, blocks: seq<Block>, descs: seq<Descriptor>, blocks': seq<Block>)
    requires GroupsOk(L, blocks, descs) && |blocks'| == |blocks| && SizedBlocks(L.entries, blocks')
    requires forall m :: m in L.meta ==> blocks'[m] == blocks[m]
    ensures GroupsOk(L, blocks', descs) && Used(L, blocks', descs) == Used(L, blocks, descs)
    ensures forall free :: CountsOk(L, blocks, descs, free) ==> CountsOk(L, blocks', descs, free)
  {
    forall b | L.first <= b < L.count ensures UsedBit(L, blocks', descs, b) == UsedBit(L, blocks, descs, b) {
      BlockGroup(L, b);
    }
    assert Used(L, blocks', descs) == Used(L, blocks, descs);
  }

  function Flipped(b: Block, i: nat, set1: bool): Block
    requires i < 8 * |b|
  {
    if set1 then SetBit(b, i) else ClearBit(b, i)
  }

  /** The 16-bit counter after an allocation or a release. */
  function Counted(d: Descriptor, set1: bool): Descriptor {
    d.(freeBlocks := if set1 then (d.freeBlocks + 0xFFFF) % 0x1_0000 else (d.freeBlocks + 1) % 0x1_0000)
  }

  lemma FlipCount(b: Block, i: nat, set1: bool, k: nat)
    requires i < k && i < 8 * |b| && Bit(b, i) == !set1
    ensures ClearBits(Flipped(b, i, set1), k) == ClearBits(b, k) + if set1 then -1 else 1
  {
    if set1 {
      ClearBitsStep(b, Flipped(b, i, set1), i, k);
    } else {
      ClearBitsStep(Flipped(b, i, set1), b, i, k);
    }
  }

  /** Flipping bit i of group g changes the state of exactly one block. */
  lemma FlipUsed(L: Layout, blocks: seq<Block>, descs: seq<Descriptor>, g: nat, i: nat, set1: bool, d: Descriptor)
    requires GroupsOk(L, blocks, descs) && g < |descs| && i < GroupSize(L, g) && d.bitmap == descs[g].bitmap
    ensures L.first <= GroupFirst(L, g) + i < L.count
    ensures
      var blocks', descs' := blocks[d.bitmap := Flipped(Bitmap(blocks, descs, g), i, set1)], descs[g := d];
      && GroupsOk(L, blocks', descs')
      && (forall c :: L.first <= c < L.count ==>
           (UsedBit(L, blocks', descs', c) <==> if c == GroupFirst(L, g) + i then set1 else UsedBit(L, blocks, descs, c)))
  {
    var blocks', descs' := blocks[d.bitmap := Flipped(Bitmap(blocks, descs, g), i, set1)], descs[g := d];
    GroupBlock(L, g, i);
    forall c | L.first <= c < L.count
      ensures UsedBit(L, blocks', descs', c) <==> if c == GroupFirst(L, g) + i then set1 else UsedBit(L, blocks, descs, c)
    {
      BlockGroup(L, c);
    }
  }

  lemma CountedValue(d: Descriptor, set1: bool)
    requires set1 ==> d.freeBlocks > 0
    requires !set1 ==> d.freeBlocks < 0xFFFF
    ensures Counted(d, set1).freeBlocks == d.freeBlocks + if set1 then -1 else 1
  {
  }

  lemma GroupSizeBound(L: Layout, g: nat)
    ensures GroupSize(L, g) <= L.perGroup
  {
  }

  lemma FlipCounts(L: Layout, blocks: seq<Block>, descs: seq<Descriptor>, g: nat, i: nat, set1: bool,
                   blocks': seq<Block>, descs': seq<Descriptor>)
    requires GroupsOk(L, blocks, descs) && DescriptorsOk(L, blocks, descs) && g < |descs| && i < GroupSize(L, g)
    requires Bit(Bitmap(blocks, descs, g), i) == !set1
    requires blocks' == blocks[descs[g].bitmap := Flipped(Bitmap(blocks, descs, g), i, set1)]
    requires descs' == descs[g := Counted(descs[g], set1)] && GroupsOk(L, blocks', descs')
    ensures DescriptorsOk(L, blocks', descs') && SumFree(descs') == SumFree(descs) + if set1 then -1 else 1
  {
    hide Flipped, ClearBits, SumFree, GroupCount;
    SumFreeUpdate(descs, g, Counted(descs[g], set1));
    var k := GroupSize(L, g);
    GroupSizeBound(L, g);
    hide GroupSize;
    FlipCount(Bitmap(blocks, descs, g), i, set1, k);
    CountedValue(descs[g], set1);
    forall h | 0 <= h < |descs'|
      ensures descs'[h].freeBlocks == ClearBits(Bitmap(blocks', descs', h), GroupSize(L, h))
    {
      if h == g {
        assert Bitmap(blocks', descs', h) == Flipped(Bitmap(blocks, descs, g), i, set1);
      } else {
        assert Bitmap(blocks', descs', h) == Bitmap(blocks, descs, h);
      }
    }
  }

  lemma FlipSets(L: Layout, u: set<nat>, u': set<nat>, b: nat, set1: bool)
    requires forall c :: c in u || c in u' ==> L.first <= c < L.count
    requires L.first <= b < L.count
    requires forall c :: L.first <= c < L.count ==> (c in u' <==> if c == b then set1 else c in u)
    ensures u' == if set1 then u + {b} else u - {b}
  {
    assert forall c :: c in u' <==> c in (if set1 then u + {b} else u - {b});
  }

  lemma FlipUsedSet(L: Layout, blocks: seq<Block>, descs: seq<Descriptor>, g: nat, i: nat, set1: bool, d: Descriptor,
                    blocks': seq<Block>, descs': seq<Descriptor>, b: nat)
    requires GroupsOk(L, blocks, descs) && g < |descs| && i < GroupSize(L, g) && b == GroupFirst(L, g) + i
    requires Bit(Bitmap(blocks, descs, g), i) == !set1 && d.bitmap == descs[g].bitmap
    requires blocks' == blocks[d.bitmap := Flipped(Bitmap(blocks, descs, g), i, set1)] && descs' == descs[g := d]
    ensures GroupsOk(L, blocks', descs')
    ensures L.first <= b < L.count && (b in Used(L, blocks, descs) <==> !set1)
    ensures Used(L, blocks', descs') == if set1 then Used(L, blocks, descs) + {b} else Used(L, blocks, descs) - {b}
  {
    GroupBlock(L, g, i);
    FlipUsed(L, blocks, descs, g, i, set1, d);
    FlipSets(L, Used(L, blocks, descs), Used(L, blocks', descs'), b, set1);
  }

  /** Flipping one bit of group g and adjusting its count keeps every count right. */
  lemma FlipBit(L: Layout, blocks: seq<Block>, descs: seq<Descriptor>, free: nat, g: nat, i: nat, set1: bool,
                blocks': seq<Block>, descs': seq<Descriptor>, b: nat)
    requires CountsOk(L, blocks, descs, free) && g < |descs| && i < GroupSize(L, g) && b == GroupFirst(L, g) + i
    requires Bit(Bitmap(blocks, descs, g), i) == !set1
    requires blocks' == blocks[descs[g].bitmap := Flipped(Bitmap(blocks, descs, g), i, set1)]
    requires descs' == descs[g := Counted(descs[g], set1)]
    ensures free == 0 ==> !set1
    ensures GroupsOk(L, blocks', descs') && DescriptorsOk(L, blocks', descs') && SumFree(descs') == free + if set1 then -1 else 1
    ensures set1 || b !in L.meta ==> CountsOk(L, blocks', descs', if set1 then free - 1 else free + 1)
    ensures L.first <= b < L.count && (b in Used(L, blocks, descs) <==> !set1)
    ensures Used(L, blocks', descs') == if set1 then Used(L, blocks, descs) + {b} else Used(L, blocks, descs) - {b}
  {
    FlipUsedSet(L, blocks, descs, g, i, set1, Counted(descs[g], set1), blocks', descs', b);
    FlipCounts(L, blocks, descs, g, i, set1, blocks', descs');
  }

  /** A group whose count is zero has no free block. */
  lemma GroupUsed(L: Layout, blocks: seq<Block>, descs: seq<Descriptor>, b: nat)
    requires GroupsOk(L, blocks, descs) && DescriptorsOk(L, blocks, descs) && L.first <= b < L.count
    requires GroupOf(L, b) < |descs| ==> descs[GroupOf(L, b)].freeBlocks == 0
    ensures b in Used(L, blocks, descs)
  {
    BlockGroup(L, b);
    var g, k := GroupOf(L, b), BitOf(L, b);
    assert descs[g].freeBlocks == ClearBits(Bitmap(blocks, descs, g), GroupSize(L, g));
    assert Bit(Bitmap(blocks, descs, g), k);
  }

  /** When every group's count is zero, no block is free. */
  lemma AllUsed(L: Layout, blocks: seq<Block>, descs: seq<Descriptor>)
    requires GroupsOk(L, blocks, descs) && DescriptorsOk(L, blocks, descs)
    requires forall g :: 0 <= g < |descs| ==> descs[g].freeBlocks == 0
    ensures forall b :: L.first <= b < L.count ==> b in Used(L, blocks, descs)
  {
    forall b | L.first <= b < L.count ensures b in Used(L, blocks, descs) {
      GroupUsed(L, blocks, descs, b);
    }
  }

  /* ---------- the disk, with one group's bitmap held in memory ---------- */

  /** What the device holds. Group descriptors and inode records are kept as
      arrays of records beside the block array, and free is the superblock's
      free_block_count as last written. */
  datatype Disk = Disk(blocks: seq<Block>, descs: seq<Descriptor>, inodes: seq<Inode>, free: nat)

  /** Two disks that differ in metadata blocks and descriptors only. */
  predicate SameData(L: Layout, d: Disk, d': Disk) {
    && |d'.blocks| == |d.blocks|
    && (forall b :: 0 <= b < |d.blocks| && b !in L.meta ==> d'.blocks[b] == d.blocks[b])
    && d'.inodes == d.inodes
    && d'.free == d.free
  }

  /** A group's descriptor and bitmap in memory, and whether they were changed. */
  datatype Held = Held(loaded: bool, group: nat, desc: Descriptor, bitmap: Block, dirty: bool)

  /** The disk as the allocator sees it: what is held stands in for the
      copies on the device. */
  function Overlaid(d: Disk, h: Held): Disk {
    if h.loaded && h.group < |d.descs| && h.desc.bitmap < |d.blocks|
    then d.(blocks := d.blocks[h.desc.bitmap := h.bitmap], descs := d.descs[h.group := h.desc])
    else d
  }

  predicate HeldOk(L: Layout, d: Disk, free: nat, h: Held) {
    && GroupsOk(L, d.blocks, d.descs)
    && CountsOk(L, Overlaid(d, h).blocks, Overlaid(d, h).descs, free)
    && (h.dirty ==> h.loaded)
    && (h.loaded ==> h.group < |d.descs| && h.desc.bitmap == d.descs[h.group].bitmap)
    && (!h.dirty ==> Overlaid(d, h) == d)
  }

  function InUse(L: Layout, d: Disk): set<nat> {
    Used(L, d.blocks, d.descs)
  }

  /** No block is free. */
  predicate Full(L: Layout, d: Disk) {
    forall b :: L.first <= b < L.count ==> b in InUse(L, d)
  }

  lemma {:induction false} SumFreeOfZeros(descs: seq<Descriptor>)
    requires forall g :: 0 <= g < |descs| ==> descs[g].freeBlocks == 0
    ensures SumFree(descs) == 0
  {
    if descs != [] {
      SumFreeOfZeros(descs[..|descs| - 1]);
    }
  }

  lemma FullGroup(L: Layout, d: Disk, g: nat)
    requires GroupsOk(L, d.blocks, d.descs) && DescriptorsOk(L, d.blocks, d.descs) && Full(L, d) && g < |d.descs|
    ensures d.descs[g].freeBlocks == 0
  {
    forall i | 0 <= i < GroupSize(L, g) ensures Bit(Bitmap(d.blocks, d.descs, g), i) {
      GroupBlock(L, g, i);
      assert GroupFirst(L, g) + i in InUse(L, d);
    }
    assert d.descs[g].freeBlocks == ClearBits(Bitmap(d.blocks, d.descs, g), GroupSize(L, g));
  }

  /** The superblock's count is zero exactly when no block is free. */
  lemma FullMeansZero(L: Layout, d: Disk, free: nat)
    requires CountsOk(L, d.blocks, d.descs, free)
    ensures Full(L, d) <==> free == 0
  {
    hide GroupsOk, DescriptorsOk, Used, InUse;
    if Full(L, d) {
      forall g | 0 <= g < |d.descs| ensures d.descs[g].freeBlocks == 0 {
        FullGroup(L, d, g);
      }
      SumFreeOfZeros(d.descs);
    }
    if free == 0 {
      forall g | 0 <= g < |d.descs| ensures d.descs[g].freeBlocks == 0 {
        SumFreeZero(d.descs, g);
      }
      AllUsed(L, d.blocks, d.descs);
      ZeroIsFull(L, d);
    }
  }

  lemma ZeroIsFull(L: Layout, d: Disk)
    requires forall b :: L.first <= b < L.count ==> b in Used(L, d.blocks, d.descs)
    ensures Full(L, d)
  {
  }

  lemma HeldFacts(L: Layout, d: Disk, free: nat, h: Held)
    requires HeldOk(L, d, free, h)
    ensures LayoutOk(L) && |d.blocks| == L.count && |d.descs| == GroupCount(L)
    ensures forall g :: 0 <= g < |d.descs| ==> d.descs[g].bitmap < |d.blocks|
    ensures h.loaded ==> h.group < |d.descs| && 8 * |h.bitmap| == 32 * L.entries
  {
    if h.loaded {
      assert Overlaid(d, h).blocks[h.desc.bitmap] == h.bitmap;
    }
  }

  lemma HeldFlushed(L: Layout, d: Disk, free: nat, h: Held)
    requires HeldOk(L, d, free, h) && h.loaded
    ensures
      var d' := d.(blocks := d.blocks[h.desc.bitmap := h.bitmap], descs := d.descs[h.group := h.desc]);
      && HeldOk(L, d', free, h.(dirty := false)) && Overlaid(d', h) == Overlaid(d, h) == d' && SameData(L, d, d')
  {
    var d' := Overlaid(d, h);
    assert d'.blocks[h.desc.bitmap := h.bitmap] == d'.blocks;
    assert d'.descs[h.group := h.desc] == d'.descs;
  }

  lemma HeldLoaded(L: Layout, d: Disk, free: nat, h: Held, g: nat)
    requires HeldOk(L, d, free, h) && !h.dirty && g < |d.descs|
    ensures
      var h' := Held(true, g, d.descs[g], d.blocks[d.descs[g].bitmap], false);
      && HeldOk(L, d, free, h') && Overlaid(d, h') == d
  {
    assert d.descs[g := d.descs[g]] == d.descs;
    assert d.blocks[d.descs[g].bitmap := d.blocks[d.descs[g].bitmap]] == d.blocks;
  }

  lemma HeldDropped(L: Layout, d: Disk, free: nat, h: Held)
    requires HeldOk(L, d, free, h) && !h.dirty
    ensures HeldOk(L, d, free, h.(loaded := false)) && Overlaid(d, h.(loaded := false)) == d == Overlaid(d, h)
  {
  }

  lemma HeldIdle(L: Layout, d: Disk, free: nat, h: Held, h': Held)
    requires HeldOk(L, d, free, h) && !h.dirty && !h'.loaded && !h'.dirty
    ensures HeldOk(L, d, free, h') && Overlaid(d, h') == d == Overlaid(d, h)
  {
  }

  /** Taking the clear bit i of the held group. */
  lemma HeldTaken(L: Layout, d: Disk, free: nat, h: Held, i: nat, h': Held, b: nat)
    requires HeldOk(L, d, free, h) && h.loaded && i < GroupSize(L, h.group) && !Bit(h.bitmap, i)
    requires i < 8 * |h.bitmap| && b == GroupFirst(L, h.group) + i
    requires h' == h.(bitmap := SetBit(h.bitmap, i), desc := Counted(h.desc, true), dirty := true)
    ensures free > 0 && HeldOk(L, d, free - 1, h')
    ensures L.first <= b < L.count && b !in InUse(L, Overlaid(d, h)) && InUse(L, Overlaid(d, h')) == InUse(L, Overlaid(d, h)) + {b}
    ensures b !in L.meta
  {
    var o, o' := Overlaid(d, h), Overlaid(d, h');
    assert Bitmap(o.blocks, o.descs, h.group) == h.bitmap;
    assert o'.blocks == o.blocks[h.desc.bitmap := Flipped(h.bitmap, i, true)];
    assert o'.descs == o.descs[h.group := Counted(h.desc, true)];
    FlipBit(L, o.blocks, o.descs, free, h.group, i, true, o'.blocks, o'.descs, b);
  }

  lemma HeldFull(L: Layout, d: Disk, free: nat, h: Held)
    requires HeldOk(L, d, free, h) && h.loaded
    requires forall i :: 0 <= i < GroupSize(L, h.group) ==> Bit(h.bitmap, i)
    ensures Overlaid(d, h).descs[h.group].freeBlocks == 0
  {
    var o := Overlaid(d, h);
    assert Bitmap(o.blocks, o.descs, h.group) == h.bitmap;
    assert o.descs[h.group].freeBlocks == ClearBits(h.bitmap, GroupSize(L, h.group));
  }

  lemma NoneLeft(L: Layout, d: Disk, free: nat, h: Held)
    requires HeldOk(L, d, free, h)
    requires free == 0 || forall g :: 0 <= g < |d.descs| ==> Overlaid(d, h).descs[g].freeBlocks == 0
    ensures Full(L, Overlaid(d, h))
  {
    var o := Overlaid(d, h);
    if free == 0 {
      forall g | 0 <= g < |o.descs| ensures o.descs[g].freeBlocks == 0 {
        SumFreeZero(o.descs, g);
      }
    }
    AllUsed(L, o.blocks, o.descs);
  }

  /** d' is d with block n released: its bit, its group's count and the
      superblock's count, and nothing else. */
  predicate Freed(L: Layout, d: Disk, free: nat, d': Disk, free': nat, n: nat) {
    && n in Used(L, d.blocks, d.descs)
    && Used(L, d'.blocks, d'.descs) == Used(L, d.blocks, d.descs) - {n}
    && free' == free + 1 == d'.free
    && GroupsOk(L, d'.blocks, d'.descs) && DescriptorsOk(L, d'.blocks, d'.descs) && free' == SumFree(d'.descs)
    && (n !in L.meta ==> MetaUsed(L, d'.blocks, d'.descs))
    && SameData(L, d, d'.(free := d.free))
  }

  lemma FreedCounts(L: Layout, d: Disk, free: nat, d': Disk, free': nat, n: nat)
    requires Freed(L, d, free, d', free', n) && n !in L.meta
    ensures CountsOk(L, d'.blocks, d'.descs, free')
  {
    hide GroupsOk, DescriptorsOk, MetaUsed, Used;
  }

  lemma ReleaseFacts(L: Layout, d: Disk, free: nat, n: nat)
    requires CountsOk(L, d.blocks, d.descs, free)
    ensures n in Used(L, d.blocks, d.descs) ==> L.first <= n < L.count
    ensures n == 0 ==> n in L.meta
    ensures L.first <= n < L.count ==>
              && GroupOf(L, n) < |d.descs| && d.descs[GroupOf(L, n)].bitmap < |d.blocks|
              && BitOf(L, n) < 8 * |d.blocks[d.descs[GroupOf(L, n)].bitmap]|
              && (n in Used(L, d.blocks, d.descs) <==> Bit(d.blocks[d.descs[GroupOf(L, n)].bitmap], BitOf(L, n)))
  {
    if L.first <= n < L.count {
      BlockGroup(L, n);
    }
  }

  /** Releasing block n on a disk with nothing held. */
  lemma Released(L: Layout, d: Disk, free: nat, n: nat)
    requires CountsOk(L, d.blocks, d.descs, free) && L.first <= n < L.count
    requires n in Used(L, d.blocks, d.descs)
    ensures GroupOf(L, n) < |d.descs| && d.descs[GroupOf(L, n)].bitmap < |d.blocks|
    ensures BitOf(L, n) < 8 * |d.blocks[d.descs[GroupOf(L, n)].bitmap]|
    ensures
      var g := GroupOf(L, n);
      var d' := d.(blocks := d.blocks[d.descs[g].bitmap := ClearBit(d.blocks[d.descs[g].bitmap], BitOf(L, n))],
                   descs := d.descs[g := Counted(d.descs[g], false)], free := free + 1);
      Freed(L, d, free, d', free + 1, n)
  {
    var g, i := GroupOf(L, n), BitOf(L, n);
    ReleaseFacts(L, d, free, n);
    BlockGroup(L, n);
    FlipBit(L, d.blocks, d.descs, free, g, i, false,
            d.blocks[d.descs[g].bitmap := ClearBit(d.blocks[d.descs[g].bitmap], i)], d.descs[g := Counted(d.descs[g], false)], n);
  }
}
