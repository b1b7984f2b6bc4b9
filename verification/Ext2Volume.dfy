/** A mounted volume and its block allocator. */
module Ext2Volume {
  import opened Machine
  import opened Arithmetic
  import opened Ext2Blocks
  import opened Ext2Tree
  import opened Ext2Bitmap

  /** The bytes of consecutive blocks, one after the other. */
  function Joined(bs: seq<Block>): seq<byte> {
    if bs == [] then [] else Joined(bs[..|bs| - 1]) + bs[|bs| - 1]
  }

  /** The mounted filesystem: its device, and the superblock kept in memory.
      Every transfer may fail; failed remembers that one did, and no operation of
      the driver looks at it. A failed write
      leaves the addressed block with arbitrary contents. */
  class Volume {
    const L: Layout
    var disk: Disk
    var free: nat
    var failed: bool

    constructor (L: Layout, disk: Disk)
      ensures this.L == L && this.disk == disk && free == disk.free && !failed
    {
      this.L, this.disk, free, failed := L, disk, disk.free, false;
    }

    method ReadBlock(n: nat) returns (ok: bool, b: Block)
      modifies this`failed
      ensures old(failed) ==> failed
      ensures ok ==> n < |disk.blocks| && b == disk.blocks[n] && failed == old(failed)
      ensures !ok ==> n >= |disk.blocks| || failed
    {
      if n >= |disk.blocks| {
        return false, [];
      }
      var broken: bool := *;
      if broken {
        failed := true;
        return false, [];
      }
      return true, disk.blocks[n];
    }

    /** One transfer of count consecutive blocks. */
    method ReadRun(n: nat, count: nat) returns (ok: bool, bytes: seq<byte>)
      modifies this`failed
      ensures ok ==> n + count <= |disk.blocks| && bytes == Joined(disk.blocks[n..n + count]) && failed == old(failed)
      ensures !ok ==> n + count > |disk.blocks| || failed
    {
      if n + count > |disk.blocks| {
        return false, [];
      }
      var broken: bool := *;
      if broken {
        failed := true;
        return false, [];
      }
      return true, Joined(disk.blocks[n..n + count]);
    }

    method WriteBlock(n: nat, b: Block) returns (ok: bool)
      modifies this`disk, this`failed
      ensures old(failed) ==> failed
      ensures ok ==> n < |old(disk.blocks)| && disk == old(disk).(blocks := old(disk.blocks)[n := b]) && failed == old(failed)
      ensures !ok ==> n >= |old(disk.blocks)| || failed
      ensures disk == old(disk).(blocks := disk.blocks)
      ensures !ok && n < |disk.blocks| && n < |old(disk.blocks)| ==> |disk.blocks[n]| in {|b|, |old(disk.blocks)[n]|}
      ensures !ok ==> |disk.blocks| == |old(disk.blocks)| && forall b :: 0 <= b < |disk.blocks| && b != n ==> disk.blocks[b] == old(disk.blocks)[b]
    {
      if n >= |disk.blocks| {
        return false;
      }
      var broken: bool := *;
      if broken {
        failed := true;
        var junk: Block := *;
        if |junk| == |b| {
          disk := disk.(blocks := disk.blocks[n := junk]);
        }
        return false;
      }
      disk := disk.(blocks := disk.blocks[n := b]);
      return true;
    }

    method ReadDescriptor(g: nat) returns (ok: bool, d: Descriptor)
      modifies this`failed
      ensures old(failed) ==> failed
      ensures ok ==> g < |disk.descs| && d == disk.descs[g] && failed == old(failed)
      ensures !ok ==> g >= |disk.descs| || failed
    {
      if g >= |disk.descs| {
        return false, Descriptor(0, 0);
      }
      var broken: bool := *;
      if broken {
        failed := true;
        return false, Descriptor(0, 0);
      }
      return true, disk.descs[g];
    }

    method WriteDescriptor(g: nat, d: Descriptor) returns (ok: bool)
      modifies this`disk, this`failed
      ensures old(failed) ==> failed
      ensures ok ==> g < |old(disk.descs)| && disk == old(disk).(descs := old(disk.descs)[g := d]) && failed == old(failed)
      ensures !ok ==> g >= |old(disk.descs)| || failed
      ensures !ok ==> disk == old(disk)
    {
      if g >= |disk.descs| {
        return false;
      }
      var broken: bool := *;
      if broken {
        failed := true;
        return false;
      }
      disk := disk.(descs := disk.descs[g := d]);
      return true;
    }

    method WriteSuperblock() returns (ok: bool)
      modifies this`disk, this`failed
      ensures old(failed) ==> failed
      ensures ok ==> disk == old(disk).(free := free) && failed == old(failed)
      ensures !ok ==> disk == old(disk) && failed
    {
      var broken: bool := *;
      if broken {
        failed := true;
        return false;
      }
      disk := disk.(free := free);
      return true;
    }

    /** Inode numbers start at 1. */
    method ReadInode(number: nat) returns (ok: bool, ino: Inode)
      modifies this`failed
      ensures old(failed) ==> failed
      ensures ok ==> 1 <= number <= |disk.inodes| && ino == disk.inodes[number - 1] && failed == old(failed)
      ensures !ok ==> number == 0 || number > |disk.inodes| || failed
    {
      if number == 0 || number > |disk.inodes| {
        return false, InodeRecord(Unused, 0, 0, 0, NO_BLOCKS);
      }
      var broken: bool := *;
      if broken {
        failed := true;
        return false, InodeRecord(Unused, 0, 0, 0, NO_BLOCKS);
      }
      return true, disk.inodes[number - 1];
    }

    method WriteInode(number: nat, ino: Inode) returns (ok: bool)
      modifies this`disk, this`failed
      ensures old(failed) ==> failed
      ensures ok ==> 1 <= number <= |old(disk.inodes)| && disk == old(disk).(inodes := old(disk.inodes)[number - 1 := ino]) && failed == old(failed)
      ensures !ok ==> number == 0 || number > |old(disk.inodes)| || failed
      ensures !ok ==> disk == old(disk)
    {
      if number == 0 || number > |disk.inodes| {
        return false;
      }
      var broken: bool := *;
      if broken {
        failed := true;
        return false;
      }
      disk := disk.(inodes := disk.inodes[number - 1 := ino]);
      return true;
    }

    /** ext2_free_block: clears one allocation bit and counts it, on the disk
        and in the superblock. */
    method FreeBlock(n: nat) returns (ok: bool)
      requires CountsOk(L, disk.blocks, disk.descs, free)
      modifies this
      ensures old(failed) ==> failed
      ensures ok ==> Freed(L, old(disk), old(free), disk, free, n) && failed == old(failed)
      ensures !ok ==> n == 0 || n !in old(Used(L, disk.blocks, disk.descs)) || failed
    {
      hide *;
      ReleaseFacts(L, disk, free, n);
      if n == 0 || n < L.first || n >= L.count {
        return false;
      }
      var group := GroupOf(L, n);
      var bit := BitOf(L, n);
      var desc: Descriptor;
      ok, desc := ReadDescriptor(group);
      if !ok {
        return;
      }
      var bitmap: Block;
      ok, bitmap := ReadBlock(desc.bitmap);
      if !ok {
        return;
      }
      if !Bit(bitmap, bit) {
        return false;
      }
      Released(L, disk, free, n);
      ok := PublishRelease(group, desc, ClearBit(bitmap, bit));
    }

    /** The write-back half of ext2_free_block: bitmap, descriptor, superblock. */
    method PublishRelease(group: nat, desc: Descriptor, bitmap: Block) returns (ok: bool)
      modifies this
      ensures old(failed) ==> failed
      ensures ok ==> group < |old(disk).descs| && desc.bitmap < |old(disk).blocks| && failed == old(failed)
      ensures ok ==> free == old(free) + 1
      ensures ok ==> disk == old(disk).(blocks := old(disk).blocks[desc.bitmap := bitmap],
                                        descs := old(disk).descs[group := Counted(desc, false)], free := free)
      ensures !ok ==> failed || group >= |old(disk).descs| || desc.bitmap >= |old(disk).blocks|
    {
      ok := WriteBlock(desc.bitmap, bitmap);
      if !ok {
        return;
      }
      ok := WriteDescriptor(group, Counted(desc, false));
      if !ok {
        return;
      }
      free := free + 1;
      ok := WriteSuperblock();
    }
  }

  lemma HeldNone(L: Layout, d: Disk, free: nat, h: Held)
    requires HeldOk(L, d, free, h)
    ensures Full(L, Overlaid(d, h)) <==> free == 0
  {
    FullMeansZero(L, Overlaid(d, h), free);
  }

  /** Every block from lo up to b is in use. */
  predicate AllUsedIn(L: Layout, d: Disk, lo: nat, b: nat) {
    forall c :: L.first <= c < L.count && lo <= c < b ==> c in InUse(L, d)
  }

  lemma SameHeld(L: Layout, d: Disk)
    ensures SameData(L, d, d)
  {
  }

  lemma SameDataTwice(L: Layout, a: Disk, b: Disk, c: Disk)
    requires SameData(L, a, b) && SameData(L, b, c)
    ensures SameData(L, a, c)
  {
  }

  lemma HeldCounts(L: Layout, d: Disk, free: nat, h: Held)
    requires HeldOk(L, d, free, h)
    ensures CountsOk(L, Overlaid(d, h).blocks, Overlaid(d, h).descs, free) && |Overlaid(d, h).descs| == |d.descs|
  {
  }

  lemma NoSumWraps(L: Layout)
    requires SumsOk(L)
    ensures !NoGroups32(L)
  {
  }

  lemma SumsOfLayout(L: Layout)
    requires LayoutOk(L)
    ensures GroupsFor32(L.count - L.first, L.perGroup) == if NoGroups32(L) then 0 else GroupCount(L)
    ensures SumsOk(L) ==> !NoGroups32(L)
  {
    Wraps(L.count - L.first, L.perGroup - 1);
    if NoGroups32(L) {
      CountLost(L.count - L.first, L.perGroup);
    }
  }

  /** The scan covers at least the group, and exactly that if no sum wraps. */
  lemma EndOfGroup(L: Layout, g: nat)
    requires LayoutOk(L) && g < GroupCount(L)
    ensures GroupFirst(L, g) < L.count
    ensures GroupSize(L, g) <= (if Add32(GroupFirst(L, g), L.perGroup) > L.count then L.count - GroupFirst(L, g) else L.perGroup) <= L.perGroup
    ensures SumsOk(L) ==>
              GroupSize(L, g) == if Add32(GroupFirst(L, g), L.perGroup) > L.count then L.count - GroupFirst(L, g) else L.perGroup
  {
    GroupStart(L, g);
    Wraps(GroupFirst(L, g), L.perGroup);
    SumsExact(L.first, L.count - L.first, L.perGroup);
    assert PastEnd32(L.first, L.count - L.first, L.perGroup, g) <==> Add32(GroupFirst(L, g), L.perGroup) > L.count;
  }

  lemma HeldBlock(L: Layout, d: Disk, free: nat, h: Held, bit: nat)
    requires HeldOk(L, d, free, h) && bit < GroupSize(L, h.group)
    ensures Add32(GroupFirst(L, h.group), bit) == GroupFirst(L, h.group) + bit
  {
    hide GroupSize, GroupCount, DescriptorsOk, MetaUsed, SumFree, Used, Overlaid, Bitmap;
    GroupBlock(L, h.group, bit);
  }

  /** The bits in front of the first clear one are blocks in use. */
  lemma HeldPrefix(L: Layout, d: Disk, free: nat, h: Held, bit: nat)
    requires HeldOk(L, d, free, h) && h.loaded && bit <= GroupSize(L, h.group)
    requires forall i :: 0 <= i < bit ==> Bit(h.bitmap, i)
    ensures AllUsedIn(L, Overlaid(d, h), GroupFirst(L, h.group), GroupFirst(L, h.group) + bit)
  {
    hide SumsFit, DescriptorsOk, MetaUsed, SumFree, GroupSize, GroupFirst, Bit;
    var o := Overlaid(d, h);
    assert Bitmap(o.blocks, o.descs, h.group) == h.bitmap;
    forall c | GroupFirst(L, h.group) <= c < GroupFirst(L, h.group) + bit ensures c in InUse(L, o) {
      GroupBlock(L, h.group, c - GroupFirst(L, h.group));
    }
  }

  /** No block is free in the groups that were passed over. */
  lemma UsedBelow(L: Layout, d: Disk, free: nat, h: Held, g: nat, b: nat)
    requires CountsOk(L, d.blocks, d.descs, free) && GroupFirst(L, g) <= b
    requires forall k :: 0 <= k < g && k < |d.descs| ==> d.descs[k].freeBlocks == 0
    requires AllUsedIn(L, d, GroupFirst(L, g), b)
    ensures AllUsedIn(L, d, L.first, b)
  {
    hide GroupsOk, DescriptorsOk, Used;
    forall c | L.first <= c < L.count && c < b ensures c in InUse(L, d) {
      if c < GroupFirst(L, g) {
        EarlierGroup(L, c, g);
        GroupUsed(L, d.blocks, d.descs, c);
      }
    }
  }

  lemma EarlierGroup(L: Layout, c: nat, g: nat)
    requires L.first <= c < GroupFirst(L, g)
    ensures GroupOf(L, c) < g
  {
    DivMod(L.perGroup, c - L.first);
    if g <= GroupOf(L, c) {
      MulMono(L.perGroup, g, GroupOf(L, c));
    }
  }

  /** One block group's bitmap and descriptor, held in memory across the
      allocations of one write and committed late. */
  class AllocationContext {
    const fs: Volume
    var loaded: bool
    var group: nat
    var desc: Descriptor
    var bitmap: Block
    var dirty: bool
    var allocatedBlocks: nat

    constructor (fs: Volume)
      ensures this.fs == fs && !loaded && !dirty && allocatedBlocks == 0
    {
      this.fs := fs;
      loaded, group, desc, bitmap, dirty, allocatedBlocks := false, 0, Descriptor(0, 0), [], false, 0;
    }

    function View(): Held
      reads this
    {
      Held(loaded, group, desc, bitmap, dirty)
    }

    /** ext2_flush_allocation_context */
    method Flush() returns (ok: bool)
      requires HeldOk(fs.L, fs.disk, fs.free, View())
      modifies this`dirty, fs`disk, fs`failed
      ensures old(fs.failed) ==> fs.failed
      ensures ok ==> View() == old(View()).(dirty := false) && fs.disk == old(Overlaid(fs.disk, View()))
      ensures ok ==> HeldOk(fs.L, fs.disk, fs.free, View()) && Overlaid(fs.disk, View()) == fs.disk
      ensures ok ==> SameData(fs.L, old(fs.disk), fs.disk) && fs.failed == old(fs.failed)
      ensures !ok ==> fs.failed
    {
      if !loaded || !dirty {
        return true;
      }
      HeldFlushed(fs.L, fs.disk, fs.free, View());
      ok := fs.WriteBlock(desc.bitmap, bitmap);
      if !ok {
        return;
      }
      ok := fs.WriteDescriptor(group, desc);
      if !ok {
        return;
      }
      dirty := false;
    }

    /** The allocator's move to group g: commits what is held, then loads
        the descriptor, and the bitmap unless the descriptor counts no free
        block. */
    method Load(g: nat) returns (ok: bool, skip: bool)
      requires HeldOk(fs.L, fs.disk, fs.free, View()) && g < |fs.disk.descs|
      modifies this`loaded, this`group, this`desc, this`bitmap, this`dirty, fs`disk, fs`failed
      ensures old(fs.failed) ==> fs.failed
      ensures ok ==> HeldOk(fs.L, fs.disk, fs.free, View()) && Overlaid(fs.disk, View()) == old(Overlaid(fs.disk, View()))
      ensures ok && skip ==> Overlaid(fs.disk, View()).descs[g].freeBlocks == 0
      ensures ok && !skip ==> loaded && group == g
      ensures ok ==> SameData(fs.L, old(fs.disk), fs.disk) && |fs.disk.descs| == |old(fs.disk.descs)| && fs.failed == old(fs.failed)
      ensures !ok ==> fs.failed
    {
      hide HeldOk, Overlaid, SameData;
      if loaded && group == g {
        SameHeld(fs.L, fs.disk);
        return true, false;
      }
      HeldFacts(fs.L, fs.disk, fs.free, View());
      ok := Flush();
      if !ok {
        return false, false;
      }
      ghost var h := View();
      HeldFacts(fs.L, fs.disk, fs.free, View());
      HeldLoaded(fs.L, fs.disk, fs.free, View(), g);
      var d: Descriptor;
      ok, d := fs.ReadDescriptor(g);
      if !ok {
        return false, false;
      }
      desc := d;
      if desc.freeBlocks == 0 {
        loaded := false;
        HeldIdle(fs.L, fs.disk, fs.free, h, View());
        return true, true;
      }
      var bm: Block;
      ok, bm := fs.ReadBlock(desc.bitmap);
      if !ok {
        return false, false;
      }
      bitmap := bm;
      group, loaded, dirty := g, true, false;
      return true, false;
    }

    /** The allocator's scan of the loaded group: takes the first clear bit. If
        the end of the last group wraps, the scan goes on behind the volume. */
    method TakeFrom(g: nat) returns (found: bool, b: nat)
      requires HeldOk(fs.L, fs.disk, fs.free, View()) && loaded && group == g && fs.free > 0
      modifies this`desc, this`bitmap, this`dirty, this`allocatedBlocks, fs`free
      ensures SumsOk(fs.L) || !found ==> HeldOk(fs.L, fs.disk, fs.free, View()) && loaded
      ensures !found ==> View() == old(View()) && allocatedBlocks == old(allocatedBlocks) && fs.free == old(fs.free)
      ensures !found ==> g < |Overlaid(fs.disk, View()).descs| && Overlaid(fs.disk, View()).descs[g].freeBlocks == 0
      ensures SumsOk(fs.L) && found ==> fs.L.first <= b < fs.L.count && b !in fs.L.meta
      ensures SumsOk(fs.L) && found ==> b !in old(InUse(fs.L, Overlaid(fs.disk, View())))
      ensures SumsOk(fs.L) && found ==> GroupFirst(fs.L, g) <= b && old(AllUsedIn(fs.L, Overlaid(fs.disk, View()), GroupFirst(fs.L, g), b))
      ensures SumsOk(fs.L) && found ==> InUse(fs.L, Overlaid(fs.disk, View())) == old(InUse(fs.L, Overlaid(fs.disk, View()))) + {b}
      ensures found ==> fs.free == old(fs.free) - 1 && allocatedBlocks == old(allocatedBlocks) + 1
    {
      hide HeldOk, InUse, Add32, AllUsedIn, SumsOk, GroupCount, Bit, GroupSize;
      var L := fs.L;
      HeldFacts(L, fs.disk, fs.free, View());
      var groupFirst := GroupFirst(L, g);
      var blocksInGroup: nat := L.perGroup;
      EndOfGroup(L, g);
      if Add32(groupFirst, blocksInGroup) > L.count {
        blocksInGroup := L.count - groupFirst;
      }
      var bit := 0;
      while bit < blocksInGroup
        invariant bit <= blocksInGroup
        invariant forall i :: 0 <= i < bit ==> Bit(bitmap, i)
      {
        if !Bit(bitmap, bit) {
          ghost var h := View();
          b := Add32(groupFirst, bit);
          bitmap := SetBit(bitmap, bit);
          desc := Counted(desc, true);
          dirty := true;
          if SumsOk(L) {
            HeldBlock(L, fs.disk, fs.free, h, bit);
            HeldPrefix(L, fs.disk, fs.free, h, bit);
            HeldTaken(L, fs.disk, fs.free, h, bit, View(), b);
          }
          fs.free := fs.free - 1;
          allocatedBlocks := allocatedBlocks + 1;
          return true, b;
        }
        bit := bit + 1;
      }
      HeldFull(L, fs.disk, fs.free, View());
      return false, 0;
    }

    /** ext2_allocate_block: the first block that is free. It fails without a
        device failure only when every block is in use, or else, however many
        are free, because it counts no group. */
    method Allocate() returns (ok: bool, b: nat)
      requires HeldOk(fs.L, fs.disk, fs.free, View())
      modifies this, fs
      ensures old(fs.failed) ==> fs.failed
      ensures SumsOk(fs.L) && ok ==> HeldOk(fs.L, fs.disk, fs.free, View())
      ensures SumsOk(fs.L) && ok ==> fs.L.first <= b < fs.L.count && b !in fs.L.meta
      ensures SumsOk(fs.L) && ok ==> old(AllUsedIn(fs.L, Overlaid(fs.disk, View()), fs.L.first, b))
      ensures SumsOk(fs.L) && ok ==> b !in old(InUse(fs.L, Overlaid(fs.disk, View()))) && InUse(fs.L, Overlaid(fs.disk, View())) == old(InUse(fs.L, Overlaid(fs.disk, View()))) + {b}
      ensures ok ==> fs.free == old(fs.free) - 1 && allocatedBlocks == old(allocatedBlocks) + 1 && fs.failed == old(fs.failed)
      ensures ok ==> SameData(fs.L, old(fs.disk), fs.disk)
      ensures !ok && !fs.failed && !NoGroups32(fs.L) ==> Full(fs.L, Overlaid(fs.disk, View())) && fs.free == 0 == old(fs.free)
      ensures NoGroups32(fs.L) ==> !ok && View() == old(View()) && fs.disk == old(fs.disk) && fs.free == old(fs.free) && fs.failed == old(fs.failed)
      ensures NoGroups32(fs.L) ==> (Full(fs.L, Overlaid(fs.disk, View())) <==> fs.free == 0)
    {
      hide HeldOk, InUse, Full, LayoutOk, Add32, GroupsFor32, AllUsedIn, SameData, Overlaid, CountsOk, GroupCount, SumsOk, NoGroups32;
      var L := fs.L;
      HeldCounts(L, fs.disk, fs.free, View());
      SameHeld(L, fs.disk);
      HeldFacts(L, fs.disk, fs.free, View());
      ghost var before := Overlaid(fs.disk, View());
      HeldNone(L, fs.disk, fs.free, View());
      if fs.free == 0 {
        NoneLeft(L, fs.disk, fs.free, View());
        return false, 0;
      }
      b := 0;
      SumsOfLayout(L);
      var groupCount := GroupsFor32(L.count - L.first, L.perGroup);
      var g := 0;
      while g < groupCount
        invariant g <= groupCount <= |fs.disk.descs| == |before.descs| && (groupCount < |before.descs| ==> NoGroups32(L))
        invariant g == 0 ==> View() == old(View()) && fs.disk == old(fs.disk)
        invariant HeldOk(L, fs.disk, fs.free, View()) && Overlaid(fs.disk, View()) == before
        invariant SameData(L, old(fs.disk), fs.disk)
        invariant fs.free == old(fs.free) && allocatedBlocks == old(allocatedBlocks) && fs.failed == old(fs.failed)
        invariant forall h :: 0 <= h < g ==> before.descs[h].freeBlocks == 0
      {
        HeldFacts(L, fs.disk, fs.free, View());
        var skip: bool;
        ghost var d := fs.disk;
        ok, skip := Load(g);
        if !ok {
          return false, 0;
        }
        SameDataTwice(L, old(fs.disk), d, fs.disk);
        d := fs.disk;
        if skip {
          g := g + 1;
          continue;
        }
        var found: bool;
        found, b := TakeFrom(g);
        if found {
          if SumsOk(L) {
            UsedBelow(L, before, old(fs.free), old(View()), g, b);
          }
          return true, b;
        }
        ok := Flush();
        if !ok {
          return false, 0;
        }
        SameDataTwice(L, old(fs.disk), d, fs.disk);
        HeldDropped(L, fs.disk, fs.free, View());
        loaded := false;
        g := g + 1;
      }
      if !NoGroups32(L) {
        NoneLeft(L, fs.disk, fs.free, View());
      }
      ok := false;
    }
  }
}
