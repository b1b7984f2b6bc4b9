/** Creating a directory: an inode, a block with "." and "..", a name. */
module Ext2Mkdir {
  import opened Machine
  import opened Arithmetic
  import opened Ext2Blocks
  import opened Ext2Tree
  import opened Ext2Bitmap
  import opened Ext2Cache
  import opened Ext2Grow
  import opened Ext2Content
  import opened Ext2Consistent
  import opened Ext2Volume
  import opened Ext2Records
  import opened Ext2Dir
  import opened Ext2Link
  import opened Ext2Inodes
  import opened Ext2Create

  const DOT: Name := [46]
  const DOT_DOT: Name := [46, 46]

  /** Block sizes the driver accepts: a record length has 16 bits, and both
      first records fit. */
  predicate BlockSizeOk(L: Layout) {
    24 <= BlockSize(L.entries) <= 4096
  }

  /** The first block of a new directory. */
  function DotBlock(size: nat, self: u32, parent: u32): (b: Block)
    requires 24 <= size <= 4096
    ensures |b| == size
  {
    Stamp(Stamp(ZeroBytes(size), 0, RecordBytes(self, 12, EXT2_FT_DIR, DOT)), 12, RecordBytes(parent, size - 12, EXT2_FT_DIR, DOT_DOT))
  }

  lemma DotBlockListed(size: nat, self: u32, parent: u32)
    requires 24 <= size <= 4096 && self != 0 && parent != 0
    ensures Tiled(DotBlock(size, self, parent), 0)
    ensures Listed(DotBlock(size, self, parent), 0) == [Entry(self, EXT2_FT_DIR, DOT), Entry(parent, EXT2_FT_DIR, DOT_DOT)]
    ensures Listed(DotBlock(size, self, parent), 0) == [Entry(self, 2, [46]), Entry(parent, 2, [46, 46])]
  {
    hide RecordBytes, Half, RecEntry, RecNameLength, Stamp, RecInode, AgreeOn, RecordOk, RecLength;
    var z := ZeroBytes(size);
    var s, t := RecordBytes(self, 12, EXT2_FT_DIR, DOT), RecordBytes(parent, size - 12, EXT2_FT_DIR, DOT_DOT);
    var m := Stamp(z, 0, s);
    var b := Stamp(m, 12, t);
    RecordWritten(z, 0, self, 12, EXT2_FT_DIR, DOT);
    RecordWritten(m, 12, parent, size - 12, EXT2_FT_DIR, DOT_DOT);
    StampAgrees(m, 12, t);
    RecordAgree(m, b, 0, 12);
    TwoRecords(b, 12);
  }

  lemma TwoRecords(b: Block, k: nat)
    requires RecordOk(b, 0) && RecLength(b, 0) == k && RecordOk(b, k) && k + RecLength(b, k) == |b|
    requires RecInode(b, 0) != 0 && RecInode(b, k) != 0
    ensures Tiled(b, 0) && Listed(b, 0) == [RecEntry(b, 0), RecEntry(b, k)]
  {
    hide Half, RecEntry, RecNameLength, RecInode, RecLength;
    NoRecord(b);
    assert Tiled(b, |b|);
    assert Listed(b, |b|) == [];
    assert Tiled(b, k) && Listed(b, k) == [RecEntry(b, k)];
  }

  lemma NoRecord(b: Block)
    ensures !RecordOk(b, |b|)
  {
  }

  /** The inode of a new directory before it has a name. */
  function NewDirectory(L: Layout, n: u32): Inode
    requires BlockSizeOk(L)
  {
    InodeRecord(Directory, BlockSize(L.entries), SectorsPerBlock(L.entries), 0, NO_BLOCKS[0 := n])
  }

  lemma OneBlock(E: pos)
    ensures BlocksFor(E, BlockSize(E)) == 1
    ensures forall s :: Live(E, Canon(E, 1), s) <==> s == Direct(0)
    ensures ShapeOk(E, Canon(E, 1))
  {
    var n := BlocksFor(E, BlockSize(E));
    BlocksForExact(E, BlockSize(E), 1);
    BlocksForExact(E, BlockSize(E), 0);
    forall s | Live(E, Canon(E, 1), s) ensures s == Direct(0) {
      if !IsTable(s) && !s.Direct? {
        IndexBound(E, s);
      }
    }
    CanonOk(E, 1);
  }

  /** d' is d with block n allocated and the inode turned into a directory that
      consists of it. */
  ghost predicate Grounded(L: Layout, d: Disk, d': Disk, number: u32, parent: u32, n: u32)
    requires BlockSizeOk(L)
  {
    && 1 <= number <= |d.inodes| && d.inodes[number - 1] == FreshInode(Directory)
    && d'.inodes == d.inodes[number - 1 := NewDirectory(L, n)]
    && CountsOk(L, d'.blocks, d'.descs, d'.free)
    && L.first <= n < L.count && n !in L.meta && n !in Used(L, d.blocks, d.descs)
    && Used(L, d'.blocks, d'.descs) == Used(L, d.blocks, d.descs) + {n}
    && |d'.blocks| == |d.blocks| && n < |d.blocks| && d'.blocks[n] == DotBlock(BlockSize(L.entries), number, parent)
    && forall x :: 0 <= x < |d.blocks| && x !in L.meta && x != n ==> d'.blocks[x] == d.blocks[x]
  }

  lemma GroundedOne(L: Layout, d: Disk, d': Disk, number: u32, parent: u32, n: u32)
    requires BlockSizeOk(L) && Consistent(L, d) && Grounded(L, d, d', number, parent, n)
    ensures n != 0 && FileOk(L, d'.blocks, NewDirectory(L, n), Used(L, d'.blocks, d'.descs))
    ensures Changed(L, d.blocks, Used(L, d.blocks, d.descs), FreshInode(Directory), Spans(L, FreshInode(Directory)), d'.blocks, NewDirectory(L, n))
  {
    hide Used, DescriptorsOk, GroupCount, Canon, BlocksFor, SectorsPerBlock, DotBlock, FilesOk;
    var ino := NewDirectory(L, n);
    OneBlock(L.entries);
    NoBlocks(L.entries);
    assert forall s :: InTree(L.entries, s) ==> At(d'.blocks, ino, s) == if s == Direct(0) then n else 0;
    assert Spans(L, ino) == Canon(L.entries, 1) && Spans(L, FreshInode(Directory)) == Canon(L.entries, 0);
    assert Live(L.entries, Canon(L.entries, 1), Direct(0)) && At(d'.blocks, ino, Direct(0)) == n;
    assert Owns(L.entries, d'.blocks, ino, Spans(L, ino), n);
  }

  /** The volume is consistent once the directory has its block. */
  lemma GroundedConsistent(L: Layout, d: Disk, d': Disk, number: u32, parent: u32, n: u32)
    requires BlockSizeOk(L) && Consistent(L, d) && Grounded(L, d, d', number, parent, n)
    ensures Consistent(L, d') && n != 0
    ensures forall j :: 0 <= j < |d.inodes| && j != number - 1 && d.inodes[j].kind != Unused ==> Kept(L, d.blocks, d'.blocks, d.inodes[j])
  {
    hide FileOk, Changed, Contents, Kept, DescriptorsOk, Spans, Used, FilesOk, DotBlock;
    GroundedOne(L, d, d', number, parent, n);
    OneFileChanged(L, d, d', number - 1, Spans(L, FreshInode(Directory)), FreshInode(Directory), NewDirectory(L, n));
  }

  /** d' is d with block n allocated, on the disk and in every count. */
  ghost predicate Allocated(L: Layout, d: Disk, d': Disk, n: nat) {
    && CountsOk(L, d'.blocks, d'.descs, d'.free)
    && L.first <= n < L.count && n !in L.meta && n !in Used(L, d.blocks, d.descs)
    && Used(L, d'.blocks, d'.descs) == Used(L, d.blocks, d.descs) + {n}
    && |d'.blocks| == |d.blocks| && n < |d.blocks| && d'.inodes == d.inodes
    && forall x :: 0 <= x < |d.blocks| && x !in L.meta ==> d'.blocks[x] == d.blocks[x]
  }

  lemma NothingHeld(L: Layout, d: Disk, h: Held)
    requires CountsOk(L, d.blocks, d.descs, d.free) && !h.loaded && !h.dirty
    ensures HeldOk(L, d, d.free, h) && Overlaid(d, h) == d && InUse(L, d) == Used(L, d.blocks, d.descs)
  {
  }

  lemma NowAllocated(L: Layout, d: Disk, d1: Disk, d2: Disk, free: nat, h: Held, n: nat)
    requires HeldOk(L, d2, free, h) && Overlaid(d2, h) == d2 && SameData(L, d, d2) && d1 == d
    requires L.first <= n < L.count && n !in L.meta && n !in Used(L, d.blocks, d.descs) && |d.blocks| == L.count
    requires InUse(L, Overlaid(d2, h)) == Used(L, d.blocks, d.descs) + {n}
    ensures Allocated(L, d, d2.(free := free), n)
  {
    hide Used, GroupsOk, DescriptorsOk;
  }

  lemma CountOfBlocks(L: Layout, d: Disk)
    requires CountsOk(L, d.blocks, d.descs, d.free)
    ensures |d.blocks| == L.count < 0x1_0000_0000 && 0 in L.meta && (SumsOk(L) ==> !NoGroups32(L))
  {
  }

  /** The allocation part of ext2_vnode_mkdir: one block, committed at once. */
  method AllocateBlock(fs: Volume) returns (ok: bool, n: u32)
    requires SumsOk(fs.L) && CountsOk(fs.L, fs.disk.blocks, fs.disk.descs, fs.disk.free) && fs.free == fs.disk.free
    modifies fs
    ensures old(fs.failed) ==> fs.failed
    ensures ok ==> Allocated(fs.L, old(fs.disk), fs.disk, n) && n != 0 && fs.free == fs.disk.free && fs.failed == old(fs.failed)
    ensures !ok && !fs.failed ==> old(fs.free) == 0
  {
    hide HeldOk, InUse, Overlaid, CountsOk, Used, Allocated, SameData, Full;
    var L := fs.L;
    ghost var d := fs.disk;
    CountOfBlocks(L, d);
    var allocation := new AllocationContext(fs);
    NothingHeld(L, d, allocation.View());
    var b: nat;
    ok, b := allocation.Allocate();
    n := 0;
    if !ok {
      return false, 0;
    }
    ghost var d1 := fs.disk;
    ok := allocation.Flush();
    if !ok {
      return false, 0;
    }
    SameDataTwice(L, d, d1, fs.disk);
    NowAllocated(L, d, d, fs.disk, fs.free, allocation.View(), b);
    n := b;
    if allocation.allocatedBlocks > 0 {
      ok := fs.WriteSuperblock();
    }
  }

  lemma AllocatedWrite(L: Layout, d: Disk, d2: Disk, n: nat, block: Block)
    requires Allocated(L, d, d2, n) && |block| == BlockSize(L.entries)
    ensures CountsOk(L, d2.blocks[n := block], d2.descs, d2.free)
    ensures Used(L, d2.blocks[n := block], d2.descs) == Used(L, d2.blocks, d2.descs)
  {
    hide Used, DescriptorsOk, GroupCount, SumFree;
    UsedFrame(L, d2.blocks, d2.descs, d2.blocks[n := block]);
  }

  lemma AllocatedSized(L: Layout, d: Disk, d2: Disk, n: nat)
    requires Allocated(L, d, d2, n)
    ensures n < |d2.blocks| && |d2.blocks[n]| == BlockSize(L.entries)
  {
    hide Used, DescriptorsOk, GroupCount, SumFree;
  }

  lemma NowGrounded(L: Layout, d: Disk, d2: Disk, d': Disk, number: u32, parent: u32, n: u32)
    requires BlockSizeOk(L) && Allocated(L, d, d2, n)
    requires 1 <= number <= |d.inodes| && d.inodes[number - 1] == FreshInode(Directory)
    requires d' == d2.(blocks := d2.blocks[n := DotBlock(BlockSize(L.entries), number, parent)],
                       inodes := d2.inodes[number - 1 := NewDirectory(L, n)])
    ensures Grounded(L, d, d', number, parent, n)
  {
    hide Used, CountsOk, DotBlock;
    AllocatedWrite(L, d, d2, n, DotBlock(BlockSize(L.entries), number, parent));
  }

  /** The part of ext2_vnode_mkdir that fills the block and the inode; the
      block is given back when a write fails. */
  method Ground(fs: Volume, ghost d: Disk, number: u32, node: Inode, parent: u32, n: u32) returns (ok: bool)
    requires BlockSizeOk(fs.L) && Allocated(fs.L, d, fs.disk, n) && n != 0 && fs.free == fs.disk.free
    requires 1 <= number <= |d.inodes| && node == d.inodes[number - 1] == FreshInode(Directory)
    modifies fs
    ensures old(fs.failed) ==> fs.failed
    ensures ok ==> Grounded(fs.L, d, fs.disk, number, parent, n) && fs.free == fs.disk.free && fs.failed == old(fs.failed)
    ensures !ok ==> fs.failed
  {
    hide Allocated, Grounded, CountsOk, DotBlock, Used, Freed;
    var L := fs.L;
    ghost var d2 := fs.disk;
    InodesStay(L, d, d2, n);
    AllocatedSized(L, d, d2, n);
    var block := DotBlock(BlockSize(L.entries), number, parent);
    ok := fs.WriteBlock(n, block);
    AllocatedWrite(L, d, d2, n, fs.disk.blocks[n]);
    assert fs.disk.blocks == d2.blocks[n := fs.disk.blocks[n]];
    if !ok {
      var freed := fs.FreeBlock(n);
      return false;
    }
    var child := node.(kind := Directory, size := BlockSize(L.entries), links := 0,
                       block := node.block[0 := n], sectors := SectorsPerBlock(L.entries));
    ok := fs.WriteInode(number, child);
    if !ok {
      var freed := fs.FreeBlock(n);
      return false;
    }
    NowGrounded(L, d, d2, fs.disk, number, parent, n);
  }

  lemma InodesStay(L: Layout, d: Disk, d2: Disk, n: nat)
    requires Allocated(L, d, d2, n)
    ensures d2.inodes == d.inodes && n !in L.meta
  {
  }

  lemma DirectBlock(L: Layout, blocks: seq<Block>, dir: Inode, used: set<nat>, k: nat)
    requires FileOk(L, blocks, dir, used) && k < 12 && dir.block[k] != 0
    ensures dir.block[k] in used && dir.block[k] !in L.meta && dir.block[k] < |blocks|
  {
    hide Canon, BlocksFor, Blocks, SectorsPerBlock;
    assert At(blocks, dir, Direct(k)) == dir.block[k] && Live(L.entries, Spans(L, dir), Direct(k));
  }

  lemma DirOkKept(blocks: seq<Block>, blocks': seq<Block>, dir: Inode)
    requires DirOk(blocks, dir) && |blocks'| == |blocks|
    requires forall j :: 0 <= j < 12 && dir.block[j] != 0 ==> BlockAt(blocks', dir.block[j]) == BlockAt(blocks, dir.block[j])
    ensures DirOk(blocks', dir)
  {
    hide Tiled;
  }

  lemma DirInUse(L: Layout, d: Disk, dirNumber: nat)
    requires Consistent(L, d) && 1 <= dirNumber <= |d.inodes| && DirOk(d.blocks, InodeAt(d, dirNumber))
    ensures FileOk(L, d.blocks, InodeAt(d, dirNumber), Used(L, d.blocks, d.descs))
  {
    hide CountsOk, FileOk, Separate, Tiled;
  }

  lemma GroundedBlock(L: Layout, d: Disk, d2: Disk, number: u32, parent: u32, n: u32, x: nat)
    requires BlockSizeOk(L) && Grounded(L, d, d2, number, parent, n)
    requires x in Used(L, d.blocks, d.descs) && x !in L.meta && x < |d.blocks|
    ensures x != n && |d2.blocks| == |d.blocks| && d2.blocks[x] == d.blocks[x]
  {
    hide Used, CountsOk, DotBlock;
  }

  /** The parent's blocks are not the new one. */
  lemma ParentKept(L: Layout, d: Disk, d2: Disk, dirNumber: u32, number: u32, n: u32)
    requires BlockSizeOk(L) && Consistent(L, d) && Grounded(L, d, d2, number, dirNumber, n) && number != dirNumber
    requires 1 <= dirNumber <= |d.inodes| && DirOk(d.blocks, InodeAt(d, dirNumber))
    ensures |d2.blocks| == |d.blocks|
    ensures InodeAt(d2, dirNumber) == InodeAt(d, dirNumber) && DirOk(d2.blocks, InodeAt(d2, dirNumber))
    ensures forall k :: 0 <= k < 12 && InodeAt(d, dirNumber).block[k] != 0 ==>
              InodeAt(d, dirNumber).block[k] != n && BlockAt(d2.blocks, InodeAt(d, dirNumber).block[k]) == BlockAt(d.blocks, InodeAt(d, dirNumber).block[k])
  {
    hide Used, CountsOk, DotBlock, Tiled, FileOk, Separate, Grounded, DirOk, Consistent;
    var dir := InodeAt(d, dirNumber);
    DirInUse(L, d, dirNumber);
    GroundedInodes(L, d, d2, number, dirNumber, n);
    forall k | 0 <= k < 12 && dir.block[k] != 0
      ensures dir.block[k] != n && BlockAt(d2.blocks, dir.block[k]) == BlockAt(d.blocks, dir.block[k])
    {
      DirectBlock(L, d.blocks, dir, Used(L, d.blocks, d.descs), k);
      GroundedBlock(L, d, d2, number, dirNumber, n, dir.block[k]);
    }
    DirOkKept(d.blocks, d2.blocks, dir);
  }

  lemma {:induction false} EntriesKept(blocks: seq<Block>, blocks': seq<Block>, dir: Inode, k: nat)
    requires k <= 12
    requires forall j :: 0 <= j < 12 && dir.block[j] != 0 ==> BlockAt(blocks', dir.block[j]) == BlockAt(blocks, dir.block[j])
    ensures DirFrom(blocks', dir, k) == DirFrom(blocks, dir, k)
    decreases 12 - k
  {
    if k < 12 {
      EntriesKept(blocks, blocks', dir, k + 1);
    }
  }

  lemma RoomKept(blocks: seq<Block>, blocks': seq<Block>, dir: Inode, needed: nat)
    requires forall j :: 0 <= j < 12 && dir.block[j] != 0 ==> BlockAt(blocks', dir.block[j]) == BlockAt(blocks, dir.block[j])
    ensures DirHasRoom(blocks', dir, needed) <==> DirHasRoom(blocks, dir, needed)
  {
    hide HasRoom;
  }

  /** A new directory lists "." and "..". */
  predicate DotsOnly(blocks: seq<Block>, dir: Inode, self: u32, parent: u32) {
    DirOk(blocks, dir) && DirEntries(blocks, dir) == [Entry(self, 2, [46]), Entry(parent, 2, [46, 46])]
  }

  lemma {:induction false} NoMoreEntries(blocks: seq<Block>, dir: Inode, k: nat)
    requires 1 <= k <= 12 && forall j :: 1 <= j < 12 ==> dir.block[j] == 0
    ensures DirFrom(blocks, dir, k) == []
    decreases 12 - k
  {
    if k < 12 {
      NoMoreEntries(blocks, dir, k + 1);
    }
  }

  lemma DotsThere(L: Layout, blocks: seq<Block>, dir: Inode, n: u32, self: u32, parent: u32)
    requires BlockSizeOk(L) && self != 0 && parent != 0 && n != 0 && n < |blocks| && blocks[n] == DotBlock(BlockSize(L.entries), self, parent)
    requires dir.kind == Directory && dir.block == NO_BLOCKS[0 := n]
    ensures DotsOnly(blocks, dir, self, parent)
  {
    hide DotBlock, Listed, Tiled;
    DotBlockListed(BlockSize(L.entries), self, parent);
    NoMoreEntries(blocks, dir, 1);
  }

  /** d' is d with a new directory: an unused inode, one free block that holds
      "." and "..", an entry in the parent, and one more link of the parent. */
  ghost predicate MadeDirectory(L: Layout, d: Disk, d': Disk, dirNumber: u32, name: seq<byte>, number: u32) {
    && 1 <= number <= |d.inodes| == |d'.inodes| && number != dirNumber && d.inodes[number - 1].kind == Unused
    && 1 <= dirNumber <= |d.inodes|
    && InodeAt(d, dirNumber).links < 0xFFFF
    && InodeAt(d', dirNumber) == InodeAt(d, dirNumber).(links := InodeAt(d', dirNumber).links)
    && InodeAt(d', dirNumber).links == InodeAt(d, dirNumber).links + 1
    && InodeAt(d', number).kind == Directory && InodeAt(d', number).links == 2 && InodeAt(d', number).size == 4 * L.entries
    && (4 * L.entries % 512 == 0 ==> 512 * InodeAt(d', number).sectors == 4 * L.entries)
    && DotsOnly(d'.blocks, InodeAt(d', number), number, dirNumber)
    && InodeAt(d', number).block[0] !in Used(L, d.blocks, d.descs)
    && Used(L, d'.blocks, d'.descs) == Used(L, d.blocks, d.descs) + {InodeAt(d', number).block[0]}
    && DirOk(d'.blocks, InodeAt(d', dirNumber))
    && Inserted(DirEntries(d.blocks, InodeAt(d, dirNumber)), Entry(number, EXT2_FT_DIR, name), DirEntries(d'.blocks, InodeAt(d', dirNumber)))
    && (forall j :: 0 <= j < |d.inodes| && j != dirNumber - 1 && j != number - 1 ==> d'.inodes[j] == d.inodes[j])
    && (forall j :: 0 <= j < |d.inodes| && j != dirNumber - 1 && d.inodes[j].kind != Unused ==>
          Kept(L, d.blocks, d'.blocks, d.inodes[j]))
  }

  /** The three stages together. */
  lemma Made(L: Layout, d: Disk, d2: Disk, d': Disk, dirNumber: u32, name: seq<byte>, number: u32, n: u32)
    requires BlockSizeOk(L) && Consistent(L, d) && 1 <= dirNumber <= |d.inodes| && number != dirNumber
    requires 1 <= number <= |d.inodes| && d.inodes[number - 1].kind == Unused && DirOk(d.blocks, InodeAt(d, dirNumber))
    requires Grounded(L, WithInode(d, number, FreshInode(Directory)), d2, number, dirNumber, n)
    requires Linked(d2, d', dirNumber, name, number, EXT2_FT_DIR, 2)
    ensures Consistent(L, d') && MadeDirectory(L, d, d', dirNumber, name, number) && d'.free == d2.free
  {
    hide Consistent, Contents, Kept, Inserted, DirOk, Grounded, DirEntries, DotsOnly, Acceptable, Used, SectorsPerBlock;
    if 4 * L.entries % 512 == 0 {
      OneBlockSectors(L.entries);
    }
    var d1 := WithInode(d, number, FreshInode(Directory));
    FreshConsistent(L, d, number - 1, Directory);
    GroundedConsistent(L, d1, d2, number, dirNumber, n);
    ParentKept(L, d1, d2, dirNumber, number, n);
    ParentEntries(d1, d2, dirNumber);
    LinkedConsistent(L, d2, d', dirNumber, name, number, EXT2_FT_DIR, 2);
    GroundedInodes(L, d1, d2, number, dirNumber, n);
    GroundedUsed(L, d1, d2, number, dirNumber, n);
    DotsAfter(L, d2, d', dirNumber, name, number, n);
    forall j | 0 <= j < |d.inodes| && j != dirNumber - 1 && d.inodes[j].kind != Unused ensures Kept(L, d.blocks, d'.blocks, d.inodes[j]) {
      assert d2.inodes[j] == d1.inodes[j] == d.inodes[j];
      KeptTwice(L, d1.blocks, d2.blocks, d'.blocks, d.inodes[j]);
    }
  }

  lemma ParentEntries(d1: Disk, d2: Disk, dirNumber: nat)
    requires InodeAt(d2, dirNumber) == InodeAt(d1, dirNumber)
    requires forall k :: 0 <= k < 12 && InodeAt(d1, dirNumber).block[k] != 0 ==>
               BlockAt(d2.blocks, InodeAt(d1, dirNumber).block[k]) == BlockAt(d1.blocks, InodeAt(d1, dirNumber).block[k])
    ensures DirEntries(d2.blocks, InodeAt(d2, dirNumber)) == DirEntries(d1.blocks, InodeAt(d1, dirNumber))
  {
    EntriesKept(d1.blocks, d2.blocks, InodeAt(d1, dirNumber), 0);
  }

  lemma GroundedInodes(L: Layout, d1: Disk, d2: Disk, number: u32, parent: u32, n: u32)
    requires BlockSizeOk(L) && Grounded(L, d1, d2, number, parent, n)
    ensures |d2.blocks| == |d1.blocks| && 1 <= number <= |d1.inodes|
    ensures d2.inodes == d1.inodes[number - 1 := NewDirectory(L, n)] && n < |d2.blocks| && d2.blocks[n] == DotBlock(BlockSize(L.entries), number, parent)
  {
  }

  lemma GroundedUsed(L: Layout, d1: Disk, d2: Disk, number: u32, parent: u32, n: u32)
    requires BlockSizeOk(L) && Grounded(L, d1, d2, number, parent, n)
    ensures n !in Used(L, d1.blocks, d1.descs) && Used(L, d2.blocks, d2.descs) == Used(L, d1.blocks, d1.descs) + {n}
  {
    hide Used;
  }

  lemma DotsAfter(L: Layout, d2: Disk, d': Disk, dirNumber: u32, name: seq<byte>, number: u32, n: u32)
    requires BlockSizeOk(L) && 1 <= dirNumber <= |d2.inodes| && number != dirNumber && 1 <= number <= |d2.inodes|
    requires Linked(d2, d', dirNumber, name, number, EXT2_FT_DIR, 2)
    requires d2.inodes[number - 1] == NewDirectory(L, n) && n != 0 && n < |d2.blocks|
    requires d2.blocks[n] == DotBlock(BlockSize(L.entries), number, dirNumber)
    requires forall k :: 0 <= k < 12 && InodeAt(d2, dirNumber).block[k] != 0 ==> InodeAt(d2, dirNumber).block[k] != n
    ensures DotsOnly(d'.blocks, InodeAt(d', number), number, dirNumber)
    ensures InodeAt(d', number) == NewDirectory(L, n).(links := 2)
  {
    hide DirOk, DirEntries, Inserted, DotBlock, DotsOnly;
    assert d'.blocks[n] == d2.blocks[n];
    DotsThere(L, d'.blocks, InodeAt(d', number), n, number, dirNumber);
  }

  /* ---------- the operation ---------- */

  lemma StillCounted(groups: seq<InodeGroup>, perGroup: pos, inodes: seq<Inode>, free: nat, g: nat, usedDirs: u16)
    requires InodesOk(groups, perGroup, inodes, free) && g < |groups|
    ensures InodesOk(groups[g := groups[g].(usedDirs := usedDirs)], perGroup, inodes, free)
  {
    hide Bit, ClearBits, InodeGroupCount, InodesIn;
    var groups' := groups[g := groups[g].(usedDirs := usedDirs)];
    SumInodesUpdate(groups, g, groups'[g]);
    forall h | 0 <= h < |groups'| ensures GroupCounted(groups', |inodes|, perGroup, h) {
      assert GroupCounted(groups, |inodes|, perGroup, h);
    }
    forall i | 0 <= i < |inodes| && inodes[i].kind != Unused ensures InodeBit(groups', perGroup, i) {
      assert InodeBit(groups, perGroup, i);
    }
  }

  /** used_dirs_count of the inode's group goes up by one, unless it cannot. */
  method CountDirectory(maps: InodeMaps, number: u32) returns (ok: bool, group: nat)
    requires maps.Valid() && 1 <= number <= |maps.fs.disk.inodes|
    modifies maps`groups, maps.fs`failed
    ensures old(maps.fs.failed) ==> maps.fs.failed
    ensures ok ==> maps.Valid() && maps.fs.failed == old(maps.fs.failed)
    ensures group == Quotient(number - 1, maps.perGroup) < |old(maps.groups)|
    ensures ok ==> old(maps.groups)[group].usedDirs < UINT16_MAX
    ensures ok ==> maps.groups == old(maps.groups)[group := old(maps.groups)[group].(usedDirs := old(maps.groups)[group].usedDirs + 1)]
    ensures !ok && !maps.fs.failed ==> old(maps.groups)[group].usedDirs == UINT16_MAX
  {
    hide InodesOk;
    GroupOfNumber(maps.groups, maps.perGroup, maps.fs.disk.inodes, maps.free, number - 1);
    group := Quotient(number - 1, maps.perGroup);
    var x: InodeGroup;
    ok, x := maps.ReadGroup(group);
    if !ok {
      return;
    }
    if x.usedDirs == UINT16_MAX {
      return false, group;
    }
    StillCounted(maps.groups, maps.perGroup, maps.fs.disk.inodes, maps.free, group, x.usedDirs + 1);
    ok := maps.WriteGroup(group, x.(usedDirs := x.usedDirs + 1));
  }

  lemma GroupOfNumber(groups: seq<InodeGroup>, perGroup: pos, inodes: seq<Inode>, free: nat, i: nat)
    requires InodesOk(groups, perGroup, inodes, free) && i < |inodes|
    ensures Quotient(i, perGroup) < |groups|
  {
    GroupOfInode(|inodes|, perGroup, i);
  }

  /** Allocating and filling the directory's block. */
  method MakeBlock(fs: Volume, number: u32, node: Inode, parent: u32) returns (ok: bool, n: u32)
    requires BlockSizeOk(fs.L) && Consistent(fs.L, fs.disk) && fs.free == fs.disk.free
    requires 1 <= number <= |fs.disk.inodes| && node == fs.disk.inodes[number - 1] == FreshInode(Directory)
    modifies fs
    ensures old(fs.failed) ==> fs.failed
    ensures ok ==> Grounded(fs.L, old(fs.disk), fs.disk, number, parent, n) && fs.free == fs.disk.free && fs.failed == old(fs.failed)
    ensures !ok && !fs.failed ==> old(fs.free) == 0
  {
    hide CountsOk, FilesOk, Grounded, Allocated;
    ghost var d := fs.disk;
    ok, n := AllocateBlock(fs);
    if !ok {
      return;
    }
    ok := Ground(fs, d, number, node, parent, n);
  }

  /** A name that may be given to a new directory. */
  predicate ProperName(name: seq<byte>) {
    1 <= |name| <= 255 && name != DOT && name != DOT_DOT
  }

  /** The directory count of group g went up by one, and no other did. */
  predicate DirCounted(groups: seq<InodeGroup>, groups': seq<InodeGroup>, g: nat) {
    && |groups'| == |groups| && g < |groups|
    && forall h :: 0 <= h < |groups| ==> groups'[h].usedDirs == groups[h].usedDirs + if h == g then 1 else 0
  }

  lemma CountedUp(groups: seq<InodeGroup>, groups1: seq<InodeGroup>, groups2: seq<InodeGroup>, g: nat)
    requires SameDirs(groups, groups1) && g < |groups1| && groups1[g].usedDirs < UINT16_MAX
    requires groups2 == groups1[g := groups1[g].(usedDirs := groups1[g].usedDirs + 1)]
    ensures DirCounted(groups, groups2, g)
  {
  }

  /** Why mkdir may refuse. */
  predicate Refuses(d: Disk, free: nat, groups: seq<InodeGroup>, perGroup: pos, firstUsable: nat, dirNumber: nat, name: seq<byte>) {
    || !(1 <= |name| <= 255) || name == [46] || name == [46, 46]
    || NoneFree(groups, perGroup, |d.inodes|, firstUsable)
    || free == 0
    || !DirHasRoom(d.blocks, InodeAt(d, dirNumber), EntrySize(|name|))
    || InodeAt(d, dirNumber).links == 0xFFFF
    || exists g :: 0 <= g < |groups| && groups[g].usedDirs == 0xFFFF
  }

  /** ext2_vnode_mkdir. It fails without a device failure only for a name that
      is taken or not proper, when no inode or no block is free, when no record
      of the parent has room, or when a count is at its limit. */
  method Mkdir(fs: Volume, maps: InodeMaps, dirNumber: u32, cached: Inode, name: seq<byte>) returns (ok: bool, number: u32)
    requires BlockSizeOk(fs.L) && AtRest(fs, maps) && Current(fs.disk, dirNumber, cached) && DirOk(fs.disk.blocks, cached)
    modifies fs, maps`groups, maps`free
    ensures ok && old(NameFree(fs.disk, cached, name)) ==>
              && AtRest(fs, maps) && MadeDirectory(fs.L, old(fs.disk), fs.disk, dirNumber, name, number)
              && DirCounted(old(maps.groups), maps.groups, Quotient(number - 1, maps.perGroup))
    ensures !ok && !fs.failed && old(NameFree(fs.disk, cached, name)) ==>
              Refuses(old(fs.disk), old(fs.free), old(maps.groups), maps.perGroup, maps.firstUsable, dirNumber, name)
    ensures !fs.failed && 1 <= old(FirstOf(name, DirEntries(fs.disk.blocks, cached))) <= |old(fs.disk).inodes|
            && old(fs.disk).inodes[old(FirstOf(name, DirEntries(fs.disk.blocks, cached))) - 1].kind != Unused ==>
              !ok && fs.disk == old(fs.disk) && fs.free == old(fs.free) && maps.groups == old(maps.groups) && maps.free == old(maps.free)
  {
    hide Consistent, DirOk, Refuses, NameFree, MadeDirectory, InodesOk, DirEntries, NoneFree, OneMoreBit, SameDirs, Grounded, Linked, FirstOf, DirCounted;
    number := 0;
    ghost var d, groups, perGroup, first := fs.disk, maps.groups, maps.perGroup, maps.firstUsable;
    if !ProperName(name) {
      NotProper(d, fs.free, groups, perGroup, first, dirNumber, name);
      return false, 0;
    }
    var existing: bool, n: u32, child: Inode;
    existing, n, child := VnodeLookup(fs, cached, name);
    if existing {
      NotNameFree(d, cached, name);
      return false, 0;
    }
    ok, n := maps.Allocate(Directory);
    if !ok {
      NoInodeFree(d, fs.free, groups, perGroup, first, dirNumber, name);
      return false, 0;
    }
    ghost var d1 := fs.disk;
    FreshConsistent(fs.L, d, n - 1, Directory);
    ok, child := fs.ReadInode(n);
    if !ok {
      return false, 0;
    }
    var m: u32;
    ok, m := MakeBlock(fs, n, child, dirNumber);
    if !ok {
      NoBlockFree(d, groups, perGroup, first, dirNumber, name);
      return false, 0;
    }
    ok := Finish(fs, maps, d, d1, groups, dirNumber, cached, name, n, m);
    if ok {
      ok, number, child := VnodeLookup(fs, cached, name);
    }
  }

  lemma NotNameFree(d: Disk, dir: Inode, name: seq<byte>)
    requires FirstOf(name, DirEntries(d.blocks, dir)) != 0
    ensures !NameFree(d, dir, name)
  {
    hide DirEntries;
  }

  lemma NoInodeFree(d: Disk, free: nat, groups: seq<InodeGroup>, perGroup: pos, firstUsable: nat, dirNumber: nat, name: seq<byte>)
    ensures NoneFree(groups, perGroup, |d.inodes|, firstUsable) ==> Refuses(d, free, groups, perGroup, firstUsable, dirNumber, name)
  {
    hide NoneFree;
  }

  lemma NoBlockFree(d: Disk, groups: seq<InodeGroup>, perGroup: pos, firstUsable: nat, dirNumber: nat, name: seq<byte>)
    ensures Refuses(d, 0, groups, perGroup, firstUsable, dirNumber, name)
  {
  }

  lemma NotProper(d: Disk, free: nat, groups: seq<InodeGroup>, perGroup: pos, firstUsable: nat, dirNumber: nat, name: seq<byte>)
    requires !ProperName(name)
    ensures Refuses(d, free, groups, perGroup, firstUsable, dirNumber, name)
  {
  }

  lemma NoDirLeft(d: Disk, free: nat, groups: seq<InodeGroup>, groups1: seq<InodeGroup>, perGroup: pos, firstUsable: nat, dirNumber: nat, name: seq<byte>, g: nat)
    requires SameDirs(groups, groups1) && g < |groups1| && groups1[g].usedDirs == UINT16_MAX
    ensures Refuses(d, free, groups, perGroup, firstUsable, dirNumber, name)
  {
    assert groups[g].usedDirs == UINT16_MAX;
  }

  /** Why the helper would not link, seen from before the block was made. */
  lemma LinkRefused(L: Layout, d: Disk, d1: Disk, d2: Disk, free: nat, groups: seq<InodeGroup>, perGroup: pos, firstUsable: nat,
                    dirNumber: u32, name: seq<byte>, number: u32, n: u32)
    requires BlockSizeOk(L) && Consistent(L, d1) && Grounded(L, d1, d2, number, dirNumber, n) && number != dirNumber
    requires 1 <= dirNumber <= |d1.inodes| && DirOk(d1.blocks, InodeAt(d1, dirNumber)) && ProperName(name)
    requires d1.blocks == d.blocks && InodeAt(d, dirNumber) == InodeAt(d1, dirNumber) && InodeAt(d1, dirNumber).kind == Directory
    requires !NameIn(name, DirEntries(d.blocks, InodeAt(d, dirNumber)))
    ensures || Refuses(d, free, groups, perGroup, firstUsable, dirNumber, name)
            || (&& Acceptable(d2, dirNumber, name, number, EXT2_FT_DIR)
                && !NameIn(name, DirMet(d2.blocks, InodeAt(d2, dirNumber), 0, EntrySize(|name|)))
                && DirHasRoom(d2.blocks, InodeAt(d2, dirNumber), EntrySize(|name|))
                && InodeAt(d2, dirNumber).links != UINT16_MAX)
  {
    hide Consistent, DirOk, Grounded, NameIn, DirHasRoom, DirEntries, DirMet;
    ParentKept(L, d1, d2, dirNumber, number, n);
    ParentEntries(d1, d2, dirNumber);
    MetIsListed(d2.blocks, InodeAt(d2, dirNumber), EntrySize(|name|), name);
    GroundedInodes(L, d1, d2, number, dirNumber, n);
    RoomKept(d1.blocks, d2.blocks, InodeAt(d1, dirNumber), EntrySize(|name|));
  }

  lemma FreshDir(d: Disk, d1: Disk, dirNumber: u32, cached: Inode, number: u32, name: seq<byte>)
    requires Current(d, dirNumber, cached) && DirOk(d.blocks, cached) && 1 <= number <= |d.inodes| && d.inodes[number - 1].kind == Unused
    requires d1.blocks == d.blocks && d1.inodes == d.inodes[number - 1 := FreshInode(Directory)]
    ensures number != dirNumber && DirOk(d1.blocks, InodeAt(d1, dirNumber)) && DirOk(d.blocks, InodeAt(d, dirNumber))
    ensures InodeAt(d1, dirNumber) == InodeAt(d, dirNumber) && InodeAt(d, dirNumber).kind == Directory
    ensures NameFree(d, cached, name) <==> !NameIn(name, DirEntries(d.blocks, InodeAt(d, dirNumber)))
  {
    hide DirFrom, Tiled, NameIn;
    SameEntries(d.blocks, InodeAt(d, dirNumber), cached, 0);
  }

  /** Counting the directory and publishing its name. */
  method Finish(fs: Volume, maps: InodeMaps, ghost d: Disk, ghost d1: Disk, ghost groups: seq<InodeGroup>,
                dirNumber: u32, ghost cached: Inode, name: seq<byte>, n: u32, ghost m: u32) returns (ok: bool)
    requires BlockSizeOk(fs.L) && maps.fs == fs && fs.free == fs.disk.free && ProperName(name) && |d.inodes| < 0x1_0000_0000
    requires Consistent(fs.L, d) && Current(d, dirNumber, cached) && DirOk(d.blocks, cached)
    requires 1 <= n <= |d.inodes| && d.inodes[n - 1].kind == Unused && d1 == WithInode(d, n, FreshInode(Directory))
    requires Grounded(fs.L, d1, fs.disk, n, dirNumber, m)
    requires InodesOk(maps.groups, maps.perGroup, d1.inodes, maps.free) && SameDirs(groups, maps.groups)
    modifies fs`disk, fs`failed, maps`groups
    ensures old(fs.failed) ==> fs.failed
    ensures ok ==> fs.free == fs.disk.free && |fs.disk.inodes| == |d.inodes|
    ensures ok ==> maps.Valid() && Consistent(fs.L, fs.disk) && fs.failed == old(fs.failed) && MadeDirectory(fs.L, d, fs.disk, dirNumber, name, n)
    ensures ok ==> DirCounted(groups, maps.groups, Quotient(n - 1, maps.perGroup))
    ensures ok && NameFree(d, cached, name) ==> FoundBy(fs.disk, cached, name, n)
    ensures !ok && !fs.failed && NameFree(d, cached, name) ==>
              forall free :: Refuses(d, free, groups, maps.perGroup, maps.firstUsable, dirNumber, name)
  {
    hide Consistent, DirOk, Refuses, NameFree, MadeDirectory, InodesOk, DirEntries, OneMoreBit, SameDirs, Grounded, Linked, FoundBy, Acceptable, DirHasRoom, NameIn, DirMet, DirCounted;
    var L := fs.L;
    ghost var d2 := fs.disk;
    FreshDir(d, d1, dirNumber, cached, n, name);
    FreshConsistent(L, d, n - 1, Directory);
    GroundedInodes(L, d1, d2, n, dirNumber, m);
    SameKinds(maps.groups, maps.perGroup, d1.inodes, d2.inodes, maps.free);
    ghost var groups1 := maps.groups;
    var group: nat;
    ok, group := CountDirectory(maps, n);
    if !ok {
      if !fs.failed {
        forall free: nat ensures Refuses(d, free, groups, maps.perGroup, maps.firstUsable, dirNumber, name) {
          NoDirLeft(d, free, groups, groups1, maps.perGroup, maps.firstUsable, dirNumber, name, group);
        }
      }
      return;
    }
    assert fs.disk == d2;
    ParentKept(L, d1, d2, dirNumber, n, m);
    ok := LinkNewChild(fs, dirNumber, name, n, EXT2_FT_DIR, 2);
    if !ok {
      if !fs.failed && NameFree(d, cached, name) {
        forall free: nat ensures Refuses(d, free, groups, maps.perGroup, maps.firstUsable, dirNumber, name) {
          LinkRefused(L, d, d1, d2, free, groups, maps.perGroup, maps.firstUsable, dirNumber, name, n, m);
        }
      }
      if maps.groups[group].usedDirs > 0 {
        var undone := maps.WriteGroup(group, maps.groups[group].(usedDirs := maps.groups[group].usedDirs - 1));
      }
      return false;
    }
    CountedUp(groups, groups1, maps.groups, group);
    Made(L, d, d2, fs.disk, dirNumber, name, n, m);
    LinkedKinds(d2, fs.disk, dirNumber, name, n);
    SameKinds(maps.groups, maps.perGroup, d2.inodes, fs.disk.inodes, maps.free);
    if NameFree(d, cached, name) {
      NowFound(d1, d2, fs.disk, dirNumber, cached, name, n);
    }
  }

  lemma LinkedKinds(d2: Disk, d': Disk, dirNumber: u32, name: seq<byte>, n: u32)
    requires Linked(d2, d', dirNumber, name, n, EXT2_FT_DIR, 2)
    ensures |d'.inodes| == |d2.inodes| && d'.free == d2.free && forall i :: 0 <= i < |d2.inodes| ==> d'.inodes[i].kind == d2.inodes[i].kind
  {
    hide DirOk, Inserted, DirEntries, OnlyBlock;
  }

  lemma NowFound(d1: Disk, d2: Disk, d': Disk, dirNumber: u32, cached: Inode, name: seq<byte>, n: u32)
    requires Linked(d2, d', dirNumber, name, n, EXT2_FT_DIR, 2) && n != dirNumber
    requires InodeAt(d2, dirNumber) == InodeAt(d1, dirNumber) && cached.kind == Directory && cached.block == InodeAt(d1, dirNumber).block
    requires !NameIn(name, DirEntries(d1.blocks, InodeAt(d1, dirNumber)))
    requires forall k :: 0 <= k < 12 && InodeAt(d1, dirNumber).block[k] != 0 ==>
               BlockAt(d2.blocks, InodeAt(d1, dirNumber).block[k]) == BlockAt(d1.blocks, InodeAt(d1, dirNumber).block[k])
    ensures FoundBy(d', cached, name, n)
  {
    hide Tiled, DirFrom, NameIn, Inserted, OnlyBlock;
    ParentEntries(d1, d2, dirNumber);
    LinkedLookup(d2, d', dirNumber, name, n, EXT2_FT_DIR, 2, name);
    SameEntries(d'.blocks, InodeAt(d', dirNumber), cached, 0);
  }

  /** Looking the name up gives this inode, which is in use. */
  predicate FoundBy(d: Disk, cached: Inode, name: seq<byte>, n: u32) {
    && DirOk(d.blocks, cached) && FirstOf(name, DirEntries(d.blocks, cached)) == n
    && 1 <= n <= |d.inodes| && d.inodes[n - 1].kind != Unused
  }
}
