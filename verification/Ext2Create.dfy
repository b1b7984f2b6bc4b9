/** Creating files and directories. */
module Ext2Create {
  import opened Machine
  import opened Arithmetic
  import opened Ext2Blocks
  import opened Ext2Tree
  import opened Ext2Bitmap
  import opened Ext2Cache
  import opened Ext2Grow
  import opened Ext2Content
  import opened Ext2Consistent
  import opened Ext2Volume
  import opened Ext2Records
  import opened Ext2Dir
  import opened Ext2Link
  import opened Ext2Inodes

  /** A directory vnode agrees with its inode on the disk, as far as lookups go. */
  predicate Current(d: Disk, dirNumber: nat, cached: Inode) {
    && 1 <= dirNumber <= |d.inodes|
    && InodeAt(d, dirNumber).kind == Directory == cached.kind
    && InodeAt(d, dirNumber).block == cached.block
  }

  /** The volume at rest, as create and mkdir find it and leave it. */
  ghost predicate AtRest(fs: Volume, maps: InodeMaps)
    reads fs, maps, maps.fs
  {
    && maps.fs == fs && maps.Valid() && |fs.disk.inodes| < 0x1_0000_0000
    && Consistent(fs.L, fs.disk) && fs.free == fs.disk.free
  }

  lemma {:induction false} SameEntries(blocks: seq<Block>, dir: Inode, cached: Inode, k: nat)
    requires dir.block == cached.block && k <= 12
    ensures DirFrom(blocks, dir, k) == DirFrom(blocks, cached, k)
    decreases 12 - k
  {
    if k < 12 {
      SameEntries(blocks, dir, cached, k + 1);
    }
  }

  /** ext2_vnode_lookup: the name must stand for an inode of a known type. */
  method VnodeLookup(fs: Volume, cached: Inode, name: seq<byte>) returns (found: bool, number: u32, ino: Inode)
    modifies fs`failed
    ensures old(fs.failed) ==> fs.failed
    ensures found ==> 1 <= number <= |fs.disk.inodes| && ino == fs.disk.inodes[number - 1] && ino.kind != Unused && fs.failed == old(fs.failed)
    ensures found && DirOk(fs.disk.blocks, cached) ==> number == FirstOf(name, DirEntries(fs.disk.blocks, cached))
    ensures !found && !fs.failed && DirOk(fs.disk.blocks, cached) ==>
              var n := FirstOf(name, DirEntries(fs.disk.blocks, cached));
              n == 0 || n > |fs.disk.inodes| || fs.disk.inodes[n - 1].kind == Unused
  {
    hide DirEntries, DirOk;
    ino := FreshInode(Unused);
    found, number := Lookup(fs, cached, name);
    if !found {
      return;
    }
    found, ino := fs.ReadInode(number);
    if !found {
      return;
    }
    found := ino.kind != Unused;
  }

  /** An unused inode becomes an empty file or directory. */
  lemma FreshConsistent(L: Layout, d: Disk, i: nat, kind: Kind)
    requires Consistent(L, d) && i < |d.inodes| && d.inodes[i].kind == Unused && kind != Unused
    ensures Consistent(L, d.(inodes := d.inodes[i := FreshInode(kind)]))
    ensures forall j :: 0 <= j < |d.inodes| && j != i ==> d.(inodes := d.inodes[i := FreshInode(kind)]).inodes[j] == d.inodes[j]
  {
    hide Used, DescriptorsOk, GroupCount;
    var ino := FreshInode(kind);
    var d' := d.(inodes := d.inodes[i := ino]);
    NoBlocks(L.entries);
    assert forall s :: At(d.blocks, ino, s) == 0;
    FreshTree(L, d.blocks, ino);
    OneFileChanged(L, d, d', i, Canon(L.entries, 0), d.inodes[i], ino);
  }

  lemma NoBlocks(E: pos)
    ensures BlocksFor(E, 0) == 0
    ensures forall s :: !Live(E, Canon(E, 0), s)
    ensures Blocks(Canon(E, 0)) == 0
  {
    BlocksForExact(E, 0, 0);
  }

  lemma FreshTree(L: Layout, blocks: seq<Block>, ino: Inode)
    requires SizedBlocks(L.entries, blocks) && ino.size == 0 && ino.sectors == 0 && forall s :: At(blocks, ino, s) == 0
    ensures forall used :: FileOk(L, blocks, ino, used)
  {
    NoBlocks(L.entries);
    CanonOk(L.entries, 0);
    assert SectorsPerBlock(L.entries) * 0 == 0;
  }

  /** The disk once a fresh inode is written. */
  function WithInode(d: Disk, number: nat, ino: Inode): Disk {
    if 1 <= number <= |d.inodes| then d.(inodes := d.inodes[number - 1 := ino]) else d
  }

  lemma SameKinds(groups: seq<InodeGroup>, perGroup: pos, inodes: seq<Inode>, inodes': seq<Inode>, free: nat)
    requires InodesOk(groups, perGroup, inodes, free) && |inodes'| == |inodes|
    requires forall i :: 0 <= i < |inodes| ==> inodes'[i].kind == inodes[i].kind
    ensures InodesOk(groups, perGroup, inodes', free)
  {
    hide GroupCounted, InodeBit, InodeGroupCount;
    forall g | 0 <= g < |groups| ensures GroupCounted(groups, |inodes'|, perGroup, g) {
      assert GroupCounted(groups, |inodes|, perGroup, g);
    }
  }

  /** d' is d with a new file of this kind: the inode was not in use, and the
      name was published for it. */
  ghost predicate Created(d: Disk, d': Disk, dirNumber: nat, name: seq<byte>, number: u32) {
    && 1 <= number <= |d.inodes| && number != dirNumber && d.inodes[number - 1].kind == Unused
    && Linked(WithInode(d, number, FreshInode(Regular)), d', dirNumber, name, number, EXT2_FT_REG_FILE, 1)
  }

  /** After a file is created the volume is consistent, every file that was
      there has its bytes, the new file is empty, its name stands for it and
      every other name for what it stood for. */
  lemma CreatedFile(L: Layout, d: Disk, d': Disk, dirNumber: nat, name: seq<byte>, number: u32, other: seq<byte>)
    requires Consistent(L, d) && Created(d, d', dirNumber, name, number) && !NameIn(name, DirEntries(d.blocks, InodeAt(d, dirNumber)))
    ensures Consistent(L, d') && InodeAt(d', number) == FreshInode(Regular).(links := 1)
    ensures
      var ino := InodeAt(d', number);
      ino.kind == Regular && ino.size == 0 && ino.sectors == 0 && ino.links == 1 && forall k :: 0 <= k < 15 ==> ino.block[k] == 0
    ensures |d'.inodes| == |d.inodes| && Used(L, d'.blocks, d'.descs) == Used(L, d.blocks, d.descs)
    ensures forall j :: 0 <= j < |d.inodes| && j != dirNumber - 1 && d.inodes[j].kind != Unused ==>
              Kept(L, d.blocks, d'.blocks, d.inodes[j]) && Contents(L.entries, d'.blocks, d'.inodes[j]) == Contents(L.entries, d.blocks, d.inodes[j])
    ensures FirstOf(other, DirEntries(d'.blocks, InodeAt(d', dirNumber)))
            == if other == name then number else FirstOf(other, DirEntries(d.blocks, InodeAt(d, dirNumber)))
  {
    hide Consistent, Contents, Kept, DirEntries, DirOk, Inserted, OnlyBlock, FirstOf, Used;
    var d1 := WithInode(d, number, FreshInode(Regular));
    FreshConsistent(L, d, number - 1, Regular);
    LinkedConsistent(L, d1, d', dirNumber, name, number, EXT2_FT_REG_FILE, 1);
    LinkedLookup(d1, d', dirNumber, name, number, EXT2_FT_REG_FILE, 1, other);
  }

  lemma AtRestCreated(L: Layout, d: Disk, d': Disk, dirNumber: nat, name: seq<byte>, number: u32,
                      groups: seq<InodeGroup>, perGroup: pos, free: nat)
    requires Consistent(L, d) && Created(d, d', dirNumber, name, number)
    requires InodesOk(groups, perGroup, WithInode(d, number, FreshInode(Regular)).inodes, free)
    ensures Consistent(L, d') && InodesOk(groups, perGroup, d'.inodes, free) && |d'.inodes| == |d.inodes| && d'.free == d.free
  {
    hide Consistent, Contents, DirEntries, DirOk, Inserted, OnlyBlock, InodesOk;
    var d1 := WithInode(d, number, FreshInode(Regular));
    FreshConsistent(L, d, number - 1, Regular);
    LinkedConsistent(L, d1, d', dirNumber, name, number, EXT2_FT_REG_FILE, 1);
    SameKinds(groups, perGroup, d1.inodes, d'.inodes, free);
  }

  /** No entry of the directory has this name. */
  predicate NameFree(d: Disk, dir: Inode, name: seq<byte>) {
    !NameIn(name, DirEntries(d.blocks, dir))
  }

  /** ext2_vnode_create. It fails without a device failure only for a name that
      is taken or too long, or when no inode is free or no record has room. */
  method Create(fs: Volume, maps: InodeMaps, dirNumber: nat, cached: Inode, name: seq<byte>) returns (ok: bool, number: u32)
    requires AtRest(fs, maps) && Current(fs.disk, dirNumber, cached) && DirOk(fs.disk.blocks, cached)
    modifies fs`disk, fs`failed, maps`groups, maps`free
    ensures old(fs.failed) ==> fs.failed
    ensures ok && old(NameFree(fs.disk, cached, name)) ==>
              AtRest(fs, maps) && Created(old(fs.disk), fs.disk, dirNumber, name, number)
    ensures !ok && !fs.failed && old(NameFree(fs.disk, cached, name)) ==>
              || !(1 <= |name| <= 255)
              || NoneFree(old(maps.groups), maps.perGroup, |old(fs.disk).inodes|, maps.firstUsable)
              || !old(DirHasRoom(fs.disk.blocks, cached, EntrySize(|name|)))
    ensures !fs.failed && 1 <= old(FirstOf(name, DirEntries(fs.disk.blocks, cached))) <= |old(fs.disk).inodes|
            && old(fs.disk).inodes[old(FirstOf(name, DirEntries(fs.disk.blocks, cached))) - 1].kind != Unused ==>
              !ok && fs.disk == old(fs.disk) && maps.groups == old(maps.groups) && maps.free == old(maps.free)
  {
    hide Consistent, DirEntries, DirOk, Linked, InodesOk, NoneFree, DirHasRoom, DirMet, FirstOf, NameIn, OneMoreBit;
    var L := fs.L;
    ghost var d := fs.disk;
    ghost var entries := DirEntries(d.blocks, cached);
    number := 0;
    var existing: bool, n: u32, ino: Inode;
    existing, n, ino := VnodeLookup(fs, cached, name);
    if existing {
      NotFree(entries, name);
      return false, 0;
    }
    ok, n := maps.Allocate(Regular);
    if !ok {
      return;
    }
    ghost var d1 := fs.disk;
    assert d1 == WithInode(d, n, FreshInode(Regular));
    DirAgain(d, d1, dirNumber, cached, n);
    if NameFree(d, cached, name) {
      MetIsListed(d1.blocks, InodeAt(d1, dirNumber), EntrySize(|name|), name);
    }
    ok := LinkNewChild(fs, dirNumber, name, n, EXT2_FT_REG_FILE, 1);
    if !ok {
      return;
    }
    ghost var d2 := fs.disk;
    if NameFree(d, cached, name) {
      AtRestCreated(L, d, d2, dirNumber, name, n, maps.groups, maps.perGroup, maps.free);
      FoundAfter(d1, d2, dirNumber, name, n, cached);
    }
    ok, number, ino := VnodeLookup(fs, cached, name);
  }

  lemma NotFree(xs: seq<Entry>, name: seq<byte>)
    ensures FirstOf(name, xs) != 0 ==> NameIn(name, xs)
  {
  }

  /** A fresh inode elsewhere leaves the directory as it was. */
  lemma DirAgain(d: Disk, d1: Disk, dirNumber: nat, cached: Inode, number: nat)
    requires Current(d, dirNumber, cached) && DirOk(d.blocks, cached) && 1 <= number <= |d.inodes| && d.inodes[number - 1].kind == Unused
    requires d1.blocks == d.blocks && d1.inodes == d.inodes[number - 1 := FreshInode(Regular)]
    ensures number != dirNumber && DirOk(d1.blocks, InodeAt(d1, dirNumber)) && InodeAt(d1, dirNumber) == InodeAt(d, dirNumber)
    ensures DirEntries(d1.blocks, InodeAt(d1, dirNumber)) == DirEntries(d.blocks, cached)
    ensures forall needed :: DirHasRoom(d1.blocks, InodeAt(d1, dirNumber), needed) <==> DirHasRoom(d.blocks, cached, needed)
  {
    hide DirFrom, HasRoom, Tiled, DirHasRoom;
    SameEntries(d.blocks, InodeAt(d, dirNumber), cached, 0);
    SameRoom(d.blocks, InodeAt(d, dirNumber), cached);
  }

  lemma SameRoom(blocks: seq<Block>, dir: Inode, cached: Inode)
    requires dir.block == cached.block
    ensures forall needed :: DirHasRoom(blocks, dir, needed) <==> DirHasRoom(blocks, cached, needed)
  {
    hide HasRoom;
  }

  lemma FoundAfter(d1: Disk, d2: Disk, dirNumber: nat, name: seq<byte>, number: u32, cached: Inode)
    requires Linked(d1, d2, dirNumber, name, number, EXT2_FT_REG_FILE, 1) && cached.kind == Directory && cached.block == InodeAt(d1, dirNumber).block
    requires !NameIn(name, DirEntries(d1.blocks, InodeAt(d1, dirNumber)))
    ensures DirOk(d2.blocks, cached) && FirstOf(name, DirEntries(d2.blocks, cached)) == number
    ensures 1 <= number <= |d2.inodes| && d2.inodes[number - 1].kind == Regular
  {
    LinkedLookup(d1, d2, dirNumber, name, number, EXT2_FT_REG_FILE, 1, name);
    SameEntries(d2.blocks, InodeAt(d2, dirNumber), cached, 0);
  }
}
