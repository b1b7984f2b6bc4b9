/** Publishing a new name in a directory. */
module Ext2Link {
  import opened Machine
  import opened Ext2Blocks
  import opened Ext2Tree
  import opened Ext2Bitmap
  import opened Ext2Cache
  import opened Ext2Grow
  import opened Ext2Content
  import opened Ext2Consistent
  import opened Ext2Volume
  import opened Ext2Records
  import opened Ext2Dir

  const UINT16_MAX: int := 0xFFFF

  function InodeAt(d: Disk, number: nat): Inode {
    if 1 <= number <= |d.inodes| then d.inodes[number - 1] else InodeRecord(Unused, 0, 0, 0, NO_BLOCKS)
  }

  function KindOf(fileType: byte): Kind {
    if fileType == EXT2_FT_REG_FILE then Regular else Directory
  }

  /** At most block n differs. */
  predicate OnlyBlock(blocks: seq<Block>, blocks': seq<Block>, n: nat) {
    && |blocks'| == |blocks| && n < |blocks| && |blocks'[n]| == |blocks[n]|
    && forall b :: 0 <= b < |blocks| && b != n ==> blocks'[b] == blocks[b]
  }

  /** The inode records after a name is published: the child has its links, and
      a parent of a directory has one more. */
  function Relinked(inodes: seq<Inode>, dirNumber: nat, childNumber: nat, fileType: byte, childLinks: u16): seq<Inode>
    requires 1 <= dirNumber <= |inodes| && 1 <= childNumber <= |inodes|
    requires fileType == EXT2_FT_DIR ==> inodes[dirNumber - 1].links < UINT16_MAX
  {
    var dir, child := inodes[dirNumber - 1], inodes[childNumber - 1];
    var withChild := inodes[childNumber - 1 := child.(links := childLinks)];
    if fileType == EXT2_FT_DIR then withChild[dirNumber - 1 := dir.(links := dir.links + 1)] else withChild
  }

  /** What the helper asks of the name and of the two inodes. */
  predicate Acceptable(d: Disk, dirNumber: nat, name: seq<byte>, childNumber: nat, fileType: byte) {
    && (fileType == EXT2_FT_REG_FILE || fileType == EXT2_FT_DIR)
    && 1 <= |name| <= 255
    && InodeAt(d, dirNumber).kind == Directory
    && 1 <= childNumber <= |d.inodes| && InodeAt(d, childNumber).kind == KindOf(fileType) && InodeAt(d, childNumber).links == 0
  }

  /** Some direct block has a record that can take the entry. */
  predicate DirHasRoom(blocks: seq<Block>, dir: Inode, needed: nat) {
    exists k :: 0 <= k < 12 && dir.block[k] != 0 && HasRoom(BlockAt(blocks, dir.block[k]), 0, needed)
  }

  /** d' is d with the name published: one record added to one block, every
      other record as it was and in its order, and the link counts. */
  ghost predicate Linked(d: Disk, d': Disk, dirNumber: nat, name: seq<byte>, childNumber: u32, fileType: byte, childLinks: u16) {
    && Acceptable(d, dirNumber, name, childNumber, fileType)
    && (fileType == EXT2_FT_DIR ==> InodeAt(d, dirNumber).links < UINT16_MAX)
    && d'.inodes == Relinked(d.inodes, dirNumber, childNumber, fileType, childLinks)
    && d'.descs == d.descs && d'.free == d.free
    && (exists k :: 0 <= k < 12 && InodeAt(d, dirNumber).block[k] != 0 && OnlyBlock(d.blocks, d'.blocks, InodeAt(d, dirNumber).block[k]))
    && DirOk(d'.blocks, InodeAt(d', dirNumber))
    && Inserted(DirEntries(d.blocks, InodeAt(d, dirNumber)), Entry(childNumber, fileType, name), DirEntries(d'.blocks, InodeAt(d', dirNumber)))
  }

  lemma InsertedBetween(head: seq<Entry>, xs: seq<Entry>, e: Entry, ys: seq<Entry>, tail: seq<Entry>)
    requires Inserted(xs, e, ys)
    ensures Inserted(head + xs + tail, e, head + ys + tail)
  {
    var i :| 0 <= i <= |xs| && ys == xs[..i] + [e] + xs[i..];
    var zs := head + xs + tail;
    assert zs[..|head| + i] == head + xs[..i];
    assert zs[|head| + i..] == xs[i..] + tail;
    assert head + ys + tail == (head + xs[..i]) + [e] + (xs[i..] + tail);
  }

  /** Only direct block i changed: the listing changes as that block's does. */
  lemma {:induction false} DirFromChanged(blocks: seq<Block>, blocks': seq<Block>, dir: Inode, dir': Inode, i: nat, e: Entry, k: nat)
    requires DirOk(blocks, dir) && dir'.block == dir.block && i < 12 && k <= 12 && dir.block[i] != 0
    requires OnlyBlock(blocks, blocks', dir.block[i])
    requires Inserted(Listed(blocks[dir.block[i]], 0), e, Listed(blocks'[dir.block[i]], 0))
    ensures k > i ==> DirFrom(blocks', dir', k) == DirFrom(blocks, dir, k)
    ensures k <= i ==> Inserted(DirFrom(blocks, dir, k), e, DirFrom(blocks', dir', k))
    decreases 12 - k
  {
    hide Listed, Inserted, Tiled;
    if k < 12 {
      DirFromChanged(blocks, blocks', dir, dir', i, e, k + 1);
      var here, here' := BlockEntries(blocks, dir.block[k]), BlockEntries(blocks', dir'.block[k]);
      var rest, rest' := DirFrom(blocks, dir, k + 1), DirFrom(blocks', dir', k + 1);
      if k == i {
        InsertedBetween([], here, e, here', rest);
        assert [] + here + rest == here + rest && [] + here' + rest' == here' + rest';
      } else {
        assert here == here';
        if k < i {
          InsertedBetween(here, rest, e, rest', []);
          assert here + rest + [] == here + rest && here + rest' + [] == here + rest';
        }
      }
    }
  }

  /** Filling one record of one direct block publishes the name. */
  lemma RecordLinks(d: Disk, dirNumber: nat, name: Name, childNumber: u32, fileType: byte, childLinks: u16, i: nat, off: nat, d': Disk)
    requires DirOk(d.blocks, InodeAt(d, dirNumber))
    requires Acceptable(d, dirNumber, name, childNumber, fileType)
    requires fileType == EXT2_FT_DIR ==> InodeAt(d, dirNumber).links < UINT16_MAX
    requires i < 12 && InodeAt(d, dirNumber).block[i] != 0
    requires
      var b := d.blocks[InodeAt(d, dirNumber).block[i]];
      Boundary(b, 0, off) && Tiled(b, off) && Room(b, off, EntrySize(|name|))
    requires
      var n := InodeAt(d, dirNumber).block[i];
      d' == d.(blocks := d.blocks[n := WithEntry(d.blocks[n], off, name, childNumber, fileType)],
               inodes := Relinked(d.inodes, dirNumber, childNumber, fileType, childLinks))
    ensures Linked(d, d', dirNumber, name, childNumber, fileType, childLinks)
  {
    hide WithEntry, Room, Boundary, Tiled, Inserted, Listed, DirFrom, EntrySize, AllLive;
    var dir, dir' := InodeAt(d, dirNumber), InodeAt(d', dirNumber);
    var n := dir.block[i];
    WithEntryListed(d.blocks[n], off, name, childNumber, fileType);
    assert dir'.block == dir.block && dir'.kind == dir.kind;
    DirChanged(d.blocks, d'.blocks, dir, dir', i, Entry(childNumber, fileType, name));
  }

  lemma DirChanged(blocks: seq<Block>, blocks': seq<Block>, dir: Inode, dir': Inode, i: nat, e: Entry)
    requires DirOk(blocks, dir) && dir'.block == dir.block && dir'.kind == dir.kind && i < 12 && dir.block[i] != 0
    requires |blocks'| == |blocks| && blocks' == blocks[dir.block[i] := blocks'[dir.block[i]]] && |blocks'[dir.block[i]]| == |blocks[dir.block[i]]|
    requires Inserted(Listed(blocks[dir.block[i]], 0), e, Listed(blocks'[dir.block[i]], 0)) && Tiled(blocks'[dir.block[i]], 0)
    ensures OnlyBlock(blocks, blocks', dir.block[i]) && DirOk(blocks', dir')
    ensures Inserted(DirEntries(blocks, dir), e, DirEntries(blocks', dir'))
  {
    hide Inserted, Listed, Tiled, DirFrom;
    DirFromChanged(blocks, blocks', dir, dir', i, e, 0);
  }

  /** After a name is published, looking it up gives the child, and looking up
      any other name gives what it gave before. */
  lemma LinkedLookup(d: Disk, d': Disk, dirNumber: nat, name: seq<byte>, childNumber: u32, fileType: byte, childLinks: u16, other: seq<byte>)
    requires Linked(d, d', dirNumber, name, childNumber, fileType, childLinks) && !NameIn(name, DirEntries(d.blocks, InodeAt(d, dirNumber)))
    ensures FirstOf(other, DirEntries(d'.blocks, InodeAt(d', dirNumber)))
            == if other == name then childNumber else FirstOf(other, DirEntries(d.blocks, InodeAt(d, dirNumber)))
  {
    hide DirOk, OnlyBlock;
    DirFromLive(d.blocks, InodeAt(d, dirNumber), 0);
    InsertedFirst(DirEntries(d.blocks, InodeAt(d, dirNumber)), Entry(childNumber, fileType, name),
                  DirEntries(d'.blocks, InodeAt(d', dirNumber)), other);
  }

  /** Publishing keeps the names of a directory distinct exactly when the name
      was new: a name that is listed but not met is published twice. */
  lemma LinkedDistinct(d: Disk, d': Disk, dirNumber: nat, name: seq<byte>, childNumber: u32, fileType: byte, childLinks: u16)
    requires Linked(d, d', dirNumber, name, childNumber, fileType, childLinks) && Distinct(DirEntries(d.blocks, InodeAt(d, dirNumber)))
    ensures Distinct(DirEntries(d'.blocks, InodeAt(d', dirNumber))) <==> !NameIn(name, DirEntries(d.blocks, InodeAt(d, dirNumber)))
  {
    hide DirOk, OnlyBlock, DirEntries;
    InsertedDistinct(DirEntries(d.blocks, InodeAt(d, dirNumber)), Entry(childNumber, fileType, name),
                     DirEntries(d'.blocks, InodeAt(d', dirNumber)));
  }

  /* ---------- the volume stays consistent ---------- */

  lemma LinksOnly(L: Layout, d: Disk, i: nat, ino': Inode)
    requires Consistent(L, d) && i < |d.inodes| && d.inodes[i].kind != Unused && ino' == d.inodes[i].(links := ino'.links)
    ensures Consistent(L, d.(inodes := d.inodes[i := ino']))
  {
    hide Used, CountsOk, SizedBlocks, Canon, BlocksFor, Blocks, SectorsPerBlock;
    var ino := d.inodes[i];
    assert forall s :: At(d.blocks, ino', s) == At(d.blocks, ino, s);
    assert Spans(L, ino') == Spans(L, ino);
    OneFileChanged(L, d, d.(inodes := d.inodes[i := ino']), i, Spans(L, ino), ino, ino');
  }

  lemma DirBlockChanged(L: Layout, d: Disk, blocks': seq<Block>, i: nat, k: nat)
    requires Consistent(L, d) && i < |d.inodes| && d.inodes[i].kind != Unused && k < 12 && d.inodes[i].block[k] != 0
    requires OnlyBlock(d.blocks, blocks', d.inodes[i].block[k])
    ensures Consistent(L, d.(blocks := blocks')) && Used(L, blocks', d.descs) == Used(L, d.blocks, d.descs)
    ensures forall j :: 0 <= j < |d.inodes| && j != i && d.inodes[j].kind != Unused ==> Kept(L, d.blocks, blocks', d.inodes[j])
  {
    hide Kept, Used, DescriptorsOk, Canon, BlocksFor, Blocks, SectorsPerBlock, Contents, GroupCount;
    var ino, E := d.inodes[i], L.entries;
    var n := ino.block[k];
    var sh := Spans(L, ino);
    assert FileOk(L, d.blocks, ino, Used(L, d.blocks, d.descs));
    assert At(d.blocks, ino, Direct(k)) == n && Live(E, sh, Direct(k));
    DataBlock(E, d.blocks, ino, sh, Direct(k));
    TreeFrame(E, d.blocks, blocks', ino, sh);
    UsedFrame(L, d.blocks, d.descs, blocks');
    assert At(blocks', ino, Direct(k)) == n;
    assert Owns(E, blocks', ino, sh, n);
    assert d.inodes[i := ino] == d.inodes;
    OneFileChanged(L, d, d.(blocks := blocks'), i, sh, ino, ino);
  }

  lemma LinksKeep(L: Layout, d: Disk, dirNumber: nat, childNumber: nat, fileType: byte, childLinks: u16)
    requires Consistent(L, d) && 1 <= dirNumber <= |d.inodes| && 1 <= childNumber <= |d.inodes| && dirNumber != childNumber
    requires d.inodes[dirNumber - 1].kind != Unused && d.inodes[childNumber - 1].kind != Unused
    requires fileType == EXT2_FT_DIR ==> d.inodes[dirNumber - 1].links < UINT16_MAX
    ensures Consistent(L, d.(inodes := Relinked(d.inodes, dirNumber, childNumber, fileType, childLinks)))
  {
    hide Consistent;
    var dir, child := d.inodes[dirNumber - 1], d.inodes[childNumber - 1];
    LinksOnly(L, d, childNumber - 1, child.(links := childLinks));
    if fileType == EXT2_FT_DIR {
      LinksOnly(L, d.(inodes := d.inodes[childNumber - 1 := child.(links := childLinks)]), dirNumber - 1, dir.(links := dir.links + 1));
    }
  }

  lemma LinksInvisible(E: pos, blocks: seq<Block>, ino: Inode, ino': Inode)
    requires ino' == ino.(links := ino'.links)
    ensures Contents(E, blocks, ino') == Contents(E, blocks, ino)
  {
    hide BlockOf, Within, SlotOf, Capacity;
    assert forall s :: At(blocks, ino', s) == At(blocks, ino, s);
  }

  /** Publishing a name keeps the volume consistent and every other file as it
      was, but for link counts. */
  lemma LinkedConsistent(L: Layout, d: Disk, d': Disk, dirNumber: nat, name: seq<byte>, childNumber: u32, fileType: byte, childLinks: u16)
    requires Consistent(L, d) && dirNumber != childNumber && Linked(d, d', dirNumber, name, childNumber, fileType, childLinks)
    ensures Consistent(L, d') && Used(L, d'.blocks, d'.descs) == Used(L, d.blocks, d.descs)
    ensures forall j :: 0 <= j < |d.inodes| && j != dirNumber - 1 && d.inodes[j].kind != Unused ==> Kept(L, d.blocks, d'.blocks, d.inodes[j])
    ensures forall j :: 0 <= j < |d.inodes| && j != dirNumber - 1 && d.inodes[j].kind != Unused ==>
              Contents(L.entries, d'.blocks, d'.inodes[j]) == Contents(L.entries, d.blocks, d.inodes[j])
  {
    hide Consistent, DirOk, Inserted, NameIn, Contents, OnlyBlock, DirFrom, At, Spans;
    var dir := InodeAt(d, dirNumber);
    var k :| 0 <= k < 12 && dir.block[k] != 0 && OnlyBlock(d.blocks, d'.blocks, dir.block[k]);
    DirBlockChanged(L, d, d'.blocks, dirNumber - 1, k);
    LinksKeep(L, d.(blocks := d'.blocks), dirNumber, childNumber, fileType, childLinks);
    assert d' == d.(blocks := d'.blocks, inodes := Relinked(d.inodes, dirNumber, childNumber, fileType, childLinks));
    forall j | 0 <= j < |d.inodes| && j != dirNumber - 1 && d.inodes[j].kind != Unused
      ensures Contents(L.entries, d'.blocks, d'.inodes[j]) == Contents(L.entries, d.blocks, d.inodes[j])
    {
      LinksInvisible(L.entries, d'.blocks, d.inodes[j], d'.inodes[j]);
    }
  }

  /* ---------- the operation ---------- */

  /** The inodes first, then the directory block; undone when a step fails. */
  method Publish(fs: Volume, dirNumber: nat, directory: Inode, childNumber: nat, node: Inode, fileType: byte, childLinks: u16,
                 n: nat, block: Block) returns (ok: bool)
    requires 1 <= dirNumber <= |fs.disk.inodes| && directory == fs.disk.inodes[dirNumber - 1]
    requires 1 <= childNumber <= |fs.disk.inodes| && node == fs.disk.inodes[childNumber - 1]
    requires node.links == 0
    modifies fs`disk, fs`failed
    ensures old(fs.failed) ==> fs.failed
    ensures ok ==> n < |old(fs.disk).blocks| && fs.failed == old(fs.failed)
    ensures ok ==> (fileType == EXT2_FT_DIR ==> directory.links < UINT16_MAX)
    ensures ok ==> fs.disk == old(fs.disk).(blocks := old(fs.disk).blocks[n := block],
                                            inodes := Relinked(old(fs.disk).inodes, dirNumber, childNumber, fileType, childLinks))
    ensures !ok && !fs.failed ==> n >= |old(fs.disk).blocks| || (fileType == EXT2_FT_DIR && directory.links == UINT16_MAX)
    ensures !ok && !fs.failed && n < |old(fs.disk).blocks| ==> fs.disk == old(fs.disk)
  {
    var child, dir := node.(links := childLinks), directory;
    ghost var inodes := fs.disk.inodes;
    ok := fs.WriteInode(childNumber, child);
    if !ok {
      return;
    }
    var parentLinkChanged := false;
    if fileType == EXT2_FT_DIR {
      if dir.links == UINT16_MAX {
        ok := fs.WriteInode(childNumber, child.(links := 0));
        assert ok ==> fs.disk.inodes == inodes;
        return false;
      }
      dir := dir.(links := dir.links + 1);
      ok := fs.WriteInode(dirNumber, dir);
      if !ok {
        ok := fs.WriteInode(childNumber, child.(links := 0));
        return false;
      }
      parentLinkChanged := true;
    }
    ok := fs.WriteBlock(n, block);
    if !ok {
      if parentLinkChanged {
        ok := fs.WriteInode(dirNumber, dir.(links := dir.links - 1));
      }
      ok := fs.WriteInode(childNumber, child.(links := 0));
      return false;
    }
  }

  /** ext2_link_new_child: scans the direct blocks for the name and for room.
      With an acceptable child, room and the device working, it refuses the name
      exactly when the search for room meets it. */
  method LinkNewChild(fs: Volume, dirNumber: nat, name: seq<byte>, childNumber: u32, fileType: byte, childLinks: u16) returns (ok: bool)
    modifies fs`disk, fs`failed
    ensures old(fs.failed) ==> fs.failed
    ensures ok && old(DirOk(fs.disk.blocks, InodeAt(fs.disk, dirNumber))) ==>
              && Linked(old(fs.disk), fs.disk, dirNumber, name, childNumber, fileType, childLinks)
              && !NameIn(name, old(DirMet(fs.disk.blocks, InodeAt(fs.disk, dirNumber), 0, EntrySize(|name|))))
              && old(DirHasRoom(fs.disk.blocks, InodeAt(fs.disk, dirNumber), EntrySize(|name|)))
    ensures ok ==> fs.failed == old(fs.failed)
    ensures !ok && !fs.failed && old(DirOk(fs.disk.blocks, InodeAt(fs.disk, dirNumber))) ==>
              && fs.disk == old(fs.disk)
              && (|| !Acceptable(fs.disk, dirNumber, name, childNumber, fileType)
                  || NameIn(name, DirMet(fs.disk.blocks, InodeAt(fs.disk, dirNumber), 0, EntrySize(|name|)))
                  || !DirHasRoom(fs.disk.blocks, InodeAt(fs.disk, dirNumber), EntrySize(|name|))
                  || (fileType == EXT2_FT_DIR && InodeAt(fs.disk, dirNumber).links == UINT16_MAX))
  {
    hide Tiled, Boundary, WithEntry, Room, HasRoom, Linked, NameIn, Met;
    if fileType != EXT2_FT_REG_FILE && fileType != EXT2_FT_DIR {
      return false;
    }
    if |name| == 0 || |name| > 255 {
      return false;
    }
    var directory, child: Inode;
    ok, directory := fs.ReadInode(dirNumber);
    if !ok {
      return;
    }
    if directory.kind != Directory {
      return false;
    }
    ok, child := fs.ReadInode(childNumber);
    if !ok {
      return;
    }
    if child.kind != KindOf(fileType) {
      return false;
    }
    if child.links != 0 {
      return false;
    }
    ghost var d := fs.disk;
    ghost var needed: nat := EntrySize(|name|);
    ghost var met := DirMet(d.blocks, directory, 0, needed);
    var i := 0;
    while i < 12
      invariant i <= 12 && fs.disk == d && fs.failed == old(fs.failed)
      invariant DirOk(d.blocks, directory) ==> (NameIn(name, met) <==> NameIn(name, DirMet(d.blocks, directory, i, needed)))
      invariant DirOk(d.blocks, directory) ==>
                  forall k :: 0 <= k < i && directory.block[k] != 0 ==> !HasRoom(BlockAt(d.blocks, directory.block[k]), 0, needed)
    {
      MetFrom(d.blocks, directory, i, needed, name);
      if directory.block[i] != 0 {
        var block: Block;
        ok, block := fs.ReadBlock(directory.block[i]);
        if !ok {
          return;
        }
        var spot := FindSpot(block, name);
        if spot.Refuse? {
          return false;
        }
        if spot.Spot? {
          var filled := WithEntry(block, spot.offset, name, childNumber, fileType);
          ok := Publish(fs, dirNumber, directory, childNumber, child, fileType, childLinks, directory.block[i], filled);
          if ok && DirOk(d.blocks, directory) {
            RecordLinks(d, dirNumber, name, childNumber, fileType, childLinks, i, spot.offset, fs.disk);
          }
          return;
        }
      }
      i := i + 1;
    }
    MetFrom(d.blocks, directory, 12, needed, name);
    return false;
  }

  lemma MetFrom(blocks: seq<Block>, dir: Inode, k: nat, needed: nat, name: seq<byte>)
    requires k <= 12
    ensures NameIn(name, DirMet(blocks, dir, k, needed)) <==>
              && k < 12
              && (|| (dir.block[k] != 0 && NameIn(name, Met(BlockAt(blocks, dir.block[k]), 0, needed)))
                  || ((dir.block[k] == 0 || !HasRoom(BlockAt(blocks, dir.block[k]), 0, needed)) && NameIn(name, DirMet(blocks, dir, k + 1, needed))))
  {
    hide Met, HasRoom, NameIn;
    NoName(name);
    if k < 12 && dir.block[k] != 0 {
      var b := BlockAt(blocks, dir.block[k]);
      NameInSplit(name, Met(b, 0, needed), if HasRoom(b, 0, needed) then [] else DirMet(blocks, dir, k + 1, needed));
    }
  }
}
