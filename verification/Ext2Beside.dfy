/** Two open files of one volume: what is done to one does not disturb the other. */
module Ext2Beside {
  import opened Machine
  import opened Ext2Blocks
  import opened Ext2Tree
  import opened Ext2Bitmap
  import opened Ext2Cache
  import opened Ext2Grow
  import opened Ext2Content
  import opened Ext2Consistent
  import opened Ext2Volume
  import opened Ext2Map
  import opened Ext2File
  import opened Ext2Truncate

  /** A clean cache of pointer tables still agrees with the disk when none of
      the file's blocks changed. */
  lemma CacheStays(L: Layout, blocks: seq<Block>, blocks': seq<Block>, c: Cache, ino: Inode, used': set<nat>)
    requires Mapped(L.entries, blocks, c, ino, Spans(L, ino)) && Clean(c)
    requires Kept(L, blocks, blocks', ino) && |blocks'| == |blocks| && FileOk(L, blocks', ino, used')
    ensures Mapped(L.entries, blocks', c, ino, Spans(L, ino))
  {
    hide Contents, Spans, SectorsPerBlock, At, Encode, Index;
    var E, sh := L.entries, Spans(L, ino);
    CleanOver(E, blocks, c, ino, sh);
    CachedSlots(E, blocks, c, ino, sh);
    forall w | Get(c, w).valid ensures blocks'[Get(c, w).number] == blocks[Get(c, w).number] {
      var s :| IsTable(s) && Live(E, sh, s) && WhichOf(s) == w && Holds(c, Over(blocks, c), ino, s);
      assert BlockAt(blocks', At(blocks, ino, s)) == BlockAt(blocks, At(blocks, ino, s));
    }
    OverFrame(E, blocks, blocks', c, ino, sh);
    CleanOver(E, blocks', c, ino, sh);
  }

  /** The other file after one was written or emptied. */
  lemma OtherStays(L: Layout, d: Disk, d': Disk, number: nat, other: nat, c: Cache, ino: Inode)
    requires Consistent(L, d) && Consistent(L, d') && OthersKept(L, d, d', number) && other != number
    requires 1 <= other <= |d.inodes| && ino == d.inodes[other - 1] && ino.kind != Unused
    requires Mapped(L.entries, d.blocks, c, ino, Spans(L, ino)) && Clean(c)
    ensures other <= |d'.inodes| && d'.inodes[other - 1] == ino
    ensures Mapped(L.entries, d'.blocks, c, ino, Spans(L, ino))
    ensures Contents(L.entries, d'.blocks, ino) == Contents(L.entries, d.blocks, ino)
  {
    hide Mapped, Clean, Spans, Contents, FileOk, Separate, GroupsOk, DescriptorsOk, Used, MetaUsed;
    SameLength(L, d, d');
    CacheStays(L, d.blocks, d'.blocks, c, ino, Used(L, d'.blocks, d'.descs));
    assert Kept(L, d.blocks, d'.blocks, ino);
  }

  lemma SameLength(L: Layout, d: Disk, d': Disk)
    requires Consistent(L, d) && Consistent(L, d')
    ensures |d'.blocks| == |d.blocks|
  {
    hide FilesOk, DescriptorsOk, MetaUsed;
  }

  /** a and b are different open files of one volume. */
  ghost predicate Both(a: Vnode, b: Vnode)
    reads a, b, a.fs, b.fs, a.cache, b.cache
  {
    a != b && a.fs == b.fs && a.cache != b.cache && a.number != b.number && Open(a) && Open(b)
  }

  /** A write through one file: the other is still open, with its cached
      tables, and a read through it gives what it gave before. */
  method WriteBeside(a: Vnode, b: Vnode, offset: nat, buffer: seq<byte>, from: nat, length: nat) returns (ok: bool, data: seq<byte>)
    requires Both(a, b)
    modifies a, a.cache, a.fs, b.cache
    ensures ok ==> Both(a, b) && FileBytes(b) == old(FileBytes(b)) && data == Stretch(old(FileBytes(b)), from, length)
    ensures ok && buffer != [] ==> offset <= |old(FileBytes(a))| && FileBytes(a) == Spliced(old(FileBytes(a)), offset, buffer)
  {
    hide Consistent, Mapped, Contents, Spans, OthersKept, Spliced, UsedGrew, Clean;
    data := [];
    ghost var d, c, ino := b.fs.disk, b.cache.View(), b.inode;
    var n: nat;
    ok, n := Write(a, offset, buffer);
    if !ok {
      return;
    }
    OtherStays(b.fs.L, d, b.fs.disk, a.number, b.number, c, ino);
    ok, data := Read(b, from, length);
  }

  /** The same for a truncation. */
  method TruncateBeside(a: Vnode, b: Vnode, from: nat, length: nat) returns (ok: bool, data: seq<byte>)
    requires Both(a, b)
    modifies a, a.cache, a.fs, b.cache
    ensures ok ==> Both(a, b) && FileBytes(b) == old(FileBytes(b)) && data == Stretch(old(FileBytes(b)), from, length)
    ensures ok ==> FileBytes(a) == []
  {
    hide Consistent, Mapped, Contents, Spans, OthersKept, Clean, Used, LiveOf, At;
    data := [];
    ghost var d, c, ino := b.fs.disk, b.cache.View(), b.inode;
    ok := Truncate(a, 0);
    if !ok {
      return;
    }
    OtherStays(b.fs.L, d, b.fs.disk, a.number, b.number, c, ino);
    ok, data := Read(b, from, length);
  }
}
