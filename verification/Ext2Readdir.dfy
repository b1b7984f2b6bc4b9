/** Listing a directory, one call at a time. */
module Ext2Readdir {
  import opened Machine
  import opened Arithmetic
  import opened Ext2Blocks
  import opened Ext2Tree
  import opened Ext2Bitmap
  import opened Ext2Content
  import opened Ext2Volume
  import opened Ext2Records
  import opened Ext2Dir
  import opened Ext2Link

  /** A directory whose size counts whole blocks and covers its direct blocks. */
  predicate Covered(E: pos, blocks: seq<Block>, dir: Inode) {
    && DirOk(blocks, dir)
    && SizedBlocks(E, blocks)
    && Within(E, dir.size) == 0
    && forall k :: 0 <= k < 12 && dir.block[k] != 0 ==> k < BlockOf(E, dir.size)
  }

  /** The entries from byte offset on. */
  function Rest(E: pos, blocks: seq<Block>, dir: Inode, offset: nat): seq<Entry> {
    var k := BlockOf(E, offset);
    if k >= 12 then []
    else if dir.block[k] == 0 then DirFrom(blocks, dir, k + 1)
    else Listed(BlockAt(blocks, dir.block[k]), Within(E, offset)) + DirFrom(blocks, dir, k + 1)
  }

  /** A position that a listing can stand at: the start of a record. */
  predicate Place(E: pos, blocks: seq<Block>, dir: Inode, offset: nat) {
    BlockOf(E, offset) < 12 && dir.block[BlockOf(E, offset)] != 0 ==>
      Tiled(BlockAt(blocks, dir.block[BlockOf(E, offset)]), Within(E, offset))
  }

  lemma Start(E: pos, blocks: seq<Block>, dir: Inode, offset: nat)
    requires Covered(E, blocks, dir) && Within(E, offset) == 0
    ensures Place(E, blocks, dir, offset)
    ensures Rest(E, blocks, dir, offset) == if BlockOf(E, offset) < 12 then DirFrom(blocks, dir, BlockOf(E, offset)) else []
  {
    hide Tiled, Listed, BlockOf, Within;
    if BlockOf(E, offset) < 12 {
      assert dir.block[BlockOf(E, offset)] == 0 ==> [] + DirFrom(blocks, dir, BlockOf(E, offset) + 1) == DirFrom(blocks, dir, BlockOf(E, offset) + 1);
    }
  }

  /** Moving on by the length of a record stays in the block or starts the next. */
  lemma MoveOn(E: pos, offset: nat, length: nat)
    requires Within(E, offset) + length <= BlockSize(E)
    ensures Within(E, offset) + length < BlockSize(E) ==>
              BlockOf(E, offset + length) == BlockOf(E, offset) && Within(E, offset + length) == Within(E, offset) + length
    ensures Within(E, offset) + length == BlockSize(E) ==>
              BlockOf(E, offset + length) == BlockOf(E, offset) + 1 && Within(E, offset + length) == 0
  {
    var B, k, r := BlockSize(E), BlockOf(E, offset), Within(E, offset);
    if r + length < B {
      DivModUnique(B, k, r + length, BlockOf(E, offset + length), Within(E, offset + length));
    } else {
      assert (k + 1) * B + 0 == offset + length;
      DivModUnique(B, k + 1, 0, BlockOf(E, offset + length), Within(E, offset + length));
    }
  }

  /** Past the end of the directory there is nothing. */
  lemma {:induction false} Nothing(E: pos, blocks: seq<Block>, dir: Inode, k: nat)
    requires k <= 12 && forall j :: k <= j < 12 ==> dir.block[j] == 0
    ensures DirFrom(blocks, dir, k) == []
    decreases 12 - k
  {
    if k < 12 {
      Nothing(E, blocks, dir, k + 1);
    }
  }

  lemma AtEnd(E: pos, blocks: seq<Block>, dir: Inode, offset: nat)
    requires Covered(E, blocks, dir) && offset >= dir.size
    ensures Rest(E, blocks, dir, offset) == []
  {
    hide Tiled, Listed, DirFrom;
    var k, n := BlockOf(E, offset), BlockOf(E, dir.size);
    if k < n {
      MulLess(k, n, BlockSize(E));
    }
    if k < 12 {
      Nothing(E, blocks, dir, k + 1);
    }
  }

  /** A record before the end ends before the end, and its block is one of
      the directory's. */
  lemma BeforeEnd(E: pos, blocks: seq<Block>, dir: Inode, offset: nat)
    requires Covered(E, blocks, dir) && offset < dir.size
    ensures offset - Within(E, offset) + BlockSize(E) <= dir.size
  {
    hide DirOk;
    var k, n := BlockOf(E, offset), BlockOf(E, dir.size);
    if k < n {
      MulLess(k, n, BlockSize(E));
    } else if n < k {
      MulLess(n, k, BlockSize(E));
    }
  }

  lemma PlaceStep(E: pos, blocks: seq<Block>, dir: Inode, offset: nat)
    requires Covered(E, blocks, dir) && offset < dir.size && BlockOf(E, offset) < 12 && Place(E, blocks, dir, offset)
    requires dir.block[BlockOf(E, offset)] != 0
    ensures dir.block[BlockOf(E, offset)] < |blocks|
    ensures
      var b, r := blocks[dir.block[BlockOf(E, offset)]], Within(E, offset);
      && |b| == BlockSize(E) && RecordOk(b, r)
      && offset + RecLength(b, r) <= dir.size
      && Place(E, blocks, dir, offset + RecLength(b, r))
      && Rest(E, blocks, dir, offset) == Here(b, r) + Rest(E, blocks, dir, offset + RecLength(b, r))
  {
    hide Half, RecNameLength, RecEntry, Here, DirFrom, BlockOf, Within, DirEntries;
    var k, r := BlockOf(E, offset), Within(E, offset);
    var b := blocks[dir.block[k]];
    BeforeEnd(E, blocks, dir, offset);
    MoveOn(E, offset, RecLength(b, r));
    if r + RecLength(b, r) == |b| {
      Start(E, blocks, dir, offset + RecLength(b, r));
      assert Listed(b, r) == Here(b, r) + [];
      if k == 11 {
        Nothing(E, blocks, dir, 12);
      }
    } else {
      var later, others := Listed(b, r + RecLength(b, r)), DirFrom(blocks, dir, k + 1);
      assert Here(b, r) + later + others == Here(b, r) + (later + others);
    }
  }

  /** A hole is skipped whole. */
  lemma SkipHole(E: pos, blocks: seq<Block>, dir: Inode, offset: nat)
    requires Covered(E, blocks, dir) && offset < dir.size && BlockOf(E, offset) < 12 && dir.block[BlockOf(E, offset)] == 0
    ensures
      var next := (BlockOf(E, offset) + 1) * BlockSize(E);
      && offset < next <= dir.size && Place(E, blocks, dir, next) && Rest(E, blocks, dir, next) == Rest(E, blocks, dir, offset)
  {
    hide DirFrom, BlockOf, Within, Tiled, Listed, DirOk;
    var r := Within(E, offset);
    var next := (BlockOf(E, offset) + 1) * BlockSize(E);
    assert next == offset + (BlockSize(E) - r);
    BeforeEnd(E, blocks, dir, offset);
    MoveOn(E, offset, BlockSize(E) - r);
    Start(E, blocks, dir, next);
    if BlockOf(E, offset) == 11 {
      Nothing(E, blocks, dir, 12);
    }
  }

  /* ---------- the operation ---------- */

  /** What a listing reports of one entry. */
  datatype Dirent = Dirent(inode: u32, kind: Kind, name: seq<byte>)

  datatype Listing = Failed | End(next: nat) | Item(entry: Dirent, next: nat)

  /** The type reported for an entry: the record's own, or the inode's. */
  function TypeOf(inodes: seq<Inode>, e: Entry): Kind {
    if e.kind == EXT2_FT_DIR then Directory
    else if e.kind == EXT2_FT_REG_FILE then Regular
    else if 1 <= e.inode <= |inodes| then inodes[e.inode - 1].kind
    else Unused
  }

  function Shown(inodes: seq<Inode>, e: Entry): Dirent {
    Dirent(e.inode, TypeOf(inodes, e), e.name)
  }

  /** Every entry is known to be a file or a directory. */
  predicate Typed(inodes: seq<Inode>, xs: seq<Entry>) {
    forall i :: 0 <= i < |xs| ==> TypeOf(inodes, xs[i]) != Unused
  }

  /** A listing can go on from offset. */
  predicate Ready(E: pos, blocks: seq<Block>, dir: Inode, offset: nat) {
    Covered(E, blocks, dir) && Place(E, blocks, dir, offset)
  }

  /** What the type byte of an entry says: 1 is a regular file, 2 a directory,
      and otherwise the inode itself says it. */
  predicate KindSaid(inodes: seq<Inode>, e: Entry, kind: Kind) {
    && (e.kind == 1 ==> kind == Regular)
    && (e.kind == 2 ==> kind == Directory)
    && (e.kind != 1 && e.kind != 2 && 1 <= e.inode <= |inodes| ==> kind == inodes[e.inode - 1].kind)
  }

  lemma TypeIsSaid(inodes: seq<Inode>, e: Entry)
    ensures KindSaid(inodes, e, TypeOf(inodes, e))
  {
  }

  /** One call answers with the first remaining entry and leaves the others,
      or says that there are none. It gives up, with the device working, only
      for an entry of unknown type or past the twelfth block. */
  predicate Answers(E: pos, d: Disk, dir: Inode, start: nat, r: Listing) {
    var xs := Rest(E, d.blocks, dir, start);
    match r
    case Item(e, next) =>
      && xs != [] && e == Shown(d.inodes, xs[0]) && e.kind != Unused
      && e.inode == xs[0].inode && e.name == xs[0].name && KindSaid(d.inodes, xs[0], e.kind)
      && start < next <= dir.size && Place(E, d.blocks, dir, next) && Rest(E, d.blocks, dir, next) == xs[1..]
    case End(next) => xs == [] && next == dir.size
    case Failed => !Typed(d.inodes, xs) || dir.size > 12 * BlockSize(E)
  }

  lemma TooFar(E: pos, blocks: seq<Block>, dir: Inode, offset: nat)
    requires offset < dir.size && BlockOf(E, offset) >= 12
    ensures dir.size > 12 * BlockSize(E)
  {
    if BlockOf(E, offset) > 12 {
      MulLess(12, BlockOf(E, offset), BlockSize(E));
    }
  }

  /** The answer for a live record at offset. */
  lemma ItemAnswers(E: pos, d: Disk, dir: Inode, start: nat, offset: nat, r: Listing)
    requires Ready(E, d.blocks, dir, offset) && start <= offset < dir.size && BlockOf(E, offset) < 12
    requires Rest(E, d.blocks, dir, offset) == Rest(E, d.blocks, dir, start)
    requires dir.block[BlockOf(E, offset)] != 0
    ensures dir.block[BlockOf(E, offset)] < |d.blocks|
    ensures
      var b, o := d.blocks[dir.block[BlockOf(E, offset)]], Within(E, offset);
      RecInode(b, o) != 0 && RecordOk(b, o) ==>
        && (TypeOf(d.inodes, RecEntry(b, o)) == Unused ==> Answers(E, d, dir, start, Failed))
        && (TypeOf(d.inodes, RecEntry(b, o)) != Unused ==>
              Answers(E, d, dir, start, Item(Shown(d.inodes, RecEntry(b, o)), offset + RecLength(b, o))))
  {
    hide Half, RecNameLength, RecEntry, Covered, Place, Rest, BlockOf, Within, TypeOf, KindSaid;
    PlaceStep(E, d.blocks, dir, offset);
    var b, o := d.blocks[dir.block[BlockOf(E, offset)]], Within(E, offset);
    var xs := Rest(E, d.blocks, dir, start);
    if RecInode(b, o) != 0 {
      TypeIsSaid(d.inodes, RecEntry(b, o));
      assert xs[0] == RecEntry(b, o) && xs[1..] == Rest(E, d.blocks, dir, offset + RecLength(b, o));
    }
  }

  /** ext2_vnode_readdir: the next live record at or after start. */
  method ReadDir(fs: Volume, dir: Inode, start: nat) returns (r: Listing)
    modifies fs`failed
    ensures Ready(fs.L.entries, fs.disk.blocks, dir, start) ==> (r.Failed? && fs.failed) || Answers(fs.L.entries, fs.disk, dir, start, r)
    ensures !r.Failed? ==> fs.failed == old(fs.failed)
  {
    hide Covered, Place, Rest, RecordOk, RecLength, RecName, RecInode, BlockOf, Within, Answers;
    var E := fs.L.entries;
    ghost var d := fs.disk;
    ghost var ready := Ready(E, d.blocks, dir, start);
    var offset := start;
    if dir.kind != Directory {
      NotListed(E, d.blocks, dir);
      return Failed;
    }
    while offset < dir.size
      invariant start <= offset && fs.disk == d && fs.failed == old(fs.failed)
      invariant ready ==> Ready(E, d.blocks, dir, offset) && Rest(E, d.blocks, dir, offset) == Rest(E, d.blocks, dir, start)
      decreases dir.size - offset
    {
      var logicalBlock := BlockOf(E, offset);
      if logicalBlock >= 12 {
        TooFar(E, d.blocks, dir, offset);
        FarAnswers(E, d, dir, start);
        return Failed;
      }
      var o := Within(E, offset);
      var n := dir.block[logicalBlock];
      if n == 0 {
        var next := (logicalBlock + 1) * BlockSize(E);
        if ready {
          SkipHole(E, d.blocks, dir, offset);
        }
        offset := next;
        continue;
      }
      var ok: bool, block: Block;
      ok, block := fs.ReadBlock(n);
      if ready {
        PlaceStep(E, d.blocks, dir, offset);
        ItemAnswers(E, d, dir, start, offset, Failed);
      }
      if !ok {
        return Failed;
      }
      RecordFits(block, o);
      if o + 8 > BlockSize(E) || !RecordOk(block, o) {
        return Failed;
      }
      var following := offset + RecLength(block, o);
      if following <= offset || following > dir.size {
        return Failed;
      }
      if RecInode(block, o) == 0 {
        assert ready ==> Here(block, o) + Rest(E, d.blocks, dir, following) == Rest(E, d.blocks, dir, following);
        offset := following;
        continue;
      }
      var e := RecEntry(block, o);
      var kind := if e.kind == EXT2_FT_DIR then Directory else Regular;
      if e.kind != EXT2_FT_DIR && e.kind != EXT2_FT_REG_FILE {
        var child: Inode;
        ok, child := fs.ReadInode(e.inode);
        if !ok {
          return Failed;
        }
        if child.kind == Unused {
          return Failed;
        }
        kind := child.kind;
      }
      return Item(Dirent(e.inode, kind, e.name), following);
    }
    if ready {
      AtEnd(E, d.blocks, dir, offset);
      EndAnswers(E, d, dir, start);
    }
    return End(dir.size);
  }

  lemma RecordFits(b: Block, off: nat)
    ensures RecordOk(b, off) ==> off + 8 <= |b| && RecLength(b, off) >= 8
  {
  }

  lemma NotListed(E: pos, blocks: seq<Block>, dir: Inode)
    requires dir.kind != Directory
    ensures !Covered(E, blocks, dir)
  {
  }

  lemma FarAnswers(E: pos, d: Disk, dir: Inode, start: nat)
    requires dir.size > 12 * BlockSize(E)
    ensures Answers(E, d, dir, start, Failed)
  {
  }

  lemma EndAnswers(E: pos, d: Disk, dir: Inode, start: nat)
    requires Rest(E, d.blocks, dir, start) == []
    ensures Answers(E, d, dir, start, End(dir.size))
  {
  }

  /* ---------- the whole listing ---------- */

  function AllShown(inodes: seq<Inode>, xs: seq<Entry>): (s: seq<Dirent>)
    ensures |s| == |xs| && forall i :: 0 <= i < |xs| ==> s[i] == Shown(inodes, xs[i])
  {
    seq(|xs|, i requires 0 <= i < |xs| => Shown(inodes, xs[i]))
  }

  /** Calling ReadDir from offset 0 until it reports the end terminates and
      yields every live record of the directory once, in disk order. */
  method ListAll(fs: Volume, dir: Inode) returns (ok: bool, names: seq<Dirent>)
    requires Covered(fs.L.entries, fs.disk.blocks, dir)
    modifies fs`failed
    ensures ok ==> names == AllShown(fs.disk.inodes, DirEntries(fs.disk.blocks, dir)) && fs.failed == old(fs.failed)
    ensures ok ==>
              var xs := DirEntries(fs.disk.blocks, dir);
              |names| == |xs| && forall i :: 0 <= i < |xs| ==>
                names[i].inode == xs[i].inode && names[i].name == xs[i].name && KindSaid(fs.disk.inodes, xs[i], names[i].kind)
    ensures !ok && !fs.failed ==> !Typed(fs.disk.inodes, DirEntries(fs.disk.blocks, dir)) || dir.size > 12 * BlockSize(fs.L.entries)
  {
    hide Covered, Place, Rest, BlockOf, Within, TypeOf, DirEntries;
    var E := fs.L.entries;
    ghost var d := fs.disk;
    ghost var xs := DirEntries(d.blocks, dir);
    FromZero(E, d.blocks, dir);
    names := [];
    var offset := 0;
    ok := true;
    var done := false;
    while !done
      invariant fs.disk == d && fs.failed == old(fs.failed)
      invariant Ready(E, d.blocks, dir, offset) && |names| <= |xs| && Rest(E, d.blocks, dir, offset) == xs[|names|..]
      invariant forall i :: 0 <= i < |names| ==> names[i] == Shown(d.inodes, xs[i]) && KindSaid(d.inodes, xs[i], names[i].kind)
      invariant done ==> |names| == |xs|
      decreases if done then 0 else 1, |xs| - |names|
    {
      var r := ReadDir(fs, dir, offset);
      match r {
        case Failed => return false, [];
        case End(_) => done := true;
        case Item(e, next) =>
          names := names + [e];
          offset := next;
      }
    }
  }

  lemma FromZero(E: pos, blocks: seq<Block>, dir: Inode)
    requires Covered(E, blocks, dir)
    ensures Ready(E, blocks, dir, 0) && Rest(E, blocks, dir, 0) == DirEntries(blocks, dir)
  {
    DivModUnique(BlockSize(E), 0, 0, BlockOf(E, 0), Within(E, 0));
    Start(E, blocks, dir, 0);
  }

  /** The names listed are exactly the names that lookup resolves, and, where
      names do not repeat, to the same inodes. */
  lemma {:induction false} ListedAreFound(xs: seq<Entry>, name: seq<byte>)
    requires AllLive(xs)
    ensures NameIn(name, xs) <==> FirstOf(name, xs) != 0
    ensures Distinct(xs) ==> forall i :: 0 <= i < |xs| ==> FirstOf(xs[i].name, xs) == xs[i].inode
  {
    if xs != [] {
      NameInSplit(name, [xs[0]], xs[1..]);
      assert [xs[0]] + xs[1..] == xs;
      ListedAreFound(xs[1..], name);
      FirstOfOne(name, xs[0]);
    }
  }
}
