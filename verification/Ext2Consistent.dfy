/** A whole volume: every file's tree, the blocks they share out, and the
    counts. */
module Ext2Consistent {
  import opened Machine
  import opened Arithmetic
  import opened Ext2Blocks
  import opened Ext2Tree
  import opened Ext2Bitmap
  import opened Ext2Cache
  import opened Ext2Grow
  import opened Ext2Content

  /** The shape of a hole-free file of this inode's size. */
  function Spans(L: Layout, ino: Inode): Shape {
    Canon(L.entries, BlocksFor(L.entries, ino.size))
  }

  ghost predicate FileOk(L: Layout, blocks: seq<Block>, ino: Inode, used: set<nat>) {
    && Tree(L.entries, blocks, ino, Spans(L, ino))
    && OwnedIn(L.entries, blocks, ino, Spans(L, ino), used, L.meta)
    && (ino.kind.Regular? ==> ino.sectors == SectorsPerBlock(L.entries) * Blocks(Spans(L, ino)))
  }

  /** Two files have no block in common. */
  ghost predicate Separate(L: Layout, blocks: seq<Block>, a: Inode, b: Inode) {
    forall s, t :: Live(L.entries, Spans(L, a), s) && Live(L.entries, Spans(L, b), t) ==> At(blocks, a, s) != At(blocks, b, t)
  }

  ghost predicate FilesOk(L: Layout, blocks: seq<Block>, inodes: seq<Inode>, used: set<nat>) {
    && (forall i :: 0 <= i < |inodes| && inodes[i].kind != Unused ==> FileOk(L, blocks, inodes[i], used))
    && (forall i, j :: 0 <= i < |inodes| && 0 <= j < |inodes| && i != j && inodes[i].kind != Unused && inodes[j].kind != Unused ==>
          Separate(L, blocks, inodes[i], inodes[j]))
  }

  /** The allocator sees every group, the counts agree with the bitmaps, every inode in use is the root of a
      hole-free tree of allocated blocks, and no block has two owners. */
  ghost predicate Consistent(L: Layout, d: Disk) {
    && SumsOk(L)
    && CountsOk(L, d.blocks, d.descs, d.free)
    && FilesOk(L, d.blocks, d.inodes, Used(L, d.blocks, d.descs))
  }

  lemma SectorBytes(E: pos, n: nat)
    requires 4 * E % 512 == 0
    ensures 512 * SectorsPerBlock(E) == 4 * E && 512 * (SectorsPerBlock(E) * n) == 4 * E * n
  {
    hide SectorsPerBlock;
    OneBlockSectors(E);
    MulReassoc(512, SectorsPerBlock(E), n);
  }

  lemma OneBlockSectors(E: pos)
    requires 4 * E % 512 == 0
    ensures 512 * SectorsPerBlock(E) == 4 * E
  {
  }

  lemma MulReassoc(a: nat, b: nat, c: nat)
    ensures a * (b * c) == (a * b) * c
  {
  }

  /** The sectors counted in a regular file's inode hold exactly the blocks of
      its tree, data and tables. */
  lemma SectorsHoldBlocks(L: Layout, d: Disk, number: nat)
    requires Consistent(L, d) && 1 <= number <= |d.inodes| && d.inodes[number - 1].kind.Regular? && 4 * L.entries % 512 == 0
    ensures 512 * d.inodes[number - 1].sectors == 4 * L.entries * Blocks(Spans(L, d.inodes[number - 1]))
  {
    hide CountsOk, Used, Separate, Tree, OwnedIn, Spans, Blocks, SectorsPerBlock;
    SectorBytes(L.entries, Blocks(Spans(L, d.inodes[number - 1])));
    assert FileOk(L, d.blocks, d.inodes[number - 1], Used(L, d.blocks, d.descs));
  }

  /** Nothing of this file changed: neither its bytes, nor where its tree
      points, nor any of its data blocks and pointer tables. */
  ghost predicate Kept(L: Layout, blocks: seq<Block>, blocks': seq<Block>, ino: Inode) {
    && Contents(L.entries, blocks', ino) == Contents(L.entries, blocks, ino)
    && (forall s :: InTree(L.entries, s) ==> At(blocks', ino, s) == At(blocks, ino, s))
    && (forall s :: Live(L.entries, Spans(L, ino), s) ==> BlockAt(blocks', At(blocks, ino, s)) == BlockAt(blocks, At(blocks, ino, s)))
  }

  /** A file none of whose blocks changed keeps its tree and its contents. */
  lemma Untouched(L: Layout, blocks: seq<Block>, blocks': seq<Block>, ino: Inode, used: set<nat>, used': set<nat>)
    requires FileOk(L, blocks, ino, used) && used <= used'
    requires |blocks'| == |blocks| && SizedBlocks(L.entries, blocks')
    requires forall s :: Live(L.entries, Spans(L, ino), s) ==> BlockAt(blocks', At(blocks, ino, s)) == BlockAt(blocks, At(blocks, ino, s))
    ensures FileOk(L, blocks', ino, used') && Kept(L, blocks, blocks', ino)
    ensures forall s :: InTree(L.entries, s) ==> At(blocks', ino, s) == At(blocks, ino, s)
  {
    hide Blocks, SectorsPerBlock, LeavesFor;
    var E := L.entries;
    TreeFrame(E, blocks, blocks', ino, Spans(L, ino));
    forall p | 0 <= p < ino.size ensures ByteAt(E, blocks', ino, p) == ByteAt(E, blocks, ino, p) {
      UntouchedByte(L, blocks, blocks', ino, used, p);
    }
  }

  lemma KeptTwice(L: Layout, a: seq<Block>, b: seq<Block>, c: seq<Block>, ino: Inode)
    requires Kept(L, a, b, ino) && Kept(L, b, c, ino)
    ensures Kept(L, a, c, ino)
  {
    hide Contents, Spans, At, Index;
  }

  lemma UntouchedByte(L: Layout, blocks: seq<Block>, blocks': seq<Block>, ino: Inode, used: set<nat>, p: nat)
    requires FileOk(L, blocks, ino, used) && p < ino.size && |blocks'| == |blocks|
    requires forall s :: Live(L.entries, Spans(L, ino), s) ==> BlockAt(blocks', At(blocks, ino, s)) == BlockAt(blocks, At(blocks, ino, s))
    requires forall s :: InTree(L.entries, s) ==> At(blocks', ino, s) == At(blocks, ino, s)
    ensures ByteAt(L.entries, blocks', ino, p) == ByteAt(L.entries, blocks, ino, p)
  {
    hide Blocks, SectorsPerBlock, LeavesFor, BlockOf, Within, BlocksFor;
    var E, k := L.entries, BlockOf(L.entries, p);
    InFile(E, p, ino.size);
    SlotIndex(E, k);
    assert Live(E, Spans(L, ino), SlotOf(E, k));
  }

  lemma InFile(E: pos, p: nat, size: nat)
    ensures BlockOf(E, p) < BlocksFor(E, size) <==> p < BlocksFor(E, size) * BlockSize(E)
    ensures p < size ==> BlockOf(E, p) < BlocksFor(E, size)
  {
    BlocksForExact(E, size, BlocksFor(E, size));
    BlockBelow(E, p, BlocksFor(E, size));
  }

  lemma BlockBelow(E: pos, p: nat, n: nat)
    ensures BlockOf(E, p) < n <==> p < n * BlockSize(E)
    ensures BlockOf(E, p) <= n <== p <= n * BlockSize(E)
  {
    var B, q := BlockSize(E), BlockOf(E, p);
    if q < n {
      MulLess(q, n, B);
    } else if n < q {
      MulLess(n, q, B);
    }
  }

  /** From shape sh on blocks to its new size on blocks', the file ino kept
      its blocks, took only blocks nobody used, and nothing outside metadata
      and its own blocks changed. */
  ghost predicate Changed(L: Layout, blocks: seq<Block>, used: set<nat>, ino: Inode, sh: Shape, blocks': seq<Block>, ino': Inode) {
    && |blocks'| == |blocks|
    && (forall s :: Live(L.entries, sh, s) ==> Live(L.entries, Spans(L, ino'), s) && At(blocks', ino', s) == At(blocks, ino, s))
    && (forall s :: Live(L.entries, Spans(L, ino'), s) && !Live(L.entries, sh, s) ==> At(blocks', ino', s) !in used)
    && (forall x :: 0 <= x < |blocks| && x !in L.meta && !Owns(L.entries, blocks', ino', Spans(L, ino'), x) ==> BlockAt(blocks', x) == blocks[x])
  }

  /** The blocks in use now are those in use before and the blocks of this
      file: nothing is lost and nothing leaks. */
  ghost predicate UsedGrew(L: Layout, d: Disk, d': Disk, ino': Inode) {
    forall x :: x in Used(L, d'.blocks, d'.descs) <==>
      x in Used(L, d.blocks, d.descs) || Owns(L.entries, d'.blocks, ino', Spans(L, ino'), x)
  }

  /** The shape of the file before: nothing at all for an unused inode. */
  ghost predicate WasShape(L: Layout, ino: Inode, sh: Shape) {
    if ino.kind == Unused then forall s :: !Live(L.entries, sh, s) else sh == Spans(L, ino)
  }

  /** No block of another file is a block of the changed file. */
  lemma ApartFromChanged(L: Layout, blocks: seq<Block>, used: set<nat>, ino: Inode, sh: Shape, blocks': seq<Block>, ino': Inode, other: Inode)
    requires Changed(L, blocks, used, ino, sh, blocks', ino') && WasShape(L, ino, sh)
    requires FileOk(L, blocks, other, used) && (ino.kind != Unused ==> Separate(L, blocks, other, ino))
    ensures forall s, t :: Live(L.entries, Spans(L, other), s) && Live(L.entries, Spans(L, ino'), t) ==> At(blocks, other, s) != At(blocks', ino', t)
    ensures forall s :: Live(L.entries, Spans(L, other), s) ==>
              At(blocks, other, s) < |blocks| && BlockAt(blocks', At(blocks, other, s)) == BlockAt(blocks, At(blocks, other, s))
  {
    hide Blocks, SectorsPerBlock, Canon, BlocksFor;
    var E := L.entries;
    forall s, t | Live(E, Spans(L, other), s) && Live(E, Spans(L, ino'), t)
      ensures At(blocks, other, s) != At(blocks', ino', t)
    {
      assert At(blocks, other, s) in used;
      if Live(E, sh, t) {
        assert At(blocks, other, s) != At(blocks, ino, t);
      }
    }
    forall s | Live(E, Spans(L, other), s)
      ensures At(blocks, other, s) < |blocks| && BlockAt(blocks', At(blocks, other, s)) == BlockAt(blocks, At(blocks, other, s))
    {
      assert At(blocks, other, s) !in L.meta;
    }
  }

  lemma OtherFile(L: Layout, blocks: seq<Block>, used: set<nat>, ino: Inode, sh: Shape, blocks': seq<Block>, used': set<nat>, ino': Inode, other: Inode)
    requires Changed(L, blocks, used, ino, sh, blocks', ino') && WasShape(L, ino, sh) && used <= used'
    requires FileOk(L, blocks, other, used) && (ino.kind != Unused ==> Separate(L, blocks, other, ino))
    requires SizedBlocks(L.entries, blocks')
    ensures FileOk(L, blocks', other, used') && Kept(L, blocks, blocks', other)
    ensures forall s :: InTree(L.entries, s) ==> At(blocks', other, s) == At(blocks, other, s)
    ensures Separate(L, blocks', other, ino') && Separate(L, blocks', ino', other)
  {
    hide Tree, Blocks, SectorsPerBlock, Canon, BlocksFor, Contents, Kept;
    ApartFromChanged(L, blocks, used, ino, sh, blocks', ino', other);
    Untouched(L, blocks, blocks', other, used, used');
  }

  /** After one file was rewritten, grown or created, the volume is consistent
      again and every other file is as it was. */
  lemma OneFileChanged(L: Layout, d: Disk, d': Disk, i: nat, sh: Shape, ino: Inode, ino': Inode)
    requires Consistent(L, d) && i < |d.inodes| && d.inodes[i] == ino && d'.inodes == d.inodes[i := ino'] && ino'.kind != Unused
    requires CountsOk(L, d'.blocks, d'.descs, d'.free) && Used(L, d.blocks, d.descs) <= Used(L, d'.blocks, d'.descs)
    requires FileOk(L, d'.blocks, ino', Used(L, d'.blocks, d'.descs))
    requires Changed(L, d.blocks, Used(L, d.blocks, d.descs), ino, sh, d'.blocks, ino') && WasShape(L, ino, sh)
    ensures Consistent(L, d')
    ensures forall j :: 0 <= j < |d.inodes| && j != i && d.inodes[j].kind != Unused ==> Kept(L, d.blocks, d'.blocks, d.inodes[j])
  {
    hide FileOk, Changed, WasShape, Kept, Used, DescriptorsOk, SumFree, Spans;
    var used, used' := Used(L, d.blocks, d.descs), Used(L, d'.blocks, d'.descs);
    forall j | 0 <= j < |d.inodes| && j != i && d.inodes[j].kind != Unused
      ensures FileOk(L, d'.blocks, d.inodes[j], used')
      ensures Kept(L, d.blocks, d'.blocks, d.inodes[j])
      ensures forall s :: InTree(L.entries, s) ==> At(d'.blocks, d.inodes[j], s) == At(d.blocks, d.inodes[j], s)
      ensures Separate(L, d'.blocks, d.inodes[j], ino') && Separate(L, d'.blocks, ino', d.inodes[j])
    {
      OtherFile(L, d.blocks, used, ino, sh, d'.blocks, used', ino', d.inodes[j]);
    }
    forall j, k | 0 <= j < |d'.inodes| && 0 <= k < |d'.inodes| && j != k && d'.inodes[j].kind != Unused && d'.inodes[k].kind != Unused
      ensures Separate(L, d'.blocks, d'.inodes[j], d'.inodes[k])
    {
      if j != i && k != i {
        StillSeparate(L, d.blocks, d'.blocks, d.inodes[j], d.inodes[k]);
      }
    }
  }

  lemma StillSeparate(L: Layout, blocks: seq<Block>, blocks': seq<Block>, a: Inode, b: Inode)
    requires Separate(L, blocks, a, b)
    requires forall s :: InTree(L.entries, s) ==> At(blocks', a, s) == At(blocks, a, s)
    requires forall s :: InTree(L.entries, s) ==> At(blocks', b, s) == At(blocks, b, s)
    ensures Separate(L, blocks', a, b)
  {
  }
}
