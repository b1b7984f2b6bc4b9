/** Reading, writing and truncating regular files. */
module Ext2File {
  import opened Machine
  import opened Arithmetic
  import opened Ext2Blocks
  import opened Ext2Tree
  import opened Ext2Bitmap
  import opened Ext2Cache
  import opened Ext2Grow
  import opened Ext2Volume
  import opened Ext2Map
  import opened Ext2Content
  import opened Ext2Consistent

  const UINT32_MAX: int := 0xFFFF_FFFF

  /** A block with data copied into it at offset r. */
  function Patched(block: Block, r: nat, data: seq<byte>): (b: Block)
    ensures |b| == |block|
    ensures r + |data| <= |block| ==> forall i :: 0 <= i < |b| ==> b[i] == if r <= i < r + |data| then data[i - r] else block[i]
  {
    if r + |data| <= |block| then block[..r] + data + block[r + |data|..] else block
  }

  /** The bytes of the file's blocks after data was stored at position fo of
      logical block k; a block that is new reads as zero elsewhere. */
  ghost predicate ChunkStored(E: pos, st: State, st': State, fo: nat, data: seq<byte>) {
    forall p: nat :: BlockOf(E, p) < st'.sh.n ==>
      ByteAt(E, Seen(st'), st'.ino, p)
      == if fo <= p < fo + |data| then data[p - fo]
         else if BlockOf(E, p) < st.sh.n then ByteAt(E, Seen(st), st.ino, p)
         else 0
  }

  /** What one round of the write loop needs and keeps. */
  ghost predicate Writing(L: Layout, st: State) {
    && Busy(L, st)
    && st.sh == Canon(L.entries, st.sh.n)
    && LeafTail(L.entries, Seen(st), st.c, st.ino, st.sh.n)
  }

  /** A dirty leaf is the leaf of the last block, so reading at most one
      block past the end never meets another existing leaf. */
  lemma TailKeeps(L: Layout, st: State, k: nat)
    requires Writing(L, st) && k <= st.sh.n && (k < st.sh.n ==> !st.c.leaf.dirty)
    ensures KeepsLeaf(L.entries, Seen(st), st.c, st.ino, k)
  {
    hide Busy, Over, LeafOf, LeavesFor, Capacity, At;
    var E, n := L.entries, st.sh.n;
    BusyFacts(L, st);
    if st.c.leaf.dirty && 12 + E <= k < Capacity(E) {
      SlotPath(E, k);
      NextLeaf(E, n);
      LeafLive(E, st.d.blocks, st.c, st.ino, st.sh, LeafOf(E, k));
    }
  }

  lemma LeafLive(E: pos, bs: seq<Block>, c: Cache, ino: Inode, sh: Shape, j: nat)
    requires Mapped(E, bs, c, ino, sh) && j < E
    ensures At(Over(bs, c), ino, Leaf(j)) != 0 <==> j < sh.leaves
  {
    assert At(Over(bs, c), ino, Leaf(j)) != 0 <==> Live(E, sh, Leaf(j));
  }

  /** The block after the last one is in the last one's leaf or in the first
      leaf that does not exist. */
  lemma NextLeaf(E: pos, n: nat)
    requires 12 + E < n < Capacity(E)
    ensures LeafOf(E, n) == LeafOf(E, n - 1) || LeafOf(E, n) >= LeavesFor(E, n)
  {
    var j := LeafOf(E, n);
    DivMod(E, n - 12 - E);
    DivMod(E, n - 1 - 12 - E);
    LeavesForExact(E, n, j);
    if j < LeavesFor(E, n) {
      if LeafOf(E, n - 1) < j {
        MulLess(LeafOf(E, n - 1), j, E);
      } else if j < LeafOf(E, n - 1) {
        MulLess(j, LeafOf(E, n - 1), E);
      }
    }
  }

  lemma PositionIn(E: pos, p: nat, k: nat, r: nat, n: nat)
    requires r + n <= BlockSize(E)
    ensures FilePos(E, k, r) <= p < FilePos(E, k, r) + n <==> BlockOf(E, p) == k && r <= Within(E, p) < r + n
    ensures BlockOf(E, p) == k ==> p - FilePos(E, k, r) == Within(E, p) - r
  {
    var B := BlockSize(E);
    var q, w := BlockOf(E, p), Within(E, p);
    if q < k {
      MulLess(q, k, B);
    } else if k < q {
      MulLess(k, q, B);
    }
  }

  lemma ByteOfBlock(L: Layout, st: State, k: nat, p: nat)
    requires Busy(L, st) && k < st.sh.n && k == BlockOf(L.entries, p)
    ensures |BlockAt(Seen(st), Phys(L, st, k))| == BlockSize(L.entries)
    ensures ByteAt(L.entries, Seen(st), st.ino, p) == BlockAt(Seen(st), Phys(L, st, k))[Within(L.entries, p)]
  {
    hide HeldOk, InUse, Overlaid, BlockOf, Within, Over, CacheOk;
    BusyFacts(L, st);
    SlotIndex(L.entries, k);
    assert Live(L.entries, st.sh, SlotOf(L.entries, k));
  }

  /** A data block is not cached, so the disk has it as it is seen. */
  lemma SeenData(L: Layout, st: State, k: nat)
    requires Busy(L, st) && k < st.sh.n
    ensures Phys(L, st, k) < |st.d.blocks| && BlockAt(Seen(st), Phys(L, st, k)) == st.d.blocks[Phys(L, st, k)]
    ensures |st.d.blocks[Phys(L, st, k)]| == BlockSize(L.entries)
  {
    hide HeldOk, InUse, Overlaid, Encode, Decode, Word, SlotOf;
    var E := L.entries;
    BusyFacts(L, st);
    SlotIndex(E, k);
    assert Live(E, st.sh, SlotOf(E, k));
    OverAt(E, st.d.blocks, st.c, st.ino, st.sh);
    CachedSlots(E, st.d.blocks, st.c, st.ino, st.sh);
    DataBlock(E, Seen(st), st.ino, st.sh, SlotOf(E, k));
  }

  function ZeroBlock(E: pos): (b: Block)
    ensures |b| == BlockSize(E) && forall i :: 0 <= i < |b| ==> b[i] == 0
  {
    seq(BlockSize(E), _ => 0)
  }

  /** What a partial write starts from: the old block, or zeroes for a new one. */
  ghost function Base(L: Layout, st: State, st1: State, k: nat): Block {
    if k < st.sh.n then BlockAt(Seen(st1), Phys(L, st1, k)) else ZeroBlock(L.entries)
  }

  lemma StoredBytes(L: Layout, st: State, st1: State, st': State, k: nat, r: nat, data: seq<byte>, base: Block)
    requires Busy(L, st) && Busy(L, st1) && Advanced(L, st, st1) && k <= st.sh.n
    requires st1.sh.n == if k < st.sh.n then st.sh.n else k + 1
    requires |base| == BlockSize(L.entries) && r + |data| <= |base|
    requires |data| == |base| || base == Base(L, st, st1, k)
    requires Replaced(L, st1, k, Patched(base, r, data), st')
    ensures ChunkStored(L.entries, st, st', FilePos(L.entries, k, r), data)
  {
    hide Busy, Advanced, At, Seen, BlockOf, Within, SlotOf, ByteAt, Phys, BlockAt, ZeroBlock, Patched;
    var E := L.entries;
    var fo := FilePos(E, k, r);
    var blk := Patched(base, r, data);
    forall p: nat | BlockOf(E, p) < st'.sh.n
      ensures ByteAt(E, Seen(st'), st'.ino, p)
              == if fo <= p < fo + |data| then data[p - fo]
                 else if BlockOf(E, p) < st.sh.n then ByteAt(E, Seen(st), st.ino, p)
                 else 0
    {
      WrittenBytes(L, st1, k, blk, st', p);
      PositionIn(E, p, k, r, |data|);
      if BlockOf(E, p) < st.sh.n {
        AdvancedBytes(L, st, st1, p);
      }
      if BlockOf(E, p) == k && k < st.sh.n {
        ByteOfBlock(L, st1, k, p);
      }
    }
  }

  lemma TailMoves(L: Layout, st: State, st': State)
    requires LeafTail(L.entries, Seen(st), st.c, st.ino, st.sh.n) && st'.c == st.c && st'.ino == st.ino && st'.sh == st.sh
    requires forall s :: InTree(L.entries, s) ==> At(Seen(st'), st'.ino, s) == At(Seen(st), st.ino, s)
    ensures LeafTail(L.entries, Seen(st'), st'.c, st'.ino, st'.sh.n)
  {
    if st.c.leaf.dirty {
      SlotPath(L.entries, st.sh.n - 1);
      assert InTree(L.entries, Leaf(LeafOf(L.entries, st.sh.n - 1)));
    }
  }

  /** The mapper finds a block exactly below the end of the mapped prefix. */
  lemma BeforeIs(L: Layout, st: State, k: nat)
    requires Busy(L, st)
    ensures k < Capacity(L.entries) ==> (Phys(L, st, k) != 0 <==> k < st.sh.n)
    ensures st.sh.n <= Capacity(L.entries)
  {
    hide HeldOk, InUse, Overlaid;
    BusyFacts(L, st);
    if k < Capacity(L.entries) {
      SlotIndex(L.entries, k);
      assert At(Seen(st), st.ino, SlotOf(L.entries, k)) != 0 <==> Live(L.entries, st.sh, SlotOf(L.entries, k));
    }
  }

  /** The round after the block is found: its new contents reach the disk. */
  lemma StoreLemma(L: Layout, st: State, st1: State, k: nat, r: nat, data: seq<byte>, base: Block)
    requires Writing(L, st) && Busy(L, st1) && Advanced(L, st, st1)
    requires k <= st.sh.n && st1.sh == Canon(L.entries, if k < st.sh.n then st.sh.n else k + 1)
    requires LeafTail(L.entries, Seen(st1), st1.c, st1.ino, st1.sh.n)
    requires |base| == BlockSize(L.entries) && r + |data| <= |base|
    requires |data| == |base| || base == Base(L, st, st1, k)
    ensures
      var st' := WithBlock(st1, Phys(L, st1, k), Patched(base, r, data));
      && Writing(L, st') && Wrote(L, st, st')
      && ChunkStored(L.entries, st, st', FilePos(L.entries, k, r), data)
      && st'.sh.n == (if k < st.sh.n then st.sh.n else k + 1)
  {
    hide Busy, Advanced, Wrote, At, Seen, SlotOf, ChunkStored, Phys, Base, LeafTail;
    var blk := Patched(base, r, data);
    var st' := WithBlock(st1, Phys(L, st1, k), blk);
    DataWritten(L, st1, k, blk);
    StoredBytes(L, st, st1, st', k, r, data, base);
    AdvancedWrote(L, st, st1);
    WroteTwice(L, st, st1, st');
    TailMoves(L, st1, st');
  }

  lemma WholePatch(data: seq<byte>, base: Block)
    requires |data| == |base|
    ensures Patched(base, 0, data) == data
  {
  }

  lemma TailAgain(E: pos, st: State, st0: State)
    requires LeafTail(E, Seen(st), st.c, st.ino, st.sh.n) && Seen(st0) == Seen(st) && st0.ino == st.ino && st0.sh == st.sh
    requires st0.c.leaf.dirty == st.c.leaf.dirty && (st0.c.leaf.dirty ==> st0.c.leaf == st.c.leaf)
    ensures LeafTail(E, Seen(st0), st0.c, st0.ino, st0.sh.n)
  {
  }

  /** One round of the write loop: data goes to offset r of logical block k. */
  method WriteChunk(node: Vnode, ctx: AllocationContext, k: nat, r: nat, data: seq<byte>) returns (ok: bool)
    requires ctx.fs == node.fs && Writing(node.fs.L, node.Now(ctx))
    requires k <= node.shape.n && (k < node.shape.n ==> !node.cache.leaf.dirty)
    requires 0 < |data| && r + |data| <= BlockSize(node.fs.L.entries)
    modifies node`inode, node`shape, node.cache, ctx, node.fs
    ensures ok ==> Writing(node.fs.L, node.Now(ctx)) && Wrote(node.fs.L, old(node.Now(ctx)), node.Now(ctx))
    ensures ok ==> node.shape.n == (if k < old(node.shape.n) then old(node.shape.n) else k + 1)
    ensures ok ==> (k < old(node.shape.n) ==> !node.cache.leaf.dirty)
    ensures ok ==> ChunkStored(node.fs.L.entries, old(node.Now(ctx)), node.Now(ctx), FilePos(node.fs.L.entries, k, r), data)
    ensures ok ==> node.fs.failed == old(node.fs.failed)
    ensures !ok && !node.fs.failed ==> k >= Capacity(node.fs.L.entries) || node.fs.free == 0
  {
    hide HeldOk, Mapped, InUse, Overlaid, Over, Encode, Decode, Busy, Advanced, Wrote, SameData, Full, At, Live, LeafTail, KeepsLeaf, LeavesFor, Capacity, SlotOf, ChunkStored, Patched;
    var fs := node.fs;
    var E := fs.L.entries;
    ghost var st := node.Now(ctx);
    BusyFacts(fs.L, st);
    TailKeeps(fs.L, st, k);
    var before, b: u32;
    ok, before := node.GetDataBlock(k);
    if !ok {
      return;
    }
    ghost var st0 := node.Now(ctx);
    BusyAgain(fs.L, st, st0);
    TailAgain(E, st, st0);
    BeforeIs(fs.L, st0, k);
    ok, b := node.GetOrAllocate(ctx, k);
    if ok {
      BeforeIs(fs.L, node.Now(ctx), k);
    }
    if !ok || b == 0 {
      return false;
    }
    ghost var st1 := node.Now(ctx);
    AdvancedTwice(fs.L, st, st0, st1);
    SeenData(fs.L, st1, k);
    var block: Block;
    if r == 0 && |data| == BlockSize(E) {
      block := data;
      WholePatch(data, Base(fs.L, st, st1, k));
      StoreLemma(fs.L, st, st1, k, r, data, Base(fs.L, st, st1, k));
    } else {
      if before == 0 {
        block := ZeroBlock(E);
      } else {
        ok, block := fs.ReadBlock(b);
        if !ok {
          return;
        }
      }
      StoreLemma(fs.L, st, st1, k, r, data, block);
      block := Patched(block, r, data);
    }
    ok := fs.WriteBlock(b, block);
  }

  /* ---------- a whole write ---------- */

  /** A vnode at rest: the volume is consistent, the vnode has its inode as
      the disk has it, and nothing is waiting to be written back. */
  ghost predicate Open(node: Vnode)
    reads node, node.fs, node.cache
  {
    var fs := node.fs;
    && Consistent(fs.L, fs.disk) && fs.free == fs.disk.free
    && 1 <= node.number <= |fs.disk.inodes| && node.inode == fs.disk.inodes[node.number - 1]
    && node.inode.kind.Regular? && node.size == node.inode.size
    && node.shape == Spans(fs.L, node.inode)
    && node.Readable() && Clean(node.cache.View())
  }

  /** What the file holds. */
  ghost function FileBytes(node: Vnode): seq<byte>
    reads node, node.fs, node.cache
  {
    Contents(node.fs.L.entries, node.fs.disk.blocks, node.inode)
  }

  /** The state a write starts from. */
  ghost predicate Started(L: Layout, st: State) {
    && Consistent(L, st.d) && st.free == st.d.free && st.taken == 0
    && !st.h.loaded && !st.h.dirty
    && CacheOk(L.entries, st.d.blocks, st.c, st.ino, st.sh) && Clean(st.c)
    && st.sh == Spans(L, st.ino) && FileOk(L, st.d.blocks, st.ino, Used(L, st.d.blocks, st.d.descs))
  }

  lemma StartedBusy(L: Layout, st: State)
    requires Started(L, st)
    ensures Busy(L, st) && Seen(st) == st.d.blocks && UsedNow(L, st) == Used(L, st.d.blocks, st.d.descs)
    ensures Writing(L, st) && Wrote(L, st, st)
  {
    hide FilesOk, Blocks, SectorsPerBlock, DescriptorsOk;
    CleanOver(L.entries, st.d.blocks, st.c, st.ino, st.sh);
    GrewNothing(L.entries, L.meta, Seen(st), st.ino, st.sh, UsedNow(L, st));
    AdvancedWrote(L, st, st);
  }

  function High(size: nat, reach: nat): nat {
    if size < reach then reach else size
  }

  /** The write has stored the first total bytes. */
  ghost predicate Progress(E: pos, st0: State, st: State, offset: nat, data: seq<byte>, total: nat) {
    && total <= |data|
    && st.sh.n == BlocksFor(E, High(st0.ino.size, offset + total))
    && (forall p: nat :: p < High(st0.ino.size, offset + total) ==>
          ByteAt(E, Seen(st), st.ino, p)
          == if offset <= p < offset + total then data[p - offset] else ByteAt(E, Seen(st0), st0.ino, p))
  }

  lemma ProgressStep(E: pos, st0: State, st: State, st': State, offset: nat, data: seq<byte>, total: nat, k: nat, r: nat, chunk: nat)
    requires Progress(E, st0, st, offset, data, total) && offset <= st0.ino.size
    requires 0 < chunk && total + chunk <= |data| && r + chunk <= BlockSize(E)
    requires k == BlockOf(E, offset + total) && r == Within(E, offset + total)
    requires st'.sh.n == if k < st.sh.n then st.sh.n else k + 1
    requires ChunkStored(E, st, st', FilePos(E, k, r), data[total..total + chunk])
    ensures Progress(E, st0, st', offset, data, total + chunk)
  {
    hide BlockOf, Within, BlocksFor, ByteAt, Seen;
    var size, n, n' := st0.ino.size, st.sh.n, st'.sh.n;
    var fo := offset + total;
    assert FilePos(E, k, r) == fo;
    BlocksForExact(E, High(size, fo), n);
    BlockBelow(E, fo, n);
    EndOfChunk(E, k, r, chunk, n);
    BlocksForExact(E, High(size, fo + chunk), n');
    if n' > 0 {
      BlocksForExact(E, High(size, fo + chunk), n' - 1);
      BlocksForExact(E, High(size, fo), n' - 1);
    }
    forall p: nat | p < High(size, fo + chunk)
      ensures ByteAt(E, Seen(st'), st'.ino, p)
              == if offset <= p < fo + chunk then data[p - offset] else ByteAt(E, Seen(st0), st0.ino, p)
    {
      BlockBelow(E, p, n');
      BlockBelow(E, p, n);
    }
  }

  lemma EndOfChunk(E: pos, k: nat, r: nat, chunk: nat, n: nat)
    requires 0 < chunk && r + chunk <= BlockSize(E)
    ensures FilePos(E, k, r) + chunk <= (k + 1) * BlockSize(E)
    ensures k < n ==> (k + 1) * BlockSize(E) <= n * BlockSize(E)
    ensures FilePos(E, k, r) + chunk > k * BlockSize(E)
    ensures k == n ==> n * BlockSize(E) <= FilePos(E, k, r)
  {
    if k + 1 < n {
      MulLess(k + 1, n, BlockSize(E));
    }
  }

  /** The loop of ext2_vnode_write. */
  method WriteLoop(node: Vnode, ctx: AllocationContext, offset: nat, buffer: seq<byte>) returns (ok: bool)
    requires ctx.fs == node.fs && Started(node.fs.L, node.Now(ctx)) && offset <= node.inode.size
    requires offset + |buffer| <= Capacity(node.fs.L.entries) * BlockSize(node.fs.L.entries)
    modifies node`inode, node`shape, node.cache, ctx, node.fs
    ensures ok ==> Writing(node.fs.L, node.Now(ctx)) && Wrote(node.fs.L, old(node.Now(ctx)), node.Now(ctx))
    ensures ok ==> Progress(node.fs.L.entries, old(node.Now(ctx)), node.Now(ctx), offset, buffer, |buffer|)
    ensures ok ==> node.fs.failed == old(node.fs.failed)
    ensures !ok && !node.fs.failed ==> node.fs.free == 0
  {
    hide Busy, Wrote, LeafTail, ChunkStored, Started, Consistent, CacheOk, FileOk, Spans, Progress, BlockOf, Within, HeldOk, Mapped, Over, Capacity, BlocksFor, ByteAt;
    var E := node.fs.L.entries;
    ghost var st0 := node.Now(ctx);
    StartedBusy(node.fs.L, st0);
    ProgressStart(node.fs.L, st0, offset, buffer);
    var total := 0;
    while total < |buffer|
      invariant total <= |buffer|
      invariant Writing(node.fs.L, node.Now(ctx)) && Wrote(node.fs.L, st0, node.Now(ctx))
      invariant Progress(E, st0, node.Now(ctx), offset, buffer, total)
      invariant node.fs.failed == old(node.fs.failed)
      invariant total < |buffer| && node.cache.leaf.dirty ==> BlockOf(E, offset + total) == node.shape.n
    {
      ghost var st := node.Now(ctx);
      var fileOffset := offset + total;
      var k, r := BlockOf(E, fileOffset), Within(E, fileOffset);
      var remaining := |buffer| - total;
      var chunk := BlockSize(E) - r;
      if chunk > remaining {
        chunk := remaining;
      }
      ProgressBounds(E, st0, st, offset, buffer, total);
      WithinCapacity(E, fileOffset, |buffer| + offset);
      ok := WriteChunk(node, ctx, k, r, buffer[total..total + chunk]);
      if !ok {
        return;
      }
      WroteTwice(node.fs.L, st0, st, node.Now(ctx));
      ProgressStep(E, st0, st, node.Now(ctx), offset, buffer, total, k, r, chunk);
      NextChunk(E, fileOffset, chunk);
      total := total + chunk;
    }
    return true;
  }

  lemma ProgressStart(L: Layout, st: State, offset: nat, buffer: seq<byte>)
    requires Started(L, st) && offset <= st.ino.size
    ensures Progress(L.entries, st, st, offset, buffer, 0) && !st.c.leaf.dirty
  {
    hide Consistent, FileOk, CacheOk;
  }

  lemma ProgressBounds(E: pos, st0: State, st: State, offset: nat, buffer: seq<byte>, total: nat)
    requires Progress(E, st0, st, offset, buffer, total)
    ensures BlockOf(E, offset + total) <= st.sh.n
  {
    BlocksForExact(E, High(st0.ino.size, offset + total), st.sh.n);
    BlockBelow(E, offset + total, st.sh.n);
  }

  lemma WithinCapacity(E: pos, p: nat, end: nat)
    requires p < end <= Capacity(E) * BlockSize(E)
    ensures BlockOf(E, p) < Capacity(E)
  {
    BlockBelow(E, p, Capacity(E));
  }

  lemma NextChunk(E: pos, p: nat, chunk: nat)
    requires 0 < chunk <= BlockSize(E) - Within(E, p)
    ensures chunk == BlockSize(E) - Within(E, p) ==> BlockOf(E, p + chunk) == BlockOf(E, p) + 1
  {
    if chunk == BlockSize(E) - Within(E, p) {
      var B, q, q' := BlockSize(E), BlockOf(E, p), BlockOf(E, p + chunk);
      assert p + chunk == (q + 1) * B;
      if q' < q + 1 {
        MulLess(q', q + 1, B);
      } else if q + 1 < q' {
        MulLess(q + 1, q', B);
      }
    }
  }

  /** The commit phase: pointer tables, allocator, superblock, inode. */
  method Commit(node: Vnode, ctx: AllocationContext, ghost st0: State, ghost st1: State, offset: nat, buffer: seq<byte>) returns (ok: bool)
    requires ctx.fs == node.fs && Started(node.fs.L, st0) && 1 <= node.number <= |st0.d.inodes| && st0.ino == st0.d.inodes[node.number - 1]
    requires st0.ino.kind.Regular? && offset <= st0.ino.size && buffer != [] && High(st0.ino.size, offset + |buffer|) <= UINT32_MAX
    requires Writing(node.fs.L, st1) && Wrote(node.fs.L, st0, st1) && Progress(node.fs.L.entries, st0, st1, offset, buffer, |buffer|)
    requires node.Now(ctx) == st1.(ino := st1.ino.(size := High(st0.ino.size, offset + |buffer|)))
    modifies node.cache, ctx, node.fs
    ensures ok ==> Finished(node.fs.L, st0, node.Now(ctx), node.number, offset, buffer)
    ensures !ok ==> node.fs.failed
  {
    hide Busy, Wrote, LeafTail, Started, Consistent, CacheOk, FileOk, Spans, Progress, HeldOk, Mapped, Over, Advanced, Finished, Overlaid, SameData;
    var fs := node.fs;
    ghost var st2 := node.Now(ctx);
    SizeApart(fs.L, st1, st2);
    ok := node.FlushCache(ctx);
    if !ok {
      return;
    }
    ghost var st3 := node.Now(ctx);
    BusyFacts(fs.L, st3);
    ok := ctx.Flush();
    if !ok {
      return;
    }
    ghost var st4 := node.Now(ctx);
    BusyCommitted(fs.L, st3, st4);
    AdvancedTwice(fs.L, st2, st3, st4);
    FinishLemma(fs.L, st0, st1, st2, st4, node.number, offset, buffer);
    if ctx.allocatedBlocks > 0 {
      ok := fs.WriteSuperblock();
      if !ok {
        return;
      }
    }
    ok := fs.WriteInode(node.number, node.inode);
  }

  /** The state a completed write leaves. */
  ghost predicate Finished(L: Layout, st0: State, st: State, number: nat, offset: nat, buffer: seq<byte>) {
    && Consistent(L, st.d) && st.free == st.d.free
    && 1 <= number <= |st.d.inodes| && st.ino == st.d.inodes[number - 1] && st.ino.kind.Regular?
    && st.sh == Spans(L, st.ino) && Clean(st.c) && Mapped(L.entries, st.d.blocks, st.c, st.ino, st.sh)
    && offset <= st0.ino.size
    && Contents(L.entries, st.d.blocks, st.ino) == Spliced(Contents(L.entries, st0.d.blocks, st0.ino), offset, buffer)
    && OthersKept(L, st0.d, st.d, number)
    && UsedGrew(L, st0.d, st.d, st.ino) && st.ino.links == st0.ino.links
  }

  /** The tree does not depend on the size field. */
  lemma SizeApart(L: Layout, st1: State, st2: State)
    requires Busy(L, st1) && st2 == st1.(ino := st1.ino.(size := st2.ino.size))
    ensures Busy(L, st2) && Seen(st2) == Seen(st1) && UsedNow(L, st2) == UsedNow(L, st1)
    ensures forall s :: At(Seen(st2), st2.ino, s) == At(Seen(st1), st1.ino, s)
  {
    hide HeldOk, InUse, Overlaid, Over;
    assert forall s :: At(Seen(st2), st2.ino, s) == At(Seen(st1), st1.ino, s);
  }

  /** The allocator's flush under an open file. */
  lemma BusyCommitted(L: Layout, st: State, st': State)
    requires Busy(L, st) && HeldOk(L, st'.d, st'.free, st'.h) && SameData(L, st.d, st'.d)
    requires Overlaid(st'.d, st'.h) == Overlaid(st.d, st.h)
    requires st' == st.(d := st'.d, h := st'.h)
    ensures Busy(L, st') && Advanced(L, st, st')
  {
    hide InUse, Overlaid;
    HeldSized(L, st'.d, st'.free, st'.h);
    BusyFacts(L, st);
    MappedFrame(L.entries, L.meta, st.d.blocks, st'.d.blocks, st.c, st.ino, st.sh, UsedNow(L, st));
    assert UsedNow(L, st') == UsedNow(L, st);
  }

  function Resized(st: State, size: u32): State {
    st.(ino := st.ino.(size := size))
  }

  /** Growing does not look at the size field. */
  lemma AdvancedResized(L: Layout, st: State, st': State, size: u32)
    requires Advanced(L, st, st')
    ensures Advanced(L, Resized(st, size), Resized(st', size))
  {
    hide InUse, Overlaid, Over, SectorsPerBlock, Blocks;
    var r, r' := Resized(st, size), Resized(st', size);
    assert forall s :: At(Seen(r), r.ino, s) == At(Seen(st), st.ino, s);
    assert forall s :: At(Seen(r'), r'.ino, s) == At(Seen(st'), st'.ino, s);
    forall x | OwnsTable(L.entries, Seen(st'), st'.ino, st'.sh, x) ensures OwnsTable(L.entries, Seen(r'), r'.ino, r'.sh, x) {
      var s :| IsTable(s) && Live(L.entries, st'.sh, s) && At(Seen(st'), st'.ino, s) == x;
      assert At(Seen(r'), r'.ino, s) == x;
    }
  }

  /** The whole write as one change of the volume. */
  lemma WroteChanged(L: Layout, st0: State, st: State, ino': Inode)
    requires Started(L, st0) && Wrote(L, st0, st) && Busy(L, st) && Clean(st.c) && Overlaid(st.d, st.h) == st.d
    requires ino' == st.ino.(size := ino'.size) && st.sh == Spans(L, ino') && st0.ino.kind.Regular?
    ensures Changed(L, st0.d.blocks, Used(L, st0.d.blocks, st0.d.descs), st0.ino, st0.sh, st.d.blocks, ino')
    ensures FileOk(L, st.d.blocks, ino', Used(L, st.d.blocks, st.d.descs)) && ino'.kind.Regular?
    ensures Used(L, st0.d.blocks, st0.d.descs) <= Used(L, st.d.blocks, st.d.descs)
    ensures CountsOk(L, st.d.blocks, st.d.descs, st.free) && Seen(st) == st.d.blocks
    ensures forall s :: At(st.d.blocks, ino', s) == At(st.d.blocks, st.ino, s)
    ensures Mapped(L.entries, st.d.blocks, st.c, ino', st.sh)
  {
    hide FilesOk, Canon, CountsOk, GroupsOk, Used, BlocksFor, Over, SectorsPerBlock, Blocks;
    StartedBusy(L, st0);
    CleanOver(L.entries, st.d.blocks, st.c, st.ino, st.sh);
    assert forall s :: At(st.d.blocks, ino', s) == At(st.d.blocks, st.ino, s);
    SectorsTotal(L, st0, st);
    forall x | Owns(L.entries, st.d.blocks, st.ino, st.sh, x) ensures Owns(L.entries, st.d.blocks, ino', st.sh, x) {
      var s :| Live(L.entries, st.sh, s) && At(st.d.blocks, st.ino, s) == x;
      assert At(st.d.blocks, ino', s) == x;
    }
  }

  lemma WroteUsed(L: Layout, st0: State, st: State, ino': Inode)
    requires Started(L, st0) && Wrote(L, st0, st) && Busy(L, st) && Clean(st.c) && Overlaid(st.d, st.h) == st.d
    requires ino' == st.ino.(size := ino'.size) && st.sh == Spans(L, ino')
    ensures UsedGrew(L, st0.d, st.d, ino')
  {
    hide FilesOk, Canon, CountsOk, GroupsOk, Used, BlocksFor, Over, SectorsPerBlock, Blocks, CacheOk, HeldOk, Overlaid, Tree, At;
    var E, used := L.entries, UsedNow(L, st0);
    StartedBusy(L, st0);
    CleanOver(E, st.d.blocks, st.c, st.ino, st.sh);
    SameAt(st.d.blocks, st.ino, ino');
    forall x | x in UsedNow(L, st) ensures x in used || Owns(E, st.d.blocks, ino', st.sh, x) {
      if x !in used {
        var s :| Live(E, st.sh, s) && !Live(E, st0.sh, s) && At(Seen(st), st.ino, s) == x;
        assert At(st.d.blocks, ino', s) == x;
      }
    }
    forall x | Owns(E, st.d.blocks, ino', st.sh, x) ensures x in UsedNow(L, st) {
      var s :| Live(E, st.sh, s) && At(st.d.blocks, ino', s) == x;
      assert At(Seen(st), st.ino, s) == x;
    }
  }

  lemma SameAt(e: seq<Block>, ino: Inode, ino': Inode)
    requires ino'.block == ino.block
    ensures forall s :: At(e, ino', s) == At(e, ino, s)
  {
  }

  lemma SectorsTotal(L: Layout, st0: State, st: State)
    requires Started(L, st0) && Wrote(L, st0, st) && st0.ino.kind.Regular?
    ensures st.ino.sectors == SectorsPerBlock(L.entries) * Blocks(st.sh)
  {
    hide FilesOk, Canon, CountsOk, GroupsOk, Used, BlocksFor, Over, SectorsPerBlock, Blocks, Tree;
  }

  lemma WrittenContents(L: Layout, st0: State, st1: State, st4: State, offset: nat, buffer: seq<byte>, ino': Inode)
    requires Started(L, st0) && offset <= st0.ino.size && buffer != []
    requires Busy(L, st1) && Progress(L.entries, st0, st1, offset, buffer, |buffer|)
    requires Advanced(L, st1, st4) && Seen(st4) == st4.d.blocks
    requires ino'.size == High(st0.ino.size, offset + |buffer|)
    requires forall s :: At(st4.d.blocks, ino', s) == At(st4.d.blocks, st4.ino, s)
    ensures Contents(L.entries, st4.d.blocks, ino') == Spliced(Contents(L.entries, st0.d.blocks, st0.ino), offset, buffer)
  {
    hide Busy, Advanced, BlockOf, Within, BlocksFor, Consistent, FileOk, CacheOk, At, Over, Spans;
    var E := L.entries;
    StartedBusy(L, st0);
    var c0, c := Contents(E, st0.d.blocks, st0.ino), Contents(E, st4.d.blocks, ino');
    var s := Spliced(c0, offset, buffer);
    assert |s| == |c|;
    forall p | 0 <= p < |c| ensures c[p] == s[p] {
      BlocksForExact(E, ino'.size, st1.sh.n);
      BlockBelow(E, p, st1.sh.n);
      AdvancedBytes(L, st1, st4, p);
      assert ByteAt(E, st4.d.blocks, ino', p) == ByteAt(E, Seen(st4), st4.ino, p);
    }
  }

  lemma FinishLemma(L: Layout, st0: State, st1: State, st2: State, st4: State, number: nat, offset: nat, buffer: seq<byte>)
    requires Started(L, st0) && 1 <= number <= |st0.d.inodes| && st0.ino == st0.d.inodes[number - 1]
    requires st0.ino.kind.Regular? && offset <= st0.ino.size && buffer != [] && High(st0.ino.size, offset + |buffer|) <= UINT32_MAX
    requires Writing(L, st1) && Wrote(L, st0, st1) && Progress(L.entries, st0, st1, offset, buffer, |buffer|)
    requires st2 == Resized(st1, High(st0.ino.size, offset + |buffer|))
    requires Busy(L, st2) && Busy(L, st4) && Advanced(L, st2, st4) && st4.ino == st2.ino && st4.sh == st2.sh && st4.taken == st2.taken
    requires Clean(st4.c) && Overlaid(st4.d, st4.h) == st4.d
    ensures number <= |st4.d.inodes|
    ensures st4.taken == 0 ==> st4.free == st4.d.free
    ensures Finished(L, st0, Ended(st4, number), number, offset, buffer)
  {
    hide Busy, BlocksFor, Consistent, FileOk, CacheOk, At, Over, Overlaid, Changed, Contents, Kept, Mapped, Rewrote, Grew, CountsOk, Canon, ByteAt, Owns;
    var size0 := st0.ino.size;
    var st4' := Resized(st4, size0);
    WroteFields(L, st0, st1);
    AdvancedResized(L, st2, st4, size0);
    assert Resized(st2, size0) == st1;
    AdvancedWrote(L, st1, st4');
    WroteTwice(L, st0, st1, st4');
    SizeApart(L, st4, st4');
    WroteChanged(L, st0, st4', st4.ino);
    WroteUsed(L, st0, st4', st4.ino);
    WrittenContents(L, st0, st1, st4', offset, buffer, st4.ino);
    OneFileChanged(L, st0.d, Ended(st4, number).d, number - 1, st0.sh, st0.ino, st4.ino);
  }

  lemma WroteFields(L: Layout, st: State, st': State)
    requires Wrote(L, st, st')
    ensures st'.ino.size == st.ino.size && st'.ino.kind == st.ino.kind && st'.ino.links == st.ino.links
    ensures st'.free + st'.taken == st.free + st.taken && st'.d.inodes == st.d.inodes && st'.d.free == st.d.free
  {
  }

  /** The state after the superblock and the inode are written. */
  function Ended(st: State, number: nat): State {
    if 1 <= number <= |st.d.inodes| then st.(d := st.d.(inodes := st.d.inodes[number - 1 := st.ino], free := st.free)) else st
  }

  lemma SizeOfContents(E: pos, blocks: seq<Block>, ino: Inode)
    ensures |Contents(E, blocks, ino)| == ino.size
  {
  }

  /** An open file is what a write starts from. */
  lemma OpenStarts(L: Layout, st: State, number: nat)
    requires Consistent(L, st.d) && st.free == st.d.free && st.taken == 0 && !st.h.loaded && !st.h.dirty
    requires 1 <= number <= |st.d.inodes| && st.ino == st.d.inodes[number - 1] && st.ino.kind.Regular?
    requires st.sh == Spans(L, st.ino) && Mapped(L.entries, st.d.blocks, st.c, st.ino, st.sh) && Clean(st.c)
    ensures Started(L, st)
  {
    hide CountsOk, FileOk, CacheOk, Tree, Separate, Spans, Used;
  }

  /** The requests that are turned down before anything is written. */
  predicate Refused(E: pos, size: nat, offset: nat, length: nat) {
    || offset > size || offset + length > 0xFFFF_FFFF
    || 4 * E % 512 != 0 || offset + length > (12 + E + E * E) * (4 * E)
  }

  /** ext2_vnode_write. It succeeds with every byte written, or fails because
      the request is refused, a transfer failed, or no block is free. */
  method Write(node: Vnode, offset: nat, buffer: seq<byte>) returns (ok: bool, written: nat)
    requires Open(node)
    modifies node, node.cache, node.fs
    ensures ok ==> Open(node) && written == |buffer|
    ensures ok ==> offset <= |old(FileBytes(node))| || buffer == []
    ensures ok && buffer != [] ==> FileBytes(node) == Spliced(old(FileBytes(node)), offset, buffer)
    ensures ok && buffer != [] ==>
              var was := old(FileBytes(node));
              FileBytes(node) == was[..offset] + buffer + if offset + |buffer| <= |was| then was[offset + |buffer|..] else []
    ensures ok && buffer == [] ==> FileBytes(node) == old(FileBytes(node))
    ensures ok ==> OthersKept(node.fs.L, old(node.fs.disk), node.fs.disk, node.number) && node.inode.links == old(node.inode.links)
    ensures ok ==> UsedGrew(node.fs.L, old(node.fs.disk), node.fs.disk, node.inode)
    ensures ok && buffer != [] ==> 512 * node.inode.sectors == 4 * node.fs.L.entries * Blocks(Spans(node.fs.L, node.inode))
    ensures !ok ==> written == 0 && buffer != []
    ensures !ok && !node.fs.failed ==> Refused(node.fs.L.entries, old(node.inode.size), offset, |buffer|) || node.fs.free == 0
    ensures buffer != [] && Refused(node.fs.L.entries, old(node.inode.size), offset, |buffer|) ==> !ok && Open(node) && node.fs.disk == old(node.fs.disk)
  {
    hide Consistent, Mapped, OthersKept, UsedGrew, Contents, Spans, Spliced, Clean, Started, Writing, Wrote, Progress, Capacity, Blocks;
    RoomOf(node.fs.L.entries);
    var fs := node.fs;
    var E := fs.L.entries;
    SizeOfContents(E, fs.disk.blocks, node.inode);
    if |buffer| == 0 {
      SameKept(fs.L, fs.disk, node.number);
      return true, 0;
    }
    if offset > node.inode.size || |buffer| > UINT32_MAX - offset {
      return false, 0;
    }
    var end := offset + |buffer|;
    if BlockSize(E) % 512 != 0 || end > Capacity(E) * BlockSize(E) || end > UINT32_MAX {
      return false, 0;
    }
    var ctx := new AllocationContext(fs);
    ghost var st0 := node.Now(ctx);
    OpenStarts(fs.L, st0, node.number);
    ok := WriteLoop(node, ctx, offset, buffer);
    if !ok {
      return false, 0;
    }
    ghost var st1 := node.Now(ctx);
    WroteFields(fs.L, st0, st1);
    if end > node.inode.size {
      node.inode := node.inode.(size := end);
    }
    ok := Commit(node, ctx, st0, st1, offset, buffer);
    if !ok {
      return false, 0;
    }
    node.size := node.inode.size;
    SectorsHoldBlocks(fs.L, fs.disk, node.number);
    SplicedIs(old(FileBytes(node)), offset, buffer);
    return true, |buffer|;
  }

  lemma SplicedIs(s: seq<byte>, offset: nat, data: seq<byte>)
    requires offset <= |s|
    ensures Spliced(s, offset, data) == s[..offset] + data + if offset + |data| <= |s| then s[offset + |data|..] else []
  {
  }

  lemma RoomOf(E: pos)
    ensures Capacity(E) * BlockSize(E) == (12 + E + E * E) * (4 * E)
  {
  }

  /** Every other file keeps its inode, its contents and every block of it. */
  ghost predicate OthersKept(L: Layout, d: Disk, d': Disk, number: nat) {
    && |d'.inodes| == |d.inodes|
    && forall j :: 0 <= j < |d.inodes| && j != number - 1 ==>
         && d'.inodes[j] == d.inodes[j]
         && (d.inodes[j].kind != Unused ==> Kept(L, d.blocks, d'.blocks, d.inodes[j]))
  }

  lemma SameKept(L: Layout, d: Disk, number: nat)
    ensures OthersKept(L, d, d, number)
    ensures Consistent(L, d) && 1 <= number <= |d.inodes| && d.inodes[number - 1].kind != Unused ==> UsedGrew(L, d, d, d.inodes[number - 1])
  {
    hide CountsOk, Tree, Separate, Used;
  }

  /* ---------- reading ---------- */

  /** The part of s that a read of length bytes at offset returns. */
  function Stretch(s: seq<byte>, offset: nat, length: nat): seq<byte> {
    if offset >= |s| then [] else if offset + length <= |s| then s[offset..offset + length] else s[offset..]
  }

  lemma Appended(s: seq<byte>, offset: nat, a: seq<byte>, b: seq<byte>)
    requires offset + |a| + |b| <= |s| && a == s[offset..offset + |a|] && b == s[offset + |a|..offset + |a| + |b|]
    ensures a + b == s[offset..offset + |a + b|]
  {
  }

  lemma OpenShape(node: Vnode)
    requires Open(node)
    ensures node.shape.n == BlocksFor(node.fs.L.entries, node.inode.size)
  {
  }

  const EXT2_MAX_READ_RUN_BLOCKS := 16

  /** The block of the volume that holds logical block k of a file at rest. */
  function BlockNo(L: Layout, blocks: seq<Block>, ino: Inode, k: nat): u32 {
    At(blocks, ino, SlotOf(L.entries, k))
  }

  /** How many of the blocks from k on follow block b on the device. */
  method FindRun(node: Vnode, k: nat, b: u32, maxBlocks: nat) returns (ok: bool, run: nat)
    requires Open(node) && 1 <= maxBlocks && k + maxBlocks <= node.shape.n
    requires b == BlockNo(node.fs.L, node.fs.disk.blocks, node.inode, k)
    modifies node.cache, node.fs`failed
    ensures ok ==> Open(node) && node.fs.failed == old(node.fs.failed)
    ensures ok ==> 1 <= run <= maxBlocks
    ensures ok ==> forall j :: k <= j < k + run ==> BlockNo(node.fs.L, node.fs.disk.blocks, node.inode, j) == b + (j - k)
    ensures !ok ==> node.fs.failed
  {
    hide Consistent, Mapped, Over, KeepsLeaf, Spans, BlockNo;
    run := 1;
    while run < maxBlocks
      invariant 1 <= run <= maxBlocks && Open(node) && node.fs.failed == old(node.fs.failed)
      invariant forall j :: k <= j < k + run ==> BlockNo(node.fs.L, node.fs.disk.blocks, node.inode, j) == b + (j - k)
    {
      var next: u32;
      ok, next := FindBlock(node, k + run);
      if !ok {
        return;
      }
      if next == 0 || next != b + run {
        break;
      }
      run := run + 1;
    }
    return true, run;
  }

  /** ext2_get_data_block on a file at rest. */
  method FindBlock(node: Vnode, k: nat) returns (ok: bool, b: u32)
    requires Open(node) && k < node.shape.n
    modifies node.cache, node.fs`failed
    ensures ok ==> Open(node) && node.fs.failed == old(node.fs.failed)
    ensures ok ==> b == BlockNo(node.fs.L, node.fs.disk.blocks, node.inode, k) && b != 0
    ensures !ok ==> node.fs.failed
  {
    hide Consistent, Mapped, Over, KeepsLeaf, Spans, At, Capacity, SlotOf;
    ghost var bs, c := node.fs.disk.blocks, node.cache.View();
    RestFacts(node.fs.L.entries, bs, c, node.inode, node.shape, k);
    ok, b := node.GetDataBlock(k);
    if ok {
      RestOver(node.fs.L.entries, bs, node.cache.View(), node.inode, node.shape);
    }
  }

  lemma RestOver(E: pos, bs: seq<Block>, c: Cache, ino: Inode, sh: Shape)
    requires Mapped(E, bs, c, ino, sh) && Clean(c)
    ensures Over(bs, c) == bs && Tree(E, bs, ino, sh)
  {
    CleanOver(E, bs, c, ino, sh);
  }

  lemma RestFacts(E: pos, bs: seq<Block>, c: Cache, ino: Inode, sh: Shape, k: nat)
    requires Mapped(E, bs, c, ino, sh) && Clean(c)
    ensures Over(bs, c) == bs && KeepsLeaf(E, bs, c, ino, k)
    ensures k < sh.n ==> k < Capacity(E) && 0 < At(bs, ino, SlotOf(E, k)) < |bs| && |bs[At(bs, ino, SlotOf(E, k))]| == BlockSize(E)
  {
    RestOver(E, bs, c, ino, sh);
    if k < sh.n {
      SlotIndex(E, k);
      assert Live(E, sh, SlotOf(E, k));
    }
  }

  /** Consecutive logical blocks that are consecutive on the device read as
      one stretch of the file. */
  lemma RunIsFile(L: Layout, blocks: seq<Block>, ino: Inode, k: nat, b: nat, run: nat)
    requires SizedBlocks(L.entries, blocks) && b + run <= |blocks| && 0 < b && k + run <= Capacity(L.entries)
    requires forall j :: k <= j < k + run ==> BlockNo(L, blocks, ino, j) == b + (j - k)
    ensures |Joined(blocks[b..b + run])| == FilePos(L.entries, run, 0)
    ensures forall i :: 0 <= i < FilePos(L.entries, run, 0) ==>
              Joined(blocks[b..b + run])[i] == ByteAt(L.entries, blocks, ino, FilePos(L.entries, k, i))
  {
    var E := L.entries;
    if run > 0 {
      var init := blocks[b..b + run - 1];
      assert blocks[b..b + run][..run - 1] == init;
      RunIsFile(L, blocks, ino, k, b, run - 1);
      LastBlock(E, run);
      forall i | FilePos(E, run - 1, 0) <= i < FilePos(E, run, 0)
        ensures blocks[b + run - 1][i - FilePos(E, run - 1, 0)] == ByteAt(E, blocks, ino, FilePos(E, k, i))
      {
        InLastBlock(E, k, run, i);
        assert BlockNo(L, blocks, ino, k + run - 1) == b + run - 1;
      }
    }
  }

  lemma LastBlock(E: pos, run: nat)
    requires run > 0
    ensures FilePos(E, run, 0) == FilePos(E, run - 1, 0) + BlockSize(E)
  {
    assert run * BlockSize(E) == (run - 1) * BlockSize(E) + BlockSize(E);
  }

  lemma InLastBlock(E: pos, k: nat, run: nat, i: nat)
    requires run > 0 && FilePos(E, run - 1, 0) <= i < FilePos(E, run, 0)
    ensures BlockOf(E, FilePos(E, k, i)) == k + run - 1 && Within(E, FilePos(E, k, i)) == i - FilePos(E, run - 1, 0)
  {
    LastBlock(E, run);
    var B, p := BlockSize(E), FilePos(E, k, i);
    var q := BlockOf(E, p);
    assert p == (k + run - 1) * B + (i - FilePos(E, run - 1, 0)) by {
      assert (k + run - 1) * B == k * B + (run - 1) * B;
    }
    if q < k + run - 1 {
      MulLess(q, k + run - 1, B);
    } else if k + run - 1 < q {
      MulLess(k + run - 1, q, B);
    }
  }

  /** The fast path: whole blocks, as many as follow each other on the device. */
  method ReadWhole(node: Vnode, p: nat, k: nat, b: u32, maxBlocks: nat, remaining: nat) returns (ok: bool, more: seq<byte>)
    requires Open(node) && p == FilePos(node.fs.L.entries, k, 0) && p + remaining <= node.inode.size
    requires 1 <= maxBlocks && FilePos(node.fs.L.entries, maxBlocks, 0) <= remaining && k < node.shape.n
    requires b == BlockNo(node.fs.L, node.fs.disk.blocks, node.inode, k) && b != 0
    modifies node.cache, node.fs`failed
    ensures ok ==> Open(node) && node.fs.failed == old(node.fs.failed)
    ensures ok ==> 0 < |more| <= remaining && more == FileBytes(node)[p..p + |more|]
    ensures !ok ==> node.fs.failed
  {
    hide Consistent, Mapped, Over, KeepsLeaf, Spans, BlockNo, ByteAt, BlocksFor, Capacity, Joined;
    var E := node.fs.L.entries;
    OpenShape(node);
    BlocksInFile(E, node.inode.size, k, maxBlocks);
    RestFacts(E, node.fs.disk.blocks, node.cache.View(), node.inode, node.shape, k);
    var run: nat;
    ok, run := FindRun(node, k, b, maxBlocks);
    if !ok {
      return false, [];
    }
    RunFits(node, k, b, run);
    ok, more := node.fs.ReadRun(b, run);
    if !ok {
      return false, [];
    }
    RunBytes(E, node.inode.size, run, maxBlocks);
    RunStretch(node.fs.L, node.fs.disk.blocks, node.inode, p, k, b, run);
  }

  lemma RunStretch(L: Layout, blocks: seq<Block>, ino: Inode, p: nat, k: nat, b: nat, run: nat)
    requires SizedBlocks(L.entries, blocks) && b + run <= |blocks| && 0 < b && k + run <= Capacity(L.entries)
    requires forall j :: k <= j < k + run ==> BlockNo(L, blocks, ino, j) == b + (j - k)
    requires p == FilePos(L.entries, k, 0) && p + FilePos(L.entries, run, 0) <= ino.size
    ensures |Joined(blocks[b..b + run])| == FilePos(L.entries, run, 0)
    ensures Joined(blocks[b..b + run]) == Contents(L.entries, blocks, ino)[p..p + FilePos(L.entries, run, 0)]
  {
    hide BlockNo, ByteAt, Joined, Capacity;
    RunIsFile(L, blocks, ino, k, b, run);
    var stretch := Contents(L.entries, blocks, ino)[p..p + FilePos(L.entries, run, 0)];
    forall i | 0 <= i < FilePos(L.entries, run, 0) ensures Joined(blocks[b..b + run])[i] == stretch[i] {
      assert FilePos(L.entries, k, i) == p + i;
    }
  }

  lemma BlocksInFile(E: pos, size: nat, k: nat, m: nat)
    requires FilePos(E, k, 0) + FilePos(E, m, 0) <= size
    ensures k + m <= BlocksFor(E, size)
  {
    assert (k + m - 1) * BlockSize(E) == k * BlockSize(E) + m * BlockSize(E) - BlockSize(E);
    if k + m > 0 {
      BlocksForExact(E, size, k + m - 1);
    }
  }

  lemma RunBytes(E: pos, size: nat, run: nat, m: nat)
    requires 1 <= run <= m
    ensures 0 < FilePos(E, run, 0) <= FilePos(E, m, 0)
  {
    if run < m {
      MulLess(run, m, BlockSize(E));
    }
    MulLess(0, run, BlockSize(E));
  }

  lemma RunFits(node: Vnode, k: nat, b: u32, run: nat)
    requires Open(node) && 1 <= run && k + run <= node.shape.n
    requires forall j :: k <= j < k + run ==> BlockNo(node.fs.L, node.fs.disk.blocks, node.inode, j) == b + (j - k)
    ensures b + run <= |node.fs.disk.blocks| && k + run <= Capacity(node.fs.L.entries) && SizedBlocks(node.fs.L.entries, node.fs.disk.blocks)
  {
    hide Consistent, Over, KeepsLeaf, Spans, At, SlotOf, Tree;
    RestFacts(node.fs.L.entries, node.fs.disk.blocks, node.cache.View(), node.inode, node.shape, k + run - 1);
    assert BlockNo(node.fs.L, node.fs.disk.blocks, node.inode, k + run - 1) == b + run - 1;
  }

  /** The slow path: part of one block. */
  method ReadPart(node: Vnode, p: nat, k: nat, r: nat, b: u32, remaining: nat) returns (ok: bool, more: seq<byte>)
    requires Open(node) && k == BlockOf(node.fs.L.entries, p) && r == Within(node.fs.L.entries, p)
    requires 0 < remaining && p + remaining <= node.inode.size && k < node.shape.n
    requires b == BlockNo(node.fs.L, node.fs.disk.blocks, node.inode, k) && b != 0
    modifies node.fs`failed
    ensures ok ==> Open(node) && node.fs.failed == old(node.fs.failed)
    ensures ok ==> 0 < |more| <= remaining && more == FileBytes(node)[p..p + |more|]
    ensures !ok ==> node.fs.failed
  {
    hide Consistent, Mapped, Over, KeepsLeaf, Spans, ByteAt, BlocksFor, Capacity, BlockOf, Within;
    var E := node.fs.L.entries;
    RestFacts(E, node.fs.disk.blocks, node.cache.View(), node.inode, node.shape, k);
    var block: Block;
    ok, block := node.fs.ReadBlock(b);
    if !ok {
      return false, [];
    }
    var chunk := BlockSize(E) - r;
    if chunk > remaining {
      chunk := remaining;
    }
    more := block[r..r + chunk];
    forall i | 0 <= i < chunk ensures more[i] == FileBytes(node)[p + i] {
      PositionIn(E, p + i, k, r, chunk);
      ByteHere(node.fs.L, node.fs.disk.blocks, node.inode, p + i, k);
    }
  }

  lemma ByteHere(L: Layout, blocks: seq<Block>, ino: Inode, p: nat, k: nat)
    requires k == BlockOf(L.entries, p) && k < Capacity(L.entries)
    requires 0 < BlockNo(L, blocks, ino, k) < |blocks| && |blocks[BlockNo(L, blocks, ino, k)]| == BlockSize(L.entries)
    ensures ByteAt(L.entries, blocks, ino, p) == blocks[BlockNo(L, blocks, ino, k)][Within(L.entries, p)]
  {
  }

  /** One round of the read loop at file position p. */
  method ReadNext(node: Vnode, p: nat, remaining: nat) returns (ok: bool, more: seq<byte>)
    requires Open(node) && 0 < remaining && p + remaining <= node.inode.size
    modifies node.cache, node.fs`failed
    ensures ok ==> Open(node) && node.fs.failed == old(node.fs.failed)
    ensures ok ==> 0 < |more| <= remaining && more == FileBytes(node)[p..p + |more|]
    ensures !ok ==> node.fs.failed
  {
    hide Open, Consistent, Mapped, Over, KeepsLeaf, Spans, BlockNo, ByteAt, BlockOf, Within, BlocksFor, Capacity, FileBytes;
    var E := node.fs.L.entries;
    var k, r := BlockOf(E, p), Within(E, p);
    InFile(E, p, node.inode.size);
    OpenShape(node);
    var b: u32;
    ok, b := FindBlock(node, k);
    if !ok {
      return false, [];
    }
    if r == 0 && remaining >= BlockSize(E) {
      var maxBlocks := Quotient(remaining, BlockSize(E));
      if maxBlocks > EXT2_MAX_READ_RUN_BLOCKS {
        maxBlocks := EXT2_MAX_READ_RUN_BLOCKS;
      }
      MaxBlocksFit(E, remaining, maxBlocks);
      ok, more := ReadWhole(node, p, k, b, maxBlocks, remaining);
    } else {
      ok, more := ReadPart(node, p, k, r, b, remaining);
    }
  }

  lemma MaxBlocksFit(E: pos, remaining: nat, m: nat)
    requires remaining >= BlockSize(E)
    requires m == if Quotient(remaining, BlockSize(E)) > EXT2_MAX_READ_RUN_BLOCKS then EXT2_MAX_READ_RUN_BLOCKS else Quotient(remaining, BlockSize(E))
    ensures 1 <= m && FilePos(E, m, 0) <= remaining
  {
    var q := Quotient(remaining, BlockSize(E));
    if m < q {
      MulLess(m, q, BlockSize(E));
    }
  }

  /** ext2_read_file_cached. However the blocks lie on the device and wherever
      a run is cut, it returns the requested stretch of the file. */
  method Read(node: Vnode, offset: nat, length: nat) returns (ok: bool, data: seq<byte>)
    requires Open(node)
    modifies node.cache, node.fs`failed
    ensures ok ==> Open(node) && FileBytes(node) == old(FileBytes(node))
    ensures ok ==> data == Stretch(old(FileBytes(node)), offset, length)
    ensures ok ==>
              var all := old(FileBytes(node));
              data == if offset >= |all| then [] else if offset + length <= |all| then all[offset..offset + length] else all[offset..]
    ensures !ok ==> node.fs.failed
  {
    hide Consistent, Mapped, Over, KeepsLeaf, Spans, BlockNo, ByteAt, BlockOf, Within, BlocksFor, Capacity;
    var E := node.fs.L.entries;
    ghost var bytes := FileBytes(node);
    if offset >= node.inode.size {
      return true, [];
    }
    var available := node.inode.size - offset;
    var wanted := if length < available then length else available;
    data := [];
    while |data| < wanted
      invariant |data| <= wanted && Open(node) && node.fs.failed == old(node.fs.failed)
      invariant data == bytes[offset..offset + |data|]
    {
      var more: seq<byte>;
      ok, more := ReadNext(node, offset + |data|, wanted - |data|);
      if !ok {
        return;
      }
      Appended(bytes, offset, data, more);
      data := data + more;
    }
    return true, data;
  }
}
