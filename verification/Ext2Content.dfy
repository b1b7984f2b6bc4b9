/** What a file contains, and which other files a change can reach. */
module Ext2Content {
  import opened Machine
  import opened Arithmetic
  import opened Ext2Blocks
  import opened Ext2Tree
  import opened Ext2Bitmap
  import opened Ext2Cache
  import opened Ext2Grow

  function BlockSize(E: pos): pos {
    4 * E
  }

  /** Data blocks of a hole-free file of this size. */
  function BlocksFor(E: pos, size: nat): nat {
    (size + BlockSize(E) - 1) / BlockSize(E)
  }

  lemma BlocksForExact(E: pos, size: nat, n: nat)
    ensures BlocksFor(E, size) <= n <==> size <= n * BlockSize(E)
  {
    var B := BlockSize(E);
    DivMod(B, size + B - 1);
    var q := BlocksFor(E, size);
    if q <= n {
      if q < n {
        MulLess(q, n, B);
      }
    } else {
      MulLess(n, q, B);
    }
  }

  /** The logical block that position p is in. */
  function BlockOf(E: pos, p: nat): (k: nat)
    ensures k * BlockSize(E) <= p < k * BlockSize(E) + BlockSize(E)
  {
    Quotient(p, BlockSize(E))
  }

  /** The offset of position p within its block. */
  function Within(E: pos, p: nat): (r: nat)
    ensures r < BlockSize(E) && p == BlockOf(E, p) * BlockSize(E) + r
  {
    p - BlockOf(E, p) * BlockSize(E)
  }

  /** The position of offset r of logical block k. */
  function FilePos(E: pos, k: nat, r: nat): nat {
    k * BlockSize(E) + r
  }

  /** The byte at position p of the file. */
  function ByteAt(E: pos, e: seq<Block>, ino: Inode, p: nat): byte {
    if BlockOf(E, p) >= Capacity(E) then 0
    else Fetch(e, At(e, ino, SlotOf(E, BlockOf(E, p))), Within(E, p))
  }

  function Fetch(e: seq<Block>, b: nat, r: nat): byte {
    if b == 0 || b >= |e| || r >= |e[b]| then 0 else e[b][r]
  }

  function Contents(E: pos, e: seq<Block>, ino: Inode): (s: seq<byte>)
    ensures |s| == ino.size
    ensures forall p :: 0 <= p < ino.size ==> s[p] == ByteAt(E, e, ino, p)
  {
    seq(ino.size, p requires 0 <= p < ino.size => ByteAt(E, e, ino, p))
  }

  /** s with data written over it from offset on, longer if need be. */
  function Spliced(s: seq<byte>, offset: nat, data: seq<byte>): seq<byte>
    requires offset <= |s|
  {
    s[..offset] + data + if offset + |data| <= |s| then s[offset + |data|..] else []
  }

  /** Like Grew, but data blocks of the file may have been rewritten too. */
  ghost predicate Rewrote(E: pos, meta: set<nat>, o: seq<Block>, ino: Inode, sh: Shape, used: set<nat>,
                          o': seq<Block>, ino': Inode, sh': Shape, used': set<nat>) {
    && Tree(E, o', ino', sh') && |o'| == |o|
    && (forall s :: Live(E, sh, s) ==> Live(E, sh', s) && At(o', ino', s) == At(o, ino, s))
    && (forall s :: Live(E, sh', s) && !Live(E, sh, s) ==> At(o', ino', s) !in used)
    && (forall x :: x in used' <==> x in used || (exists s :: Live(E, sh', s) && !Live(E, sh, s) && At(o', ino', s) == x))
    && (forall x :: 0 <= x < |o| && x !in meta && !Owns(E, o', ino', sh', x) ==> o'[x] == o[x])
    && ino'.(block := ino.block, sectors := ino.sectors) == ino
    && ino'.sectors + SectorsPerBlock(E) * Blocks(sh) == ino.sectors + SectorsPerBlock(E) * Blocks(sh')
  }

  ghost predicate Wrote(L: Layout, st: State, st': State) {
    && Rewrote(L.entries, L.meta, Seen(st), st.ino, st.sh, UsedNow(L, st), Seen(st'), st'.ino, st'.sh, UsedNow(L, st'))
    && st'.d.inodes == st.d.inodes && st'.d.free == st.d.free
    && st'.free + st'.taken == st.free + st.taken
  }

  lemma AdvancedWrote(L: Layout, st: State, st': State)
    requires Advanced(L, st, st')
    ensures Wrote(L, st, st')
  {
    var E := L.entries;
    assert forall x :: OwnsTable(E, Seen(st'), st'.ino, st'.sh, x) ==> Owns(E, Seen(st'), st'.ino, st'.sh, x);
  }

  lemma RewroteTwice(E: pos, meta: set<nat>, o: seq<Block>, ino: Inode, sh: Shape, used: set<nat>,
                     o1: seq<Block>, ino1: Inode, sh1: Shape, used1: set<nat>,
                     o2: seq<Block>, ino2: Inode, sh2: Shape, used2: set<nat>)
    requires Rewrote(E, meta, o, ino, sh, used, o1, ino1, sh1, used1)
    requires Rewrote(E, meta, o1, ino1, sh1, used1, o2, ino2, sh2, used2)
    ensures Rewrote(E, meta, o, ino, sh, used, o2, ino2, sh2, used2)
  {
    hide Tree, SectorsPerBlock, Blocks;
    forall x | Owns(E, o1, ino1, sh1, x) ensures Owns(E, o2, ino2, sh2, x) {
      var s :| Live(E, sh1, s) && At(o1, ino1, s) == x;
      assert Live(E, sh2, s) && At(o2, ino2, s) == x;
    }
    forall x | x in used2 ensures x in used || exists s :: Live(E, sh2, s) && !Live(E, sh, s) && At(o2, ino2, s) == x {
      if x !in used {
        if x in used1 {
          var s :| Live(E, sh1, s) && !Live(E, sh, s) && At(o1, ino1, s) == x;
          assert Live(E, sh2, s) && At(o2, ino2, s) == x;
        } else {
          var s :| Live(E, sh2, s) && !Live(E, sh1, s) && At(o2, ino2, s) == x;
          assert !Live(E, sh, s);
        }
      }
    }
    forall x | x in used || exists s :: Live(E, sh2, s) && !Live(E, sh, s) && At(o2, ino2, s) == x ensures x in used2 {
      if x !in used {
        var s :| Live(E, sh2, s) && !Live(E, sh, s) && At(o2, ino2, s) == x;
        if Live(E, sh1, s) {
          assert At(o1, ino1, s) == x;
        }
      }
    }
    forall s | Live(E, sh2, s) && !Live(E, sh, s) ensures At(o2, ino2, s) !in used {
      if Live(E, sh1, s) {
        assert At(o2, ino2, s) == At(o1, ino1, s);
      }
    }
  }

  lemma WroteTwice(L: Layout, st: State, st1: State, st2: State)
    requires Wrote(L, st, st1) && Wrote(L, st1, st2)
    ensures Wrote(L, st, st2)
  {
    hide Rewrote, UsedNow, Seen;
    RewroteTwice(L.entries, L.meta, Seen(st), st.ino, st.sh, UsedNow(L, st), Seen(st1), st1.ino, st1.sh, UsedNow(L, st1),
                 Seen(st2), st2.ino, st2.sh, UsedNow(L, st2));
  }

  /** Growing a file leaves the bytes of the blocks it had. */
  lemma AdvancedBytes(L: Layout, st: State, st': State, p: nat)
    requires Busy(L, st) && Advanced(L, st, st') && BlockOf(L.entries, p) < st.sh.n
    ensures ByteAt(L.entries, Seen(st'), st'.ino, p) == ByteAt(L.entries, Seen(st), st.ino, p)
  {
    hide BlockOf, Within, HeldOk, InUse, Overlaid, Over, CacheOk, SizedBlocks;
    var E, k := L.entries, BlockOf(L.entries, p);
    BusyFacts(L, st);
    SlotIndex(E, k);
    var s := SlotOf(E, k);
    assert Live(E, st.sh, s);
    var b := At(Seen(st), st.ino, s);
    DataBlock(E, Seen(st'), st'.ino, st'.sh, s);
  }

  /** A data block is not a table. */
  lemma DataBlock(E: pos, e: seq<Block>, ino: Inode, sh: Shape, s: Slot)
    requires Tree(E, e, ino, sh) && Live(E, sh, s) && !IsTable(s)
    ensures !OwnsTable(E, e, ino, sh, At(e, ino, s)) && 0 < At(e, ino, s) < |e|
  {
  }

  /** The block of the volume that holds logical block k. */
  function Phys(L: Layout, st: State, k: nat): u32 {
    At(Seen(st), st.ino, SlotOf(L.entries, k))
  }

  function BlockAt(bs: seq<Block>, b: nat): Block {
    if b < |bs| then bs[b] else []
  }

  /** The state after block b of the device is written. */
  function WithBlock(st: State, b: nat, blk: Block): State {
    if b < |st.d.blocks| then st.(d := st.d.(blocks := st.d.blocks[b := blk])) else st
  }

  /** st' is st with logical block k rewritten. */
  ghost predicate Replaced(L: Layout, st: State, k: nat, blk: Block, st': State) {
    && st' == WithBlock(st, Phys(L, st, k), blk)
    && Phys(L, st, k) < |Seen(st)|
    && Seen(st') == Seen(st)[Phys(L, st, k) := blk]
    && (forall s :: InTree(L.entries, s) ==> At(Seen(st'), st'.ino, s) == At(Seen(st), st.ino, s))
  }

  /** Where logical block k lives. */
  lemma DataPlace(L: Layout, st: State, k: nat)
    requires Busy(L, st) && k < st.sh.n
    ensures k < Capacity(L.entries) && InTree(L.entries, SlotOf(L.entries, k)) && Live(L.entries, st.sh, SlotOf(L.entries, k))
    ensures 0 < Phys(L, st, k) < |st.d.blocks| == |Seen(st)| && Phys(L, st, k) !in L.meta && SizedBlocks(L.entries, Seen(st))
    ensures !OwnsTable(L.entries, Seen(st), st.ino, st.sh, Phys(L, st, k))
    ensures forall v :: Get(st.c, v).valid ==> Get(st.c, v).number != Phys(L, st, k)
  {
    hide HeldOk, InUse, Overlaid, Encode, Decode, Word, SlotOf, LeavesFor, Blocks;
    var E := L.entries;
    BusyFacts(L, st);
    SlotIndex(E, k);
    assert Live(E, st.sh, SlotOf(E, k));
    OverAt(E, st.d.blocks, st.c, st.ino, st.sh);
    DataBlock(E, Seen(st), st.ino, st.sh, SlotOf(E, k));
    CachedSlots(E, st.d.blocks, st.c, st.ino, st.sh);
  }

  /** A block that is no pointer table and no metadata may be overwritten
      without disturbing tree, cache and allocator. */
  lemma BlockReplaced(L: Layout, st: State, b: nat, blk: Block)
    requires Busy(L, st) && b < |st.d.blocks| == |Seen(st)| && |blk| == BlockSize(L.entries) && b !in L.meta && SizedBlocks(L.entries, Seen(st))
    requires !OwnsTable(L.entries, Seen(st), st.ino, st.sh, b)
    requires forall v :: Get(st.c, v).valid ==> Get(st.c, v).number != b
    ensures Busy(L, WithBlock(st, b, blk)) && UsedNow(L, WithBlock(st, b, blk)) == UsedNow(L, st)
    ensures Seen(WithBlock(st, b, blk)) == Seen(st)[b := blk] && Tree(L.entries, Seen(st)[b := blk], st.ino, st.sh)
    ensures forall s :: InTree(L.entries, s) ==> At(Seen(st)[b := blk], st.ino, s) == At(Seen(st), st.ino, s)
  {
    hide HeldOk, InUse, Overlaid, CacheOk, Over, Encode, Decode, Word, Capacity, LeavesFor, At;
    OverWrite(L.entries, st.d.blocks, st.c, st.ino, st.sh, b, blk);
    DataWrite(L, st.d, st.free, st.h, b, blk);
    TreeFrame(L.entries, Seen(st), Seen(st)[b := blk], st.ino, st.sh);
  }

  /** Overwriting logical block k. */
  lemma DataWritten(L: Layout, st: State, k: nat, blk: Block)
    requires Busy(L, st) && k < st.sh.n && |blk| == BlockSize(L.entries)
    ensures k < Capacity(L.entries) && 0 < Phys(L, st, k) < |st.d.blocks|
    ensures Busy(L, WithBlock(st, Phys(L, st, k), blk)) && Wrote(L, st, WithBlock(st, Phys(L, st, k), blk))
    ensures Replaced(L, st, k, blk, WithBlock(st, Phys(L, st, k), blk))
  {
    hide Busy, Seen, UsedNow, At, Tree, SlotOf, Capacity, SizedBlocks, Blocks, SectorsPerBlock;
    var b := Phys(L, st, k);
    DataPlace(L, st, k);
    BlockReplaced(L, st, b, blk);
    assert Owns(L.entries, Seen(st)[b := blk], st.ino, st.sh, b);
  }

  lemma WrittenBytes(L: Layout, st: State, k: nat, blk: Block, st': State, p: nat)
    requires Busy(L, st) && k < st.sh.n && |blk| == BlockSize(L.entries) && Replaced(L, st, k, blk, st')
    requires BlockOf(L.entries, p) < st.sh.n
    ensures ByteAt(L.entries, Seen(st'), st'.ino, p)
            == if BlockOf(L.entries, p) == k then blk[Within(L.entries, p)] else ByteAt(L.entries, Seen(st), st.ino, p)
  {
    hide HeldOk, InUse, Overlaid, BlockOf, Within, Over, CacheOk;
    var E, j := L.entries, BlockOf(L.entries, p);
    BusyFacts(L, st);
    SlotIndex(E, k);
    SlotIndex(E, j);
    var s, t := SlotOf(E, k), SlotOf(E, j);
    assert Live(E, st.sh, s) && Live(E, st.sh, t);
    if j != k {
      assert s != t;
      assert At(Seen(st), st.ino, s) != At(Seen(st), st.ino, t);
    }
  }
}
