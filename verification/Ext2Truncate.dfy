/** ext2_vnode_truncate: giving back every block of a file. */
module Ext2Truncate {
  import opened Machine
  import opened Ext2Blocks
  import opened Ext2Tree
  import opened Ext2Bitmap
  import opened Ext2Cache
  import opened Ext2Grow
  import opened Ext2Volume
  import opened Ext2Map
  import opened Ext2Content
  import opened Ext2Consistent
  import opened Ext2File

  /* ---------- counting the slots of a shape ---------- */

  function DataSlots(E: pos, n: nat): (r: set<Slot>)
    requires n <= Capacity(E)
    ensures |r| == n
    ensures forall s :: s in r <==> !IsTable(s) && InTree(E, s) && Index(E, s) < n
  {
    if n == 0 then {}
    else
      SlotIndex(E, n - 1);
      assert forall s :: !IsTable(s) && InTree(E, s) && Index(E, s) == n - 1 ==> s == SlotOf(E, n - 1) by {
        forall s | !IsTable(s) && InTree(E, s) && Index(E, s) == n - 1 ensures s == SlotOf(E, n - 1) {
          IndexInjective(E, s, SlotOf(E, n - 1));
        }
      }
      DataSlots(E, n - 1) + {SlotOf(E, n - 1)}
  }

  function LeafSlots(m: nat): (r: set<Slot>)
    ensures |r| == m
    ensures forall s :: s in r <==> s.Leaf? && s.j < m
  {
    if m == 0 then {} else LeafSlots(m - 1) + {Leaf(m - 1)}
  }

  function TopSlots(sh: Shape): (r: set<Slot>)
    ensures |r| == (if sh.single then 1 else 0) + (if sh.root then 1 else 0)
    ensures forall s :: s in r <==> (s.Single? && sh.single) || (s.Root? && sh.root)
  {
    (if sh.single then {Single} else {}) + (if sh.root then {Root} else {})
  }

  /** The filled slots of a shape, as a set. */
  function LiveSlots(E: pos, sh: Shape): (r: set<Slot>)
    requires sh.n <= Capacity(E) && sh.leaves <= E
    ensures |r| == Blocks(sh)
    ensures forall s :: s in r <==> Live(E, sh, s)
  {
    hide DataSlots, LeafSlots, TopSlots, Capacity, Index;
    var data, leaves, top := DataSlots(E, sh.n), LeafSlots(sh.leaves), TopSlots(sh);
    assert data !! leaves && data + leaves !! top;
    assert |data + leaves| == sh.n + sh.leaves;
    data + leaves + top
  }

  /* ---------- releasing slot by slot ---------- */

  /** What a truncation starts from. */
  datatype Origin = Origin(d: Disk, free: nat, ino: Inode, sh: Shape)

  ghost function Owned(o: Origin, slots: set<Slot>): set<nat> {
    set s | s in slots :: At(o.d.blocks, o.ino, s) as nat
  }

  /** Exactly the blocks of these slots have been given back. */
  ghost predicate Freeing(L: Layout, o: Origin, slots: set<Slot>, d: Disk, free: nat) {
    && FileOk(L, o.d.blocks, o.ino, Used(L, o.d.blocks, o.d.descs)) && o.sh == Spans(L, o.ino)
    && CountsOk(L, d.blocks, d.descs, free)
    && SameData(L, o.d, d.(free := o.d.free))
    && (forall s :: s in slots ==> Live(L.entries, o.sh, s))
    && Used(L, d.blocks, d.descs) == Used(L, o.d.blocks, o.d.descs) - Owned(o, slots)
    && free == o.free + |slots|
    && d.free == free
  }

  lemma SlotNext(L: Layout, o: Origin, slots: set<Slot>, d: Disk, free: nat, s: Slot)
    requires Freeing(L, o, slots, d, free) && Live(L.entries, o.sh, s) && s !in slots
    ensures At(o.d.blocks, o.ino, s) in Used(L, d.blocks, d.descs) && At(o.d.blocks, o.ino, s) !in L.meta && At(o.d.blocks, o.ino, s) != 0
  {
    hide CountsOk, Used;
  }

  lemma SlotFreed(L: Layout, o: Origin, slots: set<Slot>, d: Disk, free: nat, s: Slot, d': Disk, free': nat)
    requires Freeing(L, o, slots, d, free) && Live(L.entries, o.sh, s) && s !in slots
    requires Freed(L, d, free, d', free', At(o.d.blocks, o.ino, s))
    ensures Freeing(L, o, slots + {s}, d', free')
  {
    hide CountsOk, Used, FileOk, GroupsOk, DescriptorsOk, SumFree, MetaUsed, At, Spans;
    SlotNext(L, o, slots, d, free, s);
    FreedCounts(L, d, free, d', free', At(o.d.blocks, o.ino, s));
    assert Owned(o, slots + {s}) == Owned(o, slots) + {At(o.d.blocks, o.ino, s) as nat};
  }

  /** ext2_free_block on the block of slot s. */
  method FreeSlot(fs: Volume, ghost o: Origin, ghost slots: set<Slot>, ghost s: Slot, number: u32) returns (ok: bool)
    requires Freeing(fs.L, o, slots, fs.disk, fs.free) && Live(fs.L.entries, o.sh, s) && s !in slots
    requires number == At(o.d.blocks, o.ino, s)
    modifies fs
    ensures ok ==> Freeing(fs.L, o, slots + {s}, fs.disk, fs.free) && fs.failed == old(fs.failed)
    ensures !ok ==> fs.failed
  {
    hide CountsOk, Used, FileOk, Freed, Live;
    ghost var d, free := fs.disk, fs.free;
    SlotNext(fs.L, o, slots, fs.disk, fs.free, s);
    ok := fs.FreeBlock(number);
    if ok {
      SlotFreed(fs.L, o, slots, d, free, s, fs.disk, fs.free);
    }
  }

  /** A data block or a table still reads as it did before anything was freed. */
  lemma StillThere(L: Layout, o: Origin, slots: set<Slot>, d: Disk, free: nat, s: Slot)
    requires Freeing(L, o, slots, d, free) && Live(L.entries, o.sh, s)
    ensures 0 < At(o.d.blocks, o.ino, s) < |d.blocks| && d.blocks[At(o.d.blocks, o.ino, s)] == o.d.blocks[At(o.d.blocks, o.ino, s)]
    ensures |Decode(d.blocks[At(o.d.blocks, o.ino, s)])| == L.entries
  {
  }

  lemma EntryOf(L: Layout, o: Origin, slots: set<Slot>, d: Disk, free: nat, s: Slot)
    requires Freeing(L, o, slots, d, free) && InTree(L.entries, s) && (s.SEntry? || s.Leaf? || s.LEntry?)
    requires Live(L.entries, o.sh, Parent(s))
    ensures At(o.d.blocks, o.ino, Parent(s)) < |d.blocks| && Position(s) < |Decode(d.blocks[At(o.d.blocks, o.ino, Parent(s))])|
    ensures Decode(d.blocks[At(o.d.blocks, o.ino, Parent(s))])[Position(s)] == At(o.d.blocks, o.ino, s)
    ensures At(o.d.blocks, o.ino, s) != 0 <==> Live(L.entries, o.sh, s)
  {
    StillThere(L, o, slots, d, free, Parent(s));
  }

  lemma RootSlots(L: Layout, o: Origin, slots: set<Slot>, d: Disk, free: nat)
    requires Freeing(L, o, slots, d, free)
    ensures forall i :: 0 <= i < 12 ==> (o.ino.block[i] != 0 <==> Live(L.entries, o.sh, Direct(i))) && o.ino.block[i] == At(o.d.blocks, o.ino, Direct(i))
    ensures o.ino.block[12] == At(o.d.blocks, o.ino, Single) && (o.ino.block[12] != 0 <==> Live(L.entries, o.sh, Single))
    ensures o.ino.block[13] == At(o.d.blocks, o.ino, Root) && (o.ino.block[13] != 0 <==> Live(L.entries, o.sh, Root))
  {
    forall i | 0 <= i < 12 ensures o.ino.block[i] != 0 <==> Live(L.entries, o.sh, Direct(i)) {
      assert At(o.d.blocks, o.ino, Direct(i)) != 0 <==> Live(L.entries, o.sh, Direct(i));
    }
    assert At(o.d.blocks, o.ino, Single) != 0 <==> Live(L.entries, o.sh, Single);
    assert At(o.d.blocks, o.ino, Root) != 0 <==> Live(L.entries, o.sh, Root);
  }

  /** The twelve direct blocks. */
  method FreeDirect(node: Vnode, ghost o: Origin) returns (ok: bool, ghost slots: set<Slot>)
    requires Freeing(node.fs.L, o, {}, node.fs.disk, node.fs.free) && node.inode == o.ino
    modifies node`inode, node.fs
    ensures ok ==> Freeing(node.fs.L, o, slots, node.fs.disk, node.fs.free) && node.fs.failed == old(node.fs.failed)
    ensures ok ==> forall s :: s in slots <==> s.Direct? && Live(node.fs.L.entries, o.sh, s)
    ensures ok ==> node.inode == o.ino.(block := node.inode.block) && forall j :: 12 <= j < 15 ==> node.inode.block[j] == o.ino.block[j]
    ensures ok ==> forall i :: 0 <= i < 12 ==> node.inode.block[i] == 0
    ensures !ok ==> node.fs.failed
  {
    hide Freeing, Live, At;
    slots := {};
    var i := 0;
    RootSlots(node.fs.L, o, slots, node.fs.disk, node.fs.free);
    while i < 12
      invariant 0 <= i <= 12
      invariant Freeing(node.fs.L, o, slots, node.fs.disk, node.fs.free) && node.fs.failed == old(node.fs.failed)
      invariant forall s :: s in slots <==> s.Direct? && s.i < i && Live(node.fs.L.entries, o.sh, s)
      invariant node.inode == o.ino.(block := node.inode.block) && forall j :: i <= j < 15 ==> node.inode.block[j] == o.ino.block[j]
      invariant forall j :: 0 <= j < i ==> node.inode.block[j] == 0
    {
      var number := node.inode.block[i];
      assert number == o.ino.block[i];
      if number != 0 {
        ok := FreeSlot(node.fs, o, slots, Direct(i), number);
        if !ok {
          return;
        }
        slots := slots + {Direct(i)};
        node.inode := node.inode.(block := node.inode.block[i := 0]);
      }
      i := i + 1;
    }
    LiveInTree(node.fs.L.entries, o.sh);
    ok := true;
  }

  /** The blocks listed in the table of slot t (the single-indirect table or a
      leaf), then the table itself. */
  method FreeTable(fs: Volume, ghost o: Origin, ghost before: set<Slot>, ghost t: Slot, number: u32) returns (ok: bool, ghost slots: set<Slot>)
    requires Freeing(fs.L, o, before, fs.disk, fs.free) && (t.Single? || t.Leaf?) && Live(fs.L.entries, o.sh, t)
    requires number == At(o.d.blocks, o.ino, t) && t !in before
    requires forall s :: s in before ==> !(s.SEntry? || s.LEntry?) || Parent(s) != t
    modifies fs
    ensures ok ==> Freeing(fs.L, o, slots, fs.disk, fs.free) && fs.failed == old(fs.failed)
    ensures ok ==> forall s :: s in slots <==> s in before || s == t || ((s.SEntry? || s.LEntry?) && Parent(s) == t && Live(fs.L.entries, o.sh, s))
    ensures !ok ==> fs.failed
  {
    hide Freeing, Live, At, Decode;
    slots := before;
    var block: Block;
    StillThere(fs.L, o, slots, fs.disk, fs.free, t);
    ok, block := fs.ReadBlock(number);
    if !ok {
      return;
    }
    var entries := Decode(block);
    ghost var d1, free1 := fs.disk, fs.free;
    var i := 0;
    while i < fs.L.entries
      invariant 0 <= i <= fs.L.entries
      invariant Freeing(fs.L, o, slots, fs.disk, fs.free) && fs.failed == old(fs.failed)
      invariant forall s :: s in slots <==> s in before || ((s.SEntry? || s.LEntry?) && Parent(s) == t && s.i < i && Live(fs.L.entries, o.sh, s))
    {
      ghost var s := if t.Single? then SEntry(i) else LEntry(t.j, i);
      TableInTree(fs.L.entries, o.sh, t, i);
      EntryOf(fs.L, o, before, d1, free1, s);
      if entries[i] != 0 {
        ok := FreeSlot(fs, o, slots, s, entries[i]);
        if !ok {
          return;
        }
        slots := slots + {s};
      }
      i := i + 1;
    }
    ok := FreeSlot(fs, o, slots, t, number);
    slots := slots + {t};
    LiveInTree(fs.L.entries, o.sh);
  }

  lemma TableInTree(E: pos, sh: Shape, t: Slot, i: nat)
    requires Live(E, sh, t) && (t.Single? || t.Leaf?) && i < E
    ensures InTree(E, if t.Single? then SEntry(i) else LEntry(t.j, i))
  {
  }

  lemma LiveInTree(E: pos, sh: Shape)
    ensures forall s :: Live(E, sh, s) ==> InTree(E, s)
  {
  }

  /** The leaf tables under the double-indirect root, then the root. */
  method FreeDouble(fs: Volume, ghost o: Origin, ghost before: set<Slot>, number: u32) returns (ok: bool, ghost slots: set<Slot>)
    requires Freeing(fs.L, o, before, fs.disk, fs.free) && Live(fs.L.entries, o.sh, Root)
    requires number == At(o.d.blocks, o.ino, Root)
    requires forall s :: s in before ==> s.Direct? || s.Single? || s.SEntry?
    modifies fs
    ensures ok ==> Freeing(fs.L, o, slots, fs.disk, fs.free) && fs.failed == old(fs.failed)
    ensures ok ==> forall s :: s in slots <==> s in before || ((s.Root? || s.Leaf? || s.LEntry?) && Live(fs.L.entries, o.sh, s))
    ensures !ok ==> fs.failed
  {
    hide Freeing, Live, At, Decode;
    slots := before;
    var block: Block;
    StillThere(fs.L, o, slots, fs.disk, fs.free, Root);
    LiveInTree(fs.L.entries, o.sh);
    ok, block := fs.ReadBlock(number);
    if !ok {
      return;
    }
    var roots := Decode(block);
    ghost var d1, free1 := fs.disk, fs.free;
    LeafEntriesLive(fs.L, o, before, d1, free1);
    var j := 0;
    while j < fs.L.entries
      invariant 0 <= j <= fs.L.entries
      invariant Freeing(fs.L, o, slots, fs.disk, fs.free) && fs.failed == old(fs.failed)
      invariant forall s :: s in slots <==> s in before || ((s.Leaf? || s.LEntry?) && s.j < j && Live(fs.L.entries, o.sh, s))
    {
      EntryOf(fs.L, o, before, d1, free1, Leaf(j));
      if roots[j] != 0 {
        ok, slots := FreeTable(fs, o, slots, Leaf(j), roots[j]);
        if !ok {
          return;
        }
      }
      j := j + 1;
    }
    ok := FreeSlot(fs, o, slots, Root, number);
    slots := slots + {Root};
  }

  /** An entry is live only when its table is. */
  lemma LiveParents(E: pos, sh: Shape)
    requires ShapeOk(E, sh)
    ensures forall s: Slot :: s.LEntry? && Live(E, sh, s) ==> Live(E, sh, Leaf(s.j)) && Live(E, sh, Root)
    ensures forall s: Slot :: s.SEntry? && Live(E, sh, s) ==> Live(E, sh, Single)
    ensures forall s: Slot :: s.Leaf? && Live(E, sh, s) ==> Live(E, sh, Root)
  {
    forall s: Slot | s.LEntry? && Live(E, sh, s) ensures Live(E, sh, Leaf(s.j)) {
      assert LeafBase(E, s.j) < sh.n;
    }
  }

  lemma LeafEntriesLive(L: Layout, o: Origin, slots: set<Slot>, d: Disk, free: nat)
    requires Freeing(L, o, slots, d, free)
    ensures forall s: Slot :: s.LEntry? && Live(L.entries, o.sh, s) ==> Live(L.entries, o.sh, Leaf(s.j)) && Live(L.entries, o.sh, Root)
    ensures forall s: Slot :: s.SEntry? && Live(L.entries, o.sh, s) ==> Live(L.entries, o.sh, Single)
    ensures forall s: Slot :: s.Leaf? && Live(L.entries, o.sh, s) ==> Live(L.entries, o.sh, Root)
  {
    hide Live, CountsOk, Used, SameData, ShapeOk;
    LiveParents(L.entries, o.sh);
  }

  /* ---------- the whole truncation ---------- */

  /** d' is d with file number i emptied and its blocks given back. */
  ghost predicate Emptied(L: Layout, d: Disk, d': Disk, i: nat, ino: Inode, ino': Inode) {
    && i < |d.inodes| && d.inodes[i] == ino && d'.inodes == d.inodes[i := ino']
    && CountsOk(L, d'.blocks, d'.descs, d'.free)
    && ino'.kind.Regular? && ino'.size == 0 && ino'.sectors == 0 && (forall k :: 0 <= k < 14 ==> ino'.block[k] == 0)
    && |d'.blocks| == |d.blocks| && (forall x :: 0 <= x < |d.blocks| && x !in L.meta ==> d'.blocks[x] == d.blocks[x])
    && Used(L, d'.blocks, d'.descs) == Used(L, d.blocks, d.descs) - (set s | s in LiveOf(L, ino) :: At(d.blocks, ino, s) as nat)
  }

  ghost function LiveOf(L: Layout, ino: Inode): set<Slot> {
    var sh := Spans(L, ino);
    if sh.n <= Capacity(L.entries) && sh.leaves <= L.entries then LiveSlots(L.entries, sh) else {}
  }

  lemma EmptyTree(L: Layout, blocks: seq<Block>, ino: Inode, used: set<nat>)
    requires SizedBlocks(L.entries, blocks) && ino.kind.Regular? && ino.size == 0 && ino.sectors == 0
    requires forall k :: 0 <= k < 14 ==> ino.block[k] == 0
    ensures FileOk(L, blocks, ino, used) && Contents(L.entries, blocks, ino) == []
    ensures forall s :: !Live(L.entries, Spans(L, ino), s)
  {
    var E := L.entries;
    BlocksForExact(E, 0, 0);
    assert Spans(L, ino) == Shape(0, false, false, 0);
    forall s | InTree(E, s) ensures At(blocks, ino, s) == 0 && !Live(E, Spans(L, ino), s) {
    }
    assert Blocks(Spans(L, ino)) == 0;
  }

  lemma KeptAfterEmptying(L: Layout, d: Disk, d': Disk, i: nat, ino: Inode, ino': Inode, other: Inode)
    requires Emptied(L, d, d', i, ino, ino') && FileOk(L, d.blocks, ino, Used(L, d.blocks, d.descs))
    requires FileOk(L, d.blocks, other, Used(L, d.blocks, d.descs)) && Separate(L, d.blocks, other, ino)
    ensures FileOk(L, d'.blocks, other, Used(L, d'.blocks, d'.descs)) && Kept(L, d.blocks, d'.blocks, other)
    ensures forall s :: InTree(L.entries, s) ==> At(d'.blocks, other, s) == At(d.blocks, other, s)
  {
    hide Used, CountsOk, Canon, BlocksFor, Blocks, SectorsPerBlock, LiveSlots;
    SizedFrom(L, d');
    assert Used(L, d'.blocks, d'.descs) <= Used(L, d.blocks, d.descs);
    forall s | Live(L.entries, Spans(L, other), s)
      ensures At(d.blocks, other, s) in Used(L, d'.blocks, d'.descs)
    {
      assert At(d.blocks, other, s) in Used(L, d.blocks, d.descs);
      LiveOfLive(L, ino);
    }
    Untouched(L, d.blocks, d'.blocks, other, Used(L, d.blocks, d.descs), Used(L, d.blocks, d.descs));
  }

  lemma SizedFrom(L: Layout, d: Disk)
    requires CountsOk(L, d.blocks, d.descs, d.free)
    ensures SizedBlocks(L.entries, d.blocks)
  {
  }

  lemma LiveOfLive(L: Layout, ino: Inode)
    ensures forall s :: s in LiveOf(L, ino) ==> Live(L.entries, Spans(L, ino), s)
  {
  }

  /** Emptying one file keeps the volume consistent and the others intact. */
  lemma OneFileEmptied(L: Layout, d: Disk, d': Disk, i: nat, ino: Inode, ino': Inode)
    requires Consistent(L, d) && Emptied(L, d, d', i, ino, ino') && ino.kind != Unused
    ensures Consistent(L, d')
    ensures forall j :: 0 <= j < |d.inodes| && j != i && d.inodes[j].kind != Unused ==> Kept(L, d.blocks, d'.blocks, d.inodes[j])
  {
    hide FileOk, Kept, Contents, Used, CountsOk, Spans, LiveSlots;
    SizedFrom(L, d');
    EmptyTree(L, d'.blocks, ino', Used(L, d'.blocks, d'.descs));
    forall j | 0 <= j < |d.inodes| && j != i && d.inodes[j].kind != Unused
      ensures FileOk(L, d'.blocks, d.inodes[j], Used(L, d'.blocks, d'.descs))
      ensures Kept(L, d.blocks, d'.blocks, d.inodes[j])
      ensures forall s :: InTree(L.entries, s) ==> At(d'.blocks, d.inodes[j], s) == At(d.blocks, d.inodes[j], s)
    {
      KeptAfterEmptying(L, d, d', i, ino, ino', d.inodes[j]);
    }
    forall j, k | 0 <= j < |d'.inodes| && 0 <= k < |d'.inodes| && j != k && d'.inodes[j].kind != Unused && d'.inodes[k].kind != Unused
      ensures Separate(L, d'.blocks, d'.inodes[j], d'.inodes[k])
    {
      if j != i && k != i {
        StillSeparate(L, d.blocks, d'.blocks, d.inodes[j], d.inodes[k]);
      }
    }
  }

  /** ext2_vnode_truncate to size 0. Every block of the file is given back
      exactly once, so the refusal to free a free block never happens: the only
      failures left are a failed transfer and a triple-indirect pointer. */
  method Truncate(node: Vnode, size: nat) returns (ok: bool)
    requires Open(node)
    modifies node, node.cache, node.fs
    ensures size != 0 ==> !ok && node.fs.disk == old(node.fs.disk)
    ensures ok ==> Open(node) && FileBytes(node) == [] && node.inode.sectors == 0
    ensures ok ==> node.inode.links == old(node.inode.links) && node.inode.block == NO_BLOCKS
    ensures ok ==> Used(node.fs.L, node.fs.disk.blocks, node.fs.disk.descs)
                   == old(Used(node.fs.L, node.fs.disk.blocks, node.fs.disk.descs))
                      - old(set s | s in LiveOf(node.fs.L, node.inode) :: At(node.fs.disk.blocks, node.inode, s) as nat)
    ensures ok ==> node.fs.free == old(node.fs.free) + old(Blocks(Spans(node.fs.L, node.inode)))
    ensures ok ==> SectorsPerBlock(node.fs.L.entries) * (node.fs.free - old(node.fs.free)) == old(node.inode.sectors)
    ensures ok && 4 * node.fs.L.entries % 512 == 0 ==>
              512 * old(node.inode.sectors) == 4 * node.fs.L.entries * (node.fs.free - old(node.fs.free))
    ensures ok ==> OthersKept(node.fs.L, old(node.fs.disk), node.fs.disk, node.number)
    ensures !ok && size == 0 ==> node.fs.failed || old(node.inode.block[14]) != 0
  {
    hide Freeing, Consistent, Mapped, Used, CountsOk, FileOk, Contents, Over, Live, At, LiveOf, Spans, Blocks, Emptied, CacheOk;
    if size != 0 {
      return false;
    }
    var fs := node.fs;
    ghost var o := Origin(fs.disk, fs.free, node.inode, node.shape);
    FreeingStarts(fs.L, o, node.number);
    if 4 * fs.L.entries % 512 == 0 {
      SectorsHoldBlocks(fs.L, fs.disk, node.number);
    }
    ghost var slots: set<Slot>;
    ok, slots := ReleaseBlocks(node, o);
    if !ok {
      return;
    }
    AllFreed(fs.L, o, slots, fs.disk, fs.free, node.number, node.inode.(size := 0, sectors := 0));
    node.inode := node.inode.(size := 0, sectors := 0);
    ok := fs.WriteInode(node.number, node.inode);
    if !ok {
      return;
    }
    node.size := 0;
    node.cache.single, node.cache.root, node.cache.leaf := EMPTY, EMPTY, EMPTY;
    node.shape := Spans(fs.L, node.inode);
    NowOpen(node);
  }

  /** The releasing part of ext2_vnode_truncate: direct blocks, single table,
      double tree. */
  method ReleaseBlocks(node: Vnode, ghost o: Origin) returns (ok: bool, ghost slots: set<Slot>)
    requires Freeing(node.fs.L, o, {}, node.fs.disk, node.fs.free) && node.inode == o.ino
    modifies node`inode, node.fs
    ensures ok ==> Freeing(node.fs.L, o, slots, node.fs.disk, node.fs.free) && forall s :: s in slots <==> Live(node.fs.L.entries, o.sh, s)
    ensures ok ==> node.inode == o.ino.(block := NO_BLOCKS)
    ensures !ok ==> node.fs.failed || o.ino.block[14] != 0
  {
    hide Freeing, Live, At;
    var fs := node.fs;
    ok, slots := FreeDirect(node, o);
    if !ok {
      return;
    }
    RootSlots(fs.L, o, slots, fs.disk, fs.free);
    LeafEntriesLive(fs.L, o, slots, fs.disk, fs.free);
    if node.inode.block[12] != 0 {
      ok, slots := FreeTable(fs, o, slots, Single, node.inode.block[12]);
      if !ok {
        return;
      }
      node.inode := node.inode.(block := node.inode.block[12 := 0]);
    }
    if node.inode.block[13] != 0 {
      ok, slots := FreeDouble(fs, o, slots, node.inode.block[13]);
      if !ok {
        return;
      }
      node.inode := node.inode.(block := node.inode.block[13 := 0]);
    }
    if node.inode.block[14] != 0 {
      return false, slots;
    }
    assert node.inode.block == NO_BLOCKS;
  }

  lemma FreeingStarts(L: Layout, o: Origin, number: nat)
    requires Consistent(L, o.d) && 1 <= number <= |o.d.inodes| && o.ino == o.d.inodes[number - 1] && o.ino.kind.Regular?
    requires o.free == o.d.free && o.sh == Spans(L, o.ino)
    ensures Freeing(L, o, {}, o.d, o.free)
  {
    hide CountsOk, Used, Spans;
    assert Owned(o, {}) == {};
  }

  lemma AllFreed(L: Layout, o: Origin, slots: set<Slot>, d: Disk, free: nat, number: nat, ino': Inode)
    requires Freeing(L, o, slots, d, free) && Consistent(L, o.d) && 1 <= number <= |o.d.inodes| && o.ino == o.d.inodes[number - 1]
    requires o.free == o.d.free && o.ino.kind.Regular?
    requires forall s :: s in slots <==> Live(L.entries, o.sh, s)
    requires ino'.kind.Regular? && ino'.size == 0 && ino'.sectors == 0 && forall k :: 0 <= k < 14 ==> ino'.block[k] == 0
    ensures number <= |d.inodes|
    ensures free == o.free + Blocks(Spans(L, o.ino)) && SectorsPerBlock(L.entries) * (free - o.free) == o.ino.sectors
    ensures Used(L, d.blocks, d.descs) == Used(L, o.d.blocks, o.d.descs) - (set s | s in LiveOf(L, o.ino) :: At(o.d.blocks, o.ino, s) as nat)
    ensures
      var d' := d.(inodes := d.inodes[number - 1 := ino']);
      Consistent(L, d') && d'.free == free && OthersKept(L, o.d, d', number)
  {
    hide CountsOk, Used, Contents, Kept, FilesOk, SectorsPerBlock, Capacity, Canon, LiveOf, FileOk, Blocks;
    var d' := d.(inodes := d.inodes[number - 1 := ino']);
    SlotsAll(L, o, slots, d, free);
    assert d.free == free;
    assert Emptied(L, o.d, d', number - 1, o.ino, ino');
    OneFileEmptied(L, o.d, d', number - 1, o.ino, ino');
  }

  lemma SlotsAll(L: Layout, o: Origin, slots: set<Slot>, d: Disk, free: nat)
    requires Freeing(L, o, slots, d, free) && o.ino.kind.Regular?
    requires forall s :: s in slots <==> Live(L.entries, o.sh, s)
    ensures Owned(o, slots) == (set s | s in LiveOf(L, o.ino) :: At(o.d.blocks, o.ino, s) as nat)
    ensures |slots| == Blocks(Spans(L, o.ino)) && SectorsPerBlock(L.entries) * |slots| == o.ino.sectors
  {
    hide CountsOk, Used, Capacity, Canon, LiveOf, Blocks, SectorsPerBlock, SameData;
    LiveOfAll(L, o);
    assert slots == LiveOf(L, o.ino);
  }

  lemma LiveOfAll(L: Layout, o: Origin)
    requires FileOk(L, o.d.blocks, o.ino, Used(L, o.d.blocks, o.d.descs)) && o.sh == Spans(L, o.ino)
    ensures forall s :: s in LiveOf(L, o.ino) <==> Live(L.entries, o.sh, s)
    ensures |LiveOf(L, o.ino)| == Blocks(o.sh)
  {
    hide Used, Canon, BlocksFor, LiveSlots;
  }

  lemma NowOpen(node: Vnode)
    requires Consistent(node.fs.L, node.fs.disk) && node.fs.free == node.fs.disk.free
    requires 1 <= node.number <= |node.fs.disk.inodes| && node.inode == node.fs.disk.inodes[node.number - 1]
    requires node.inode.kind.Regular? && node.size == node.inode.size && node.shape == Spans(node.fs.L, node.inode)
    requires node.cache.View() == Cache(EMPTY, EMPTY, EMPTY)
    ensures Open(node)
  {
    hide CountsOk, Used, Spans, Contents;
    assert FileOk(node.fs.L, node.fs.disk.blocks, node.inode, Used(node.fs.L, node.fs.disk.blocks, node.fs.disk.descs));
  }
}
