/** What reading and growing a file does to the tree seen through the cache. */
module Ext2Grow {
  import opened Machine
  import opened Ext2Blocks
  import opened Ext2Tree
  import opened Ext2Bitmap
  import opened Ext2Cache

  /** The cache is in order and the tree seen through it has shape sh. */
  ghost predicate Mapped(E: pos, bs: seq<Block>, c: Cache, ino: Inode, sh: Shape) {
    CacheOk(E, bs, c, ino, sh) && Tree(E, Over(bs, c), ino, sh)
  }

  function WhichOf(s: Slot): Which
    requires IsTable(s)
  {
    match s case Single => TheSingle case Root => TheRoot case Leaf(_) => TheLeaf
  }

  /** The cache holds the table of slot s. */
  predicate Holds(c: Cache, o: seq<Block>, ino: Inode, s: Slot)
    requires IsTable(s)
  {
    Get(c, WhichOf(s)).valid && Get(c, WhichOf(s)).number == At(o, ino, s)
  }

  /** Every cached table is the table of some live slot. */
  lemma CachedSlots(E: pos, bs: seq<Block>, c: Cache, ino: Inode, sh: Shape)
    requires Mapped(E, bs, c, ino, sh)
    ensures c.single.valid ==> Live(E, sh, Single) && Holds(c, Over(bs, c), ino, Single)
    ensures c.root.valid ==> Live(E, sh, Root) && Holds(c, Over(bs, c), ino, Root)
    ensures c.leaf.valid ==> exists j: nat :: Live(E, sh, Leaf(j)) && Holds(c, Over(bs, c), ino, Leaf(j))
    ensures forall w :: Get(c, w).valid ==> exists s :: IsTable(s) && Live(E, sh, s) && WhichOf(s) == w && Holds(c, Over(bs, c), ino, s)
  {
    var o := Over(bs, c);
    OverAt(E, bs, c, ino, sh);
    if c.single.valid {
      assert Holds(c, o, ino, Single) && Live(E, sh, Single) && WhichOf(Single) == TheSingle;
    }
    if c.root.valid {
      assert Holds(c, o, ino, Root) && Live(E, sh, Root) && WhichOf(Root) == TheRoot;
    }
    if c.leaf.valid {
      var j: nat :| j < sh.leaves && j < E && c.root.entries[j] == c.leaf.number;
      CachedEntry(E, o, c.root, j);
      assert Holds(c, o, ino, Leaf(j)) && Live(E, sh, Leaf(j)) && WhichOf(Leaf(j)) == TheLeaf;
    }
  }

  /** An entry of a held table is the block number of the slot below it. */
  lemma HeldEntry(E: pos, bs: seq<Block>, c: Cache, ino: Inode, sh: Shape, s: Slot)
    requires Mapped(E, bs, c, ino, sh) && InTree(E, s) && (s.SEntry? || s.Leaf? || s.LEntry?)
    requires Holds(c, Over(bs, c), ino, Parent(s))
    ensures |Get(c, WhichOf(Parent(s))).entries| == E
    ensures Get(c, WhichOf(Parent(s))).entries[Position(s)] == At(Over(bs, c), ino, s)
  {
    OverAt(E, bs, c, ino, sh);
    CachedEntry(E, Over(bs, c), Get(c, WhichOf(Parent(s))), Position(s));
  }

  /** A live table that the cache does not hold is apart from the tables in
      the other two slots. */
  lemma SlotApart(E: pos, bs: seq<Block>, c: Cache, ino: Inode, sh: Shape, s: Slot)
    requires Mapped(E, bs, c, ino, sh) && IsTable(s) && Live(E, sh, s)
    ensures 0 < At(Over(bs, c), ino, s) < |bs|
    ensures ApartFromOthers(c, WhichOf(s), Loaded(bs, At(Over(bs, c), ino, s)))
  {
    OverAt(E, bs, c, ino, sh);
    CachedSlots(E, bs, c, ino, sh);
    var o := Over(bs, c);
    var n := At(o, ino, s);
    if c.single.valid && c.single.number == n {
      assert s == Single;
    }
    if c.root.valid && c.root.number == n {
      assert s == Root;
    }
    if c.leaf.valid && c.leaf.number == n {
      var j: nat :| Live(E, sh, Leaf(j)) && Holds(c, o, ino, Leaf(j));
      assert s == Leaf(j);
    }
  }

  /** Reading the table of slot s into its cache slot changes nothing that is
      seen, provided the table it replaces is not dirty. */
  lemma LoadSlot(E: pos, bs: seq<Block>, c: Cache, ino: Inode, sh: Shape, s: Slot)
    requires Mapped(E, bs, c, ino, sh) && IsTable(s) && Live(E, sh, s)
    requires !Get(c, WhichOf(s)).dirty
    requires s.Root? ==> !c.leaf.valid
    requires s.Leaf? ==> c.root.valid
    ensures 0 < At(Over(bs, c), ino, s) < |bs|
    ensures
      var c' := Set(c, WhichOf(s), Loaded(bs, At(Over(bs, c), ino, s)));
      Mapped(E, bs, c', ino, sh) && Over(bs, c') == Over(bs, c) && Holds(c', Over(bs, c), ino, s)
  {
    SlotApart(E, bs, c, ino, sh, s);
    var n := At(Over(bs, c), ino, s);
    Reloaded(E, bs, c, WhichOf(s), n, ino, sh);
    LoadedOk(E, bs, n);
    if s.Leaf? {
      CachedSlots(E, bs, c, ino, sh);
      HeldEntry(E, bs, c, ino, sh, s);
    }
  }

  /** Replacing a dirty leaf is harmless exactly when the disk already has
      its entries, which is when it did not need to be dirty. */
  lemma EvictLoses(E: pos, bs: seq<Block>, c: Cache, ino: Inode, sh: Shape, s: Slot)
    requires Mapped(E, bs, c, ino, sh) && s.Leaf? && Live(E, sh, s) && c.leaf.valid
    requires At(Over(bs, c), ino, s) != c.leaf.number
    ensures 0 < At(Over(bs, c), ino, s) < |bs|
    ensures Over(bs, Set(c, TheLeaf, Loaded(bs, At(Over(bs, c), ino, s)))) == Over(bs, c)
            <==> bs[c.leaf.number] == Encode(c.leaf.entries)
  {
    SlotApart(E, bs, c, ino, sh, s);
    var n := At(Over(bs, c), ino, s);
    LoadedOk(E, bs, n);
    OverSame(E, bs, c, TheLeaf, ino, sh);
    OverSlot(bs, c, TheLeaf, Loaded(bs, n));
    OthersAt(bs, c, TheLeaf, n);
    OthersAt(bs, c, TheLeaf, c.leaf.number);
    var rest := Others(bs, c, TheLeaf);
    assert Put(rest, Loaded(bs, n)) == rest;
    assert rest[c.leaf.number] == bs[c.leaf.number];
    assert Put(rest, c.leaf) == rest <==> rest[c.leaf.number] == Encode(c.leaf.entries);
  }

  /* ---------- growing ---------- */

  ghost predicate OwnsTable(E: pos, e: seq<Block>, ino: Inode, sh: Shape, b: nat) {
    exists s :: IsTable(s) && Live(E, sh, s) && At(e, ino, s) == b
  }

  ghost predicate OwnedIn(E: pos, e: seq<Block>, ino: Inode, sh: Shape, used: set<nat>, meta: set<nat>) {
    forall s :: Live(E, sh, s) ==> At(e, ino, s) in used && At(e, ino, s) !in meta
  }

  function SectorsPerBlock(E: pos): nat {
    4 * E / 512
  }

  /** From (o, ino, sh) to (o', ino', sh') the tree kept every slot it had,
      took only blocks that were not in use, and changed no block except
      metadata and its own tables. */
  ghost predicate Grew(E: pos, meta: set<nat>, o: seq<Block>, ino: Inode, sh: Shape, used: set<nat>,
                       o': seq<Block>, ino': Inode, sh': Shape, used': set<nat>) {
    && Tree(E, o', ino', sh') && |o'| == |o|
    && (forall s :: Live(E, sh, s) ==> Live(E, sh', s) && At(o', ino', s) == At(o, ino, s))
    && (forall s :: Live(E, sh', s) && !Live(E, sh, s) ==> At(o', ino', s) !in used)
    && (forall x :: x in used' <==> x in used || (exists s :: Live(E, sh', s) && !Live(E, sh, s) && At(o', ino', s) == x))
    && (forall x :: 0 <= x < |o| && x !in meta && !OwnsTable(E, o', ino', sh', x) ==> o'[x] == o[x])
    && ino'.(block := ino.block, sectors := ino.sectors) == ino
    && ino'.sectors + SectorsPerBlock(E) * Blocks(sh) == ino.sectors + SectorsPerBlock(E) * Blocks(sh')
  }

  lemma GrewNothing(E: pos, meta: set<nat>, o: seq<Block>, ino: Inode, sh: Shape, used: set<nat>)
    requires Tree(E, o, ino, sh)
    ensures Grew(E, meta, o, ino, sh, used, o, ino, sh, used)
  {
  }

  lemma GrewTwice(E: pos, meta: set<nat>, o: seq<Block>, ino: Inode, sh: Shape, used: set<nat>,
                  o1: seq<Block>, ino1: Inode, sh1: Shape, used1: set<nat>,
                  o2: seq<Block>, ino2: Inode, sh2: Shape, used2: set<nat>)
    requires Grew(E, meta, o, ino, sh, used, o1, ino1, sh1, used1)
    requires Grew(E, meta, o1, ino1, sh1, used1, o2, ino2, sh2, used2)
    ensures Grew(E, meta, o, ino, sh, used, o2, ino2, sh2, used2)
  {
    forall x | OwnsTable(E, o1, ino1, sh1, x) ensures OwnsTable(E, o2, ino2, sh2, x) {
      var s :| IsTable(s) && Live(E, sh1, s) && At(o1, ino1, s) == x;
      assert Live(E, sh2, s) && At(o2, ino2, s) == x;
    }
    forall x | x in used2 ensures x in used || exists s :: Live(E, sh2, s) && !Live(E, sh, s) && At(o2, ino2, s) == x {
      if x !in used {
        if x in used1 {
          var s :| Live(E, sh1, s) && !Live(E, sh, s) && At(o1, ino1, s) == x;
          assert Live(E, sh2, s) && At(o2, ino2, s) == x;
        } else {
          var s :| Live(E, sh2, s) && !Live(E, sh1, s) && At(o2, ino2, s) == x;
          assert !Live(E, sh, s);
        }
      }
    }
    forall x | x in used || exists s :: Live(E, sh2, s) && !Live(E, sh, s) && At(o2, ino2, s) == x ensures x in used2 {
      if x !in used {
        var s :| Live(E, sh2, s) && !Live(E, sh, s) && At(o2, ino2, s) == x;
        if Live(E, sh1, s) {
          assert At(o1, ino1, s) == x;
        }
      }
    }
    forall s | Live(E, sh2, s) && !Live(E, sh, s) ensures At(o2, ino2, s) !in used {
      if Live(E, sh1, s) {
        assert At(o2, ino2, s) == At(o1, ino1, s);
      }
    }
  }

  /** Owned blocks stay in use and apart from metadata. */
  lemma GrewOwned(E: pos, meta: set<nat>, o: seq<Block>, ino: Inode, sh: Shape, used: set<nat>,
                  o': seq<Block>, ino': Inode, sh': Shape, used': set<nat>)
    requires Grew(E, meta, o, ino, sh, used, o', ino', sh', used') && OwnedIn(E, o, ino, sh, used, meta)
    requires forall x :: x in used' && x !in used ==> x !in meta
    ensures OwnedIn(E, o', ino', sh', used', meta)
  {
    forall s | Live(E, sh', s) ensures At(o', ino', s) in used' && At(o', ino', s) !in meta {
      if Live(E, sh, s) {
        assert At(o', ino', s) == At(o, ino, s);
      } else {
        assert At(o', ino', s) in used' && At(o', ino', s) !in used;
      }
    }
  }

  lemma SectorsGrown(E: pos, sh: Shape, s: Slot, sectors: nat)
    requires NextSlot(E, sh, s)
    ensures sectors + SectorsPerBlock(E) + SectorsPerBlock(E) * Blocks(sh) == sectors + SectorsPerBlock(E) * Blocks(Grown(sh, s))
  {
    assert Blocks(Grown(sh, s)) == Blocks(sh) + 1;
  }

  /** Filling a slot rewrites the table above it and, for a new table, the new block. */
  lemma FillTouches(E: pos, e: seq<Block>, ino: Inode, sh: Shape, s: Slot, b: u32, e': seq<Block>, ino': Inode)
    requires Tree(E, e, ino, sh) && NextSlot(E, sh, s) && 0 < b < |e|
    requires s.SEntry? || s.Leaf? || s.LEntry? ==> At(e, ino, Parent(s)) < |e|
    requires e' == FillBlocks(E, e, ino, s, b) && Filled(E, e, ino, e', ino', s, b)
    requires forall t :: Live(E, Grown(sh, s), t) <==> Live(E, sh, t) || t == s
    ensures |e'| == |e|
    ensures forall x :: 0 <= x < |e| && !OwnsTable(E, e', ino', Grown(sh, s), x) ==> e'[x] == e[x]
  {
    hide Encode, Decode, ZeroTable, Tree;
    if s.SEntry? || s.Leaf? || s.LEntry? {
      assert Live(E, Grown(sh, s), Parent(s)) && At(e', ino', Parent(s)) == At(e, ino, Parent(s));
    }
    assert Live(E, Grown(sh, s), s) && At(e', ino', s) == b;
  }

  /** One allocation followed by filling one slot. */
  lemma GrewStep(E: pos, meta: set<nat>, o: seq<Block>, o1: seq<Block>, ino: Inode, sh: Shape, used: set<nat>,
                 s: Slot, b: u32, o': seq<Block>, ino': Inode)
    requires Tree(E, o, ino, sh) && Tree(E, o1, ino, sh) && NextSlot(E, sh, s) && OwnedIn(E, o, ino, sh, used, meta)
    requires |o1| == |o| && forall x :: 0 <= x < |o| && x !in meta ==> o1[x] == o[x]
    requires forall t :: InTree(E, t) ==> At(o1, ino, t) == At(o, ino, t)
    requires 0 < b < |o| && b !in used
    requires s.SEntry? || s.Leaf? || s.LEntry? ==> At(o1, ino, Parent(s)) < |o1|
    requires o' == FillBlocks(E, o1, ino, s, b)
    requires ino' == FillInode(ino, s, b).(sectors := ino.sectors + SectorsPerBlock(E))
    ensures Grew(E, meta, o, ino, sh, used, o', ino', Grown(sh, s), used + {b})
  {
    hide SectorsPerBlock, Blocks, SizedBlocks, ShapeOk, FillBlocks;
    assert !Owns(E, o1, ino, sh, b);
    var ino1 := FillInode(ino, s, b);
    FillNext(E, o1, ino, sh, s, b, o', ino1);
    GrownShape(E, sh, s);
    FillTouches(E, o1, ino, sh, s, b, o', ino1);
    SectorsGrown(E, sh, s, ino.sectors);
    SectorsApart(E, o', ino1, ino', Grown(sh, s));
  }

  /** The tree does not depend on the sector count. */
  lemma SectorsApart(E: pos, e: seq<Block>, ino: Inode, ino': Inode, sh: Shape)
    requires ino' == ino.(sectors := ino'.sectors) && Tree(E, e, ino, sh)
    ensures Tree(E, e, ino', sh)
    ensures forall t :: At(e, ino', t) == At(e, ino, t)
    ensures forall x :: OwnsTable(E, e, ino', sh, x) <==> OwnsTable(E, e, ino, sh, x)
  {
    assert forall t :: At(e, ino', t) == At(e, ino, t);
    forall x | OwnsTable(E, e, ino, sh, x) ensures OwnsTable(E, e, ino', sh, x) {
      var s :| IsTable(s) && Live(E, sh, s) && At(e, ino, s) == x;
      assert At(e, ino', s) == x;
    }
  }

  /* ---------- one mounted volume, one open file ---------- */

  /** Everything the write path works on: the device, the superblock's free
      count, the allocator's held group and its allocation count, the pointer
      cache, and the open file's inode and shape. */
  datatype State = State(d: Disk, free: nat, h: Held, taken: nat, c: Cache, ino: Inode, sh: Shape)

  /** The file's blocks as the driver sees them. */
  function Seen(st: State): seq<Block> {
    Over(st.d.blocks, st.c)
  }

  function UsedNow(L: Layout, st: State): set<nat> {
    InUse(L, Overlaid(st.d, st.h))
  }

  /** What holds between the steps of a write: the allocator's and the
      cache's views are in order, and the file's blocks are allocated and are
      not metadata. */
  ghost predicate Busy(L: Layout, st: State) {
    && SumsOk(L) && HeldOk(L, st.d, st.free, st.h)
    && Mapped(L.entries, st.d.blocks, st.c, st.ino, st.sh)
    && OwnedIn(L.entries, Seen(st), st.ino, st.sh, UsedNow(L, st), L.meta)
  }

  /** The file grew from st to st', and nothing else that anyone can see
      changed. */
  ghost predicate Advanced(L: Layout, st: State, st': State) {
    && Grew(L.entries, L.meta, Seen(st), st.ino, st.sh, UsedNow(L, st), Seen(st'), st'.ino, st'.sh, UsedNow(L, st'))
    && st'.d.inodes == st.d.inodes && st'.d.free == st.d.free
    && st'.free + st'.taken == st.free + st.taken
  }

  lemma AdvancedTwice(L: Layout, st: State, st1: State, st2: State)
    requires Advanced(L, st, st1) && Advanced(L, st1, st2)
    ensures Advanced(L, st, st2)
  {
    GrewTwice(L.entries, L.meta, Seen(st), st.ino, st.sh, UsedNow(L, st), Seen(st1), st1.ino, st1.sh, UsedNow(L, st1),
              Seen(st2), st2.ino, st2.sh, UsedNow(L, st2));
  }

  lemma AdvancedNothing(L: Layout, st: State, st': State)
    requires Busy(L, st) && Seen(st') == Seen(st) && UsedNow(L, st') == UsedNow(L, st)
    requires st'.ino == st.ino && st'.sh == st.sh && st'.free == st.free && st'.taken == st.taken
    requires st'.d.inodes == st.d.inodes && st'.d.free == st.d.free
    ensures Advanced(L, st, st')
  {
    GrewNothing(L.entries, L.meta, Seen(st), st.ino, st.sh, UsedNow(L, st));
  }

  /** Metadata may change under an open file. */
  lemma MappedFrame(E: pos, meta: set<nat>, bs: seq<Block>, bs': seq<Block>, c: Cache, ino: Inode, sh: Shape, used: set<nat>)
    requires Mapped(E, bs, c, ino, sh) && OwnedIn(E, Over(bs, c), ino, sh, used, meta)
    requires |bs'| == |bs| && SizedBlocks(E, bs') && forall x :: 0 <= x < |bs| && x !in meta ==> bs'[x] == bs[x]
    ensures Mapped(E, bs', c, ino, sh) && |Over(bs', c)| == |bs| == |Over(bs, c)|
    ensures forall x :: 0 <= x < |bs| && x !in meta ==> Over(bs', c)[x] == Over(bs, c)[x]
    ensures forall s :: InTree(E, s) ==> At(Over(bs', c), ino, s) == At(Over(bs, c), ino, s)
  {
    OverAt(E, bs, c, ino, sh);
    CachedSlots(E, bs, c, ino, sh);
    OverFrame(E, bs, bs', c, ino, sh);
    OverAt(E, bs', c, ino, sh);
    TreeFrame(E, Over(bs, c), Over(bs', c), ino, sh);
  }

  /** The cache with the entry above slot s filled. */
  function EntryFilled(c: Cache, s: Slot, b: u32): Cache {
    if (s.SEntry? || s.Leaf? || s.LEntry?) && Position(s) < |Get(c, WhichOf(Parent(s))).entries| then
      var t := Get(c, WhichOf(Parent(s)));
      Set(c, WhichOf(Parent(s)), t.(entries := t.entries[Position(s) := b], dirty := true))
    else c
  }

  /** The cache after slot s is filled with block b: the entry above it, and
      an empty table for a table slot. */
  function CacheFilled(E: pos, c: Cache, s: Slot, b: u32): Cache {
    if IsTable(s) then Set(EntryFilled(c, s, b), WhichOf(s), Table(true, true, b, seq(E, _ => 0))) else EntryFilled(c, s, b)
  }

  predicate CanFill(c: Cache, o: seq<Block>, ino: Inode, s: Slot) {
    && (s.SEntry? || s.Leaf? || s.LEntry? ==> Holds(c, o, ino, Parent(s)))
    && (IsTable(s) ==> !Get(c, WhichOf(s)).dirty)
    && (s.Root? ==> !c.leaf.valid)
  }

  lemma EntryFills(E: pos, bs: seq<Block>, c: Cache, ino: Inode, sh: Shape, s: Slot, b: u32)
    requires Mapped(E, bs, c, ino, sh) && NextSlot(E, sh, s) && CanFill(c, Over(bs, c), ino, s)
    requires 0 < b < |bs| && !Owns(E, Over(bs, c), ino, sh, b)
    ensures CacheOk(E, bs, EntryFilled(c, s, b), ino, sh)
    ensures s.SEntry? || s.Leaf? || s.LEntry? ==>
              && At(Over(bs, c), ino, Parent(s)) < |bs| == |Over(bs, c)| && SizedBlocks(E, Over(bs, c))
              && Over(bs, EntryFilled(c, s, b)) == SetEnt(Over(bs, c), At(Over(bs, c), ino, Parent(s)), Position(s), b)
  {
    if s.SEntry? || s.Leaf? || s.LEntry? {
      OverAt(E, bs, c, ino, sh);
      HeldEntry(E, bs, c, ino, sh, s);
      EntryPut(E, bs, c, WhichOf(Parent(s)), Position(s), b, ino, sh);
      EntryCacheOk(E, bs, c, ino, sh, s, b);
    }
  }

  lemma EntryFilledKeeps(bs: seq<Block>, c: Cache, s: Slot, b: u32)
    requires b < |bs|
    ensures forall w :: Get(EntryFilled(c, s, b), w).valid == Get(c, w).valid && Get(EntryFilled(c, s, b), w).number == Get(c, w).number
    ensures IsTable(s) ==> Get(EntryFilled(c, s, b), WhichOf(s)) == Get(c, WhichOf(s))
    ensures forall w :: ApartFromOthers(c, w, Loaded(bs, b)) ==> ApartFromOthers(EntryFilled(c, s, b), w, Loaded(bs, b))
  {
    var d := EntryFilled(c, s, b);
    assert Get(d, TheSingle) == d.single && Get(d, TheRoot) == d.root && Get(d, TheLeaf) == d.leaf;
    assert Get(c, TheSingle) == c.single && Get(c, TheRoot) == c.root && Get(c, TheLeaf) == c.leaf;
  }

  /** Filling slot s in the cache is filling it on the blocks that are seen. */
  lemma CacheFills(E: pos, bs: seq<Block>, c: Cache, ino: Inode, sh: Shape, s: Slot, b: u32)
    requires Mapped(E, bs, c, ino, sh) && NextSlot(E, sh, s) && CanFill(c, Over(bs, c), ino, s)
    requires 0 < b < |bs| && !Owns(E, Over(bs, c), ino, sh, b)
    ensures s.SEntry? || s.Leaf? || s.LEntry? ==> At(Over(bs, c), ino, Parent(s)) < |bs|
    ensures |Over(bs, c)| == |bs| && SizedBlocks(E, Over(bs, c))
    ensures Over(bs, CacheFilled(E, c, s, b)) == FillBlocks(E, Over(bs, c), ino, s, b)
  {
    hide Encode, Decode, Word, SetEnt, Put, Over;
    OverAt(E, bs, c, ino, sh);
    EntryFills(E, bs, c, ino, sh, s, b);
    NewApart(E, bs, c, ino, sh, b);
    EntryFilledKeeps(bs, c, s, b);
    if IsTable(s) {
      FreshPut(E, bs, EntryFilled(c, s, b), WhichOf(s), b, ino, sh);
    }
  }

  lemma CacheFillsOk(E: pos, bs: seq<Block>, c: Cache, ino: Inode, sh: Shape, s: Slot, b: u32)
    requires Mapped(E, bs, c, ino, sh) && NextSlot(E, sh, s) && CanFill(c, Over(bs, c), ino, s)
    requires 0 < b < |bs| && !Owns(E, Over(bs, c), ino, sh, b)
    ensures CacheOk(E, bs, CacheFilled(E, c, s, b), FillInode(ino, s, b), Grown(sh, s))
  {
    hide Encode, Decode, Word, Put, Over;
    EntryFills(E, bs, c, ino, sh, s, b);
    NewApart(E, bs, c, ino, sh, b);
    EntryFilledKeeps(bs, c, s, b);
    var d, c1 := CacheFilled(E, c, s, b), EntryFilled(c, s, b);
    assert Get(c, TheSingle) == c.single && Get(c, TheRoot) == c.root && Get(c, TheLeaf) == c.leaf;
    assert Apart(d.single, d.root) && Apart(d.single, d.leaf) && Apart(d.root, d.leaf);
    assert TableOk(E, bs, d.single) && TableOk(E, bs, d.root) && TableOk(E, bs, d.leaf);
    if s.Leaf? {
      OverAt(E, bs, c, ino, sh);
      HeldEntry(E, bs, c, ino, sh, s);
      assert d.root.entries[s.j] == d.leaf.number && s.j < Grown(sh, s).leaves;
    } else if d.leaf.valid {
      var j: nat :| j < sh.leaves && j < E && c1.root.entries[j] == c1.leaf.number;
      assert j < Grown(sh, s).leaves && d.root.entries[j] == d.leaf.number;
    }
  }

  /** A block outside the tree is not cached. */
  lemma NewApart(E: pos, bs: seq<Block>, c: Cache, ino: Inode, sh: Shape, b: u32)
    requires Mapped(E, bs, c, ino, sh) && 0 < b < |bs| && !Owns(E, Over(bs, c), ino, sh, b)
    ensures forall w :: Get(c, w).valid ==> Get(c, w).number != b
    ensures forall w :: ApartFromOthers(c, w, Loaded(bs, b))
  {
    CachedSlots(E, bs, c, ino, sh);
    assert Get(c, TheSingle) == c.single && Get(c, TheRoot) == c.root && Get(c, TheLeaf) == c.leaf;
  }

  /** Changing a hole in a cached table keeps the cache in order. */
  lemma EntryCacheOk(E: pos, bs: seq<Block>, c: Cache, ino: Inode, sh: Shape, s: Slot, b: u32)
    requires Mapped(E, bs, c, ino, sh) && NextSlot(E, sh, s) && (s.SEntry? || s.Leaf? || s.LEntry?)
    requires Holds(c, Over(bs, c), ino, Parent(s)) && |Get(c, WhichOf(Parent(s))).entries| == E
    ensures
      var t := Get(c, WhichOf(Parent(s)));
      CacheOk(E, bs, Set(c, WhichOf(Parent(s)), t.(entries := t.entries[Position(s) := b], dirty := true)), ino, sh)
  {
    hide Tree, Over, At, Encode, Decode, Word, LeafBase, Index, SizedBlocks;
    if s.Leaf? && c.leaf.valid {
      var j: nat :| j < sh.leaves && j < E && c.root.entries[j] == c.leaf.number;
      assert c.root.entries[s.j := b][j] == c.leaf.number;
    }
  }

  /** The allocator took block b, and slot s was filled with it. */
  lemma BusyGrows(L: Layout, st: State, d1: Disk, free1: nat, h1: Held, s: Slot, b: u32, st': State)
    requires Busy(L, st) && NextSlot(L.entries, st.sh, s) && CanFill(st.c, Seen(st), st.ino, s)
    requires HeldOk(L, d1, free1, h1) && SameData(L, st.d, d1) && free1 + 1 == st.free
    requires L.first <= b < L.count && b !in L.meta && b !in UsedNow(L, st)
    requires InUse(L, Overlaid(d1, h1)) == UsedNow(L, st) + {b}
    requires st' == State(d1, free1, h1, st.taken + 1, CacheFilled(L.entries, st.c, s, b),
                          FillInode(st.ino, s, b).(sectors := st.ino.sectors + SectorsPerBlock(L.entries)), Grown(st.sh, s))
    ensures Busy(L, st') && Advanced(L, st, st')
  {
    hide HeldOk, InUse, Overlaid;
    var E := L.entries;
    HeldFacts(L, d1, free1, h1);
    HeldFacts(L, st.d, st.free, st.h);
    HeldSized(L, d1, free1, h1);
    MappedFrame(E, L.meta, st.d.blocks, d1.blocks, st.c, st.ino, st.sh, UsedNow(L, st));
    var o, o1 := Seen(st), Over(d1.blocks, st.c);
    BusyFills(L, st, d1, s, b);
    GrewStep(E, L.meta, o, o1, st.ino, st.sh, UsedNow(L, st), s, b, Seen(st'), st'.ino);
    GrewOwned(E, L.meta, o, st.ino, st.sh, UsedNow(L, st), Seen(st'), st'.ino, st'.sh, UsedNow(L, st'));
  }

  lemma HeldSized(L: Layout, d: Disk, free: nat, h: Held)
    requires HeldOk(L, d, free, h)
    ensures SizedBlocks(L.entries, d.blocks) && 0 in L.meta
  {
  }

  lemma BusyFills(L: Layout, st: State, d1: Disk, s: Slot, b: u32)
    requires Mapped(L.entries, d1.blocks, st.c, st.ino, st.sh) && NextSlot(L.entries, st.sh, s)
    requires CanFill(st.c, Seen(st), st.ino, s) && 0 < b < |d1.blocks|
    requires OwnedIn(L.entries, Seen(st), st.ino, st.sh, UsedNow(L, st), L.meta) && b !in UsedNow(L, st)
    requires forall t :: InTree(L.entries, t) ==> At(Over(d1.blocks, st.c), st.ino, t) == At(Seen(st), st.ino, t)
    ensures s.SEntry? || s.Leaf? || s.LEntry? ==> At(Over(d1.blocks, st.c), st.ino, Parent(s)) < |d1.blocks|
    ensures |Over(d1.blocks, st.c)| == |d1.blocks| && SizedBlocks(L.entries, Over(d1.blocks, st.c))
    ensures Over(d1.blocks, CacheFilled(L.entries, st.c, s, b)) == FillBlocks(L.entries, Over(d1.blocks, st.c), st.ino, s, b)
    ensures forall n :: CacheOk(L.entries, d1.blocks, CacheFilled(L.entries, st.c, s, b), FillInode(st.ino, s, b).(sectors := n), Grown(st.sh, s))
  {
    var o1 := Over(d1.blocks, st.c);
    assert !Owns(L.entries, o1, st.ino, st.sh, b);
    assert CanFill(st.c, o1, st.ino, s) by {
      if s.SEntry? || s.Leaf? || s.LEntry? {
        assert At(o1, st.ino, Parent(s)) == At(Seen(st), st.ino, Parent(s));
      }
    }
    CacheFills(L.entries, d1.blocks, st.c, st.ino, st.sh, s, b);
    CacheFillsOk(L.entries, d1.blocks, st.c, st.ino, st.sh, s, b);
  }

  /** Writing a dirty table back. */
  lemma BusyFlushes(L: Layout, st: State, w: Which)
    requires Busy(L, st) && Get(st.c, w).valid
    ensures
      var t := Get(st.c, w);
      && t.number < |st.d.blocks|
      && var st' := st.(d := st.d.(blocks := st.d.blocks[t.number := Encode(t.entries)]), c := Set(st.c, w, t.(dirty := false)));
      Busy(L, st') && Advanced(L, st, st') && Seen(st') == Seen(st)
  {
    var E, t := L.entries, Get(st.c, w);
    Flushed(E, st.d.blocks, st.c, w, st.ino, st.sh);
    var st' := st.(d := st.d.(blocks := st.d.blocks[t.number := Encode(t.entries)]), c := Set(st.c, w, t.(dirty := false)));
    CachedSlots(E, st.d.blocks, st.c, st.ino, st.sh);
    var s :| IsTable(s) && Live(E, st.sh, s) && WhichOf(s) == w && Holds(st.c, Seen(st), st.ino, s);
    DataWrite(L, st.d, st.free, st.h, t.number, Encode(t.entries));
    AdvancedNothing(L, st, st');
  }

  /** Writing a block that is not metadata leaves the allocator alone. */
  lemma DataWrite(L: Layout, d: Disk, free: nat, h: Held, n: nat, b: Block)
    requires HeldOk(L, d, free, h) && n < |d.blocks| && n !in L.meta && |b| == 4 * L.entries
    ensures
      var d' := d.(blocks := d.blocks[n := b]);
      HeldOk(L, d', free, h) && InUse(L, Overlaid(d', h)) == InUse(L, Overlaid(d, h))
  {
    var d' := d.(blocks := d.blocks[n := b]);
    var o, o' := Overlaid(d, h), Overlaid(d', h);
    assert o'.blocks == o.blocks[n := b] && o'.descs == o.descs;
    UsedFrame(L, o.blocks, o.descs, o'.blocks);
  }

  lemma BusyFacts(L: Layout, st: State)
    requires Busy(L, st)
    ensures HeldOk(L, st.d, st.free, st.h) && Mapped(L.entries, st.d.blocks, st.c, st.ino, st.sh)
    ensures |st.d.blocks| == L.count < 0x1_0000_0000 && 0 in L.meta && ShapeOk(L.entries, st.sh) && SumsOk(L)
  {
    HeldFacts(L, st.d, st.free, st.h);
  }

  /** A cache change that cannot be seen. */
  lemma BusyAgain(L: Layout, st: State, st': State)
    requires Busy(L, st) && Mapped(L.entries, st'.d.blocks, st'.c, st'.ino, st'.sh) && Seen(st') == Seen(st)
    requires st' == st.(c := st'.c)
    ensures Busy(L, st') && Advanced(L, st, st')
  {
    AdvancedNothing(L, st, st');
  }
}
