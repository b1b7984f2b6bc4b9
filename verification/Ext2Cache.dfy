/** The write-back cache of pointer tables: one single-indirect table, one
    double-indirect root and one double-indirect leaf. */
module Ext2Cache {
  import opened Machine
  import opened Ext2Blocks
  import opened Ext2Tree

  datatype Table = Table(valid: bool, dirty: bool, number: u32, entries: seq<u32>)

  datatype Cache = Cache(single: Table, root: Table, leaf: Table)

  const EMPTY: Table := Table(false, false, 0, [])

  /** The blocks with one cached table standing in for its copy on the disk. */
  function Put(bs: seq<Block>, t: Table): seq<Block> {
    if t.valid && t.number < |bs| then bs[t.number := Encode(t.entries)] else bs
  }

  /** The blocks as the driver sees them. */
  function Over(bs: seq<Block>, c: Cache): seq<Block> {
    Put(Put(Put(bs, c.single), c.root), c.leaf)
  }

  /** A cached table has the right size, and one that is not dirty agrees
      with the disk. */
  predicate TableOk(E: pos, bs: seq<Block>, t: Table) {
    && (t.dirty ==> t.valid)
    && (t.valid ==> |t.entries| == E && 0 < t.number < |bs|)
    && (t.valid && !t.dirty ==> bs[t.number] == Encode(t.entries))
  }

  predicate Apart(t: Table, u: Table) {
    t.valid && u.valid ==> t.number != u.number
  }

  /** The cache holds tables of this inode's tree, each in its own slot. */
  ghost predicate CacheOk(E: pos, bs: seq<Block>, c: Cache, ino: Inode, sh: Shape) {
    && SizedBlocks(E, bs)
    && TableOk(E, bs, c.single) && TableOk(E, bs, c.root) && TableOk(E, bs, c.leaf)
    && Apart(c.single, c.root) && Apart(c.single, c.leaf) && Apart(c.root, c.leaf)
    && (c.single.valid ==> sh.single && c.single.number == ino.block[12])
    && (c.root.valid ==> sh.root && c.root.number == ino.block[13])
    && (c.leaf.valid ==> c.root.valid && exists j: nat :: j < sh.leaves && j < E && c.root.entries[j] == c.leaf.number)
  }

  predicate Clean(c: Cache) {
    !c.single.dirty && !c.root.dirty && !c.leaf.dirty
  }

  /** A dirty table hides the copy of its block on the disk. */
  predicate Hides(t: Table, x: nat) {
    t.dirty && t.number == x
  }

  lemma OverAt(E: pos, bs: seq<Block>, c: Cache, ino: Inode, sh: Shape)
    requires CacheOk(E, bs, c, ino, sh)
    ensures |Over(bs, c)| == |bs| && SizedBlocks(E, Over(bs, c))
    ensures c.single.valid ==> Over(bs, c)[c.single.number] == Encode(c.single.entries)
    ensures c.root.valid ==> Over(bs, c)[c.root.number] == Encode(c.root.entries)
    ensures c.leaf.valid ==> Over(bs, c)[c.leaf.number] == Encode(c.leaf.entries)
    ensures forall x :: 0 <= x < |bs| && !Hides(c.single, x) && !Hides(c.root, x) && !Hides(c.leaf, x) ==> Over(bs, c)[x] == bs[x]
  {
  }

  /** With nothing dirty the cache is invisible. */
  lemma CleanOver(E: pos, bs: seq<Block>, c: Cache, ino: Inode, sh: Shape)
    requires CacheOk(E, bs, c, ino, sh) && Clean(c)
    ensures Over(bs, c) == bs
  {
    OverAt(E, bs, c, ino, sh);
  }

  /** A cached table shows the entries of the tree. */
  lemma CachedEntry(E: pos, o: seq<Block>, t: Table, i: nat)
    requires t.valid && 0 < t.number < |o| && o[t.number] == Encode(t.entries) && i < |t.entries|
    ensures Ent(o, t.number, i) == t.entries[i]
  {
  }

  /** The table as read from block n of the disk. */
  function Loaded(bs: seq<Block>, n: u32): Table
    requires n < |bs|
  {
    Table(true, false, n, Decode(bs[n]))
  }

  lemma LoadedOk(E: pos, bs: seq<Block>, n: u32)
    requires SizedBlocks(E, bs) && 0 < n < |bs|
    ensures TableOk(E, bs, Loaded(bs, n)) && Put(bs, Loaded(bs, n)) == bs
  {
    TableRoundTrip([], bs[n]);
  }

  /** Which slot of the cache. */
  datatype Which = TheSingle | TheRoot | TheLeaf

  function Get(c: Cache, w: Which): Table {
    match w case TheSingle => c.single case TheRoot => c.root case TheLeaf => c.leaf
  }

  function Set(c: Cache, w: Which, t: Table): Cache {
    match w case TheSingle => c.(single := t) case TheRoot => c.(root := t) case TheLeaf => c.(leaf := t)
  }

  /** The blocks with only the other two cached tables standing in. */
  function Others(bs: seq<Block>, c: Cache, w: Which): seq<Block> {
    match w
    case TheSingle => Put(Put(bs, c.root), c.leaf)
    case TheRoot => Put(Put(bs, c.single), c.leaf)
    case TheLeaf => Put(Put(bs, c.single), c.root)
  }

  predicate ApartFromOthers(c: Cache, w: Which, t: Table) {
    match w
    case TheSingle => Apart(t, c.root) && Apart(t, c.leaf)
    case TheRoot => Apart(t, c.single) && Apart(t, c.leaf)
    case TheLeaf => Apart(t, c.single) && Apart(t, c.root)
  }

  lemma PutCommutes(bs: seq<Block>, t: Table, u: Table)
    requires Apart(t, u)
    ensures Put(Put(bs, t), u) == Put(Put(bs, u), t)
  {
    assert Put(Put(bs, t), u) == Put(Put(bs, u), t);
  }

  /** The order in which the slots stand in does not matter. */
  lemma OverSlot(bs: seq<Block>, c: Cache, w: Which, t: Table)
    requires ApartFromOthers(c, w, t)
    ensures Over(bs, Set(c, w, t)) == Put(Others(bs, c, w), t)
  {
    if w == TheSingle {
      PutCommutes(bs, t, c.root);
      PutCommutes(Put(bs, c.root), t, c.leaf);
    } else if w == TheRoot {
      PutCommutes(Put(bs, c.single), t, c.leaf);
    }
  }

  lemma OthersSized(E: pos, bs: seq<Block>, c: Cache, w: Which, ino: Inode, sh: Shape)
    requires CacheOk(E, bs, c, ino, sh)
    ensures |Others(bs, c, w)| == |bs| && SizedBlocks(E, Others(bs, c, w))
    ensures ApartFromOthers(c, w, Get(c, w)) && TableOk(E, bs, Get(c, w))
  {
    hide Word, Encode;
  }

  lemma OverSame(E: pos, bs: seq<Block>, c: Cache, w: Which, ino: Inode, sh: Shape)
    requires CacheOk(E, bs, c, ino, sh)
    ensures Over(bs, c) == Put(Others(bs, c, w), Get(c, w)) && |Others(bs, c, w)| == |bs|
    ensures ApartFromOthers(c, w, Get(c, w)) && TableOk(E, bs, Get(c, w))
    ensures SizedBlocks(E, Others(bs, c, w))
  {
    OthersSized(E, bs, c, w, ino, sh);
    hide Put, Others, Over;
    OverSlot(bs, c, w, Get(c, w));
    assert Set(c, w, Get(c, w)) == c;
  }

  lemma OthersAt(bs: seq<Block>, c: Cache, w: Which, n: u32)
    requires n < |bs| && ApartFromOthers(c, w, Table(true, false, n, []))
    ensures |Others(bs, c, w)| == |bs| && Others(bs, c, w)[n] == bs[n]
  {
  }

  /** Replacing a slot that is not dirty by a table just read changes nothing
      the driver can see. */
  lemma Reloaded(E: pos, bs: seq<Block>, c: Cache, w: Which, n: u32, ino: Inode, sh: Shape)
    requires CacheOk(E, bs, c, ino, sh) && !Get(c, w).dirty && 0 < n < |bs|
    requires ApartFromOthers(c, w, Loaded(bs, n))
    ensures Over(bs, Set(c, w, Loaded(bs, n))) == Over(bs, c)
    ensures Over(bs, c)[n] == bs[n] == Encode(Loaded(bs, n).entries) && |Decode(bs[n])| == E
  {
    hide Encode, Decode;
    var t := Get(c, w);
    LoadedOk(E, bs, n);
    OverSame(E, bs, c, w, ino, sh);
    OverSlot(bs, c, w, Loaded(bs, n));
    OthersAt(bs, c, w, n);
    if t.valid {
      OthersAt(bs, c, w, t.number);
    }
    assert Put(Others(bs, c, w), t) == Others(bs, c, w);
    assert Put(Others(bs, c, w), Loaded(bs, n)) == Others(bs, c, w);
  }

  /** Changing entry i of a cached table is changing that entry on the blocks
      the driver sees. */
  lemma EntryPut(E: pos, bs: seq<Block>, c: Cache, w: Which, i: nat, v: u32, ino: Inode, sh: Shape)
    requires CacheOk(E, bs, c, ino, sh) && Get(c, w).valid && i < E
    ensures
      var t := Get(c, w);
      && t.number < |Over(bs, c)| && |Over(bs, c)[t.number]| == 4 * E
      && Over(bs, Set(c, w, t.(entries := t.entries[i := v], dirty := true))) == SetEnt(Over(bs, c), t.number, i, v)
  {
    hide Encode, Decode;
    var t := Get(c, w);
    var t' := t.(entries := t.entries[i := v], dirty := true);
    OverSame(E, bs, c, w, ino, sh);
    OverSlot(bs, c, w, t');
    TableRoundTrip(t.entries, []);
  }

  /** A fresh zeroed table in a slot that is not dirty. */
  lemma FreshPut(E: pos, bs: seq<Block>, c: Cache, w: Which, n: u32, ino: Inode, sh: Shape)
    requires CacheOk(E, bs, c, ino, sh) && !Get(c, w).dirty && 0 < n < |bs|
    requires ApartFromOthers(c, w, Loaded(bs, n))
    ensures Over(bs, Set(c, w, Table(true, true, n, seq(E, _ => 0)))) == Over(bs, c)[n := ZeroTable(E)]
  {
    var t := Get(c, w);
    OverSame(E, bs, c, w, ino, sh);
    OverSlot(bs, c, w, Table(true, true, n, seq(E, _ => 0)));
    if t.valid {
      OthersAt(bs, c, w, t.number);
    }
    assert Put(Others(bs, c, w), t) == Others(bs, c, w);
  }

  /** Writing a cached table back changes nothing the driver can see. */
  lemma Flushed(E: pos, bs: seq<Block>, c: Cache, w: Which, ino: Inode, sh: Shape)
    requires CacheOk(E, bs, c, ino, sh) && Get(c, w).valid
    ensures
      var t := Get(c, w);
      var bs', c' := bs[t.number := Encode(t.entries)], Set(c, w, t.(dirty := false));
      CacheOk(E, bs', c', ino, sh) && Over(bs', c') == Over(bs, c)
  {
    hide Encode, Decode;
    var t := Get(c, w);
    var bs', c' := bs[t.number := Encode(t.entries)], Set(c, w, t.(dirty := false));
    OverSame(E, bs, c, w, ino, sh);
    OverSlot(bs', c, w, t.(dirty := false));
    FlushedOthers(bs, c, w, t);
  }

  lemma FlushedOthers(bs: seq<Block>, c: Cache, w: Which, t: Table)
    requires t.valid && t.number < |bs| && ApartFromOthers(c, w, t)
    ensures Put(Others(Put(bs, t), c, w), t) == Put(Others(bs, c, w), t)
  {
    if w == TheSingle {
      PutCommutes(bs, t, c.root);
      PutCommutes(Put(bs, c.root), t, c.leaf);
    } else if w == TheRoot {
      PutCommutes(bs, t, c.single);
      PutCommutes(Put(bs, c.single), t, c.leaf);
    } else {
      PutCommutes(bs, t, c.single);
      PutCommutes(Put(bs, c.single), t, c.root);
    }
    assert Put(Put(Others(bs, c, w), t), t) == Put(Others(bs, c, w), t);
  }

  /** Blocks outside the cache may change on the disk without touching it. */
  lemma OverFrame(E: pos, bs: seq<Block>, bs': seq<Block>, c: Cache, ino: Inode, sh: Shape)
    requires CacheOk(E, bs, c, ino, sh) && |bs'| == |bs| && SizedBlocks(E, bs')
    requires forall v :: Get(c, v).valid ==> bs'[Get(c, v).number] == bs[Get(c, v).number]
    ensures CacheOk(E, bs', c, ino, sh) && |Over(bs', c)| == |bs|
    ensures forall x :: 0 <= x < |bs| && bs'[x] == bs[x] ==> Over(bs', c)[x] == Over(bs, c)[x]
    ensures forall v :: Get(c, v).valid ==> Get(c, v).number < |bs| && Over(bs', c)[Get(c, v).number] == Over(bs, c)[Get(c, v).number]
  {
    assert Get(c, TheSingle) == c.single && Get(c, TheRoot) == c.root && Get(c, TheLeaf) == c.leaf;
    OverAt(E, bs, c, ino, sh);
    OverAt(E, bs', c, ino, sh);
  }

  /** Writing a block that is not cached shows through the cache. */
  lemma OverWrite(E: pos, bs: seq<Block>, c: Cache, ino: Inode, sh: Shape, n: nat, b: Block)
    requires CacheOk(E, bs, c, ino, sh) && n < |bs| && |b| == 4 * E
    requires forall v :: Get(c, v).valid ==> Get(c, v).number != n
    ensures CacheOk(E, bs[n := b], c, ino, sh) && Over(bs[n := b], c) == Over(bs, c)[n := b]
  {
    assert Get(c, TheSingle) == c.single && Get(c, TheRoot) == c.root && Get(c, TheLeaf) == c.leaf;
    assert Over(bs[n := b], c) == Over(bs, c)[n := b];
  }
}
