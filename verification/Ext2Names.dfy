/** The name space of a volume: what every directory lists, and what the link
    counts count. */
module Ext2Names {
  import opened Machine
  import opened Ext2Blocks
  import opened Ext2Tree
  import opened Ext2Bitmap
  import opened Ext2Cache
  import opened Ext2Grow
  import opened Ext2Content
  import opened Ext2Consistent
  import opened Ext2File
  import opened Ext2Records
  import opened Ext2Dir
  import opened Ext2Link
  import opened Ext2Readdir
  import opened Ext2Inodes
  import opened Ext2Create
  import opened Ext2Mkdir

  /** An inode as far as names go: a directory lists its entries, anything else
      nothing. */
  datatype Node = Node(kind: Kind, links: u16, names: seq<Entry>)

  function NodeOf(blocks: seq<Block>, ino: Inode): Node {
    Node(ino.kind, ino.links, if ino.kind == Directory then DirEntries(blocks, ino) else [])
  }

  function Nodes(d: Disk): (t: seq<Node>)
    ensures |t| == |d.inodes| && forall i :: 0 <= i < |t| ==> t[i] == NodeOf(d.blocks, d.inodes[i])
  {
    seq(|d.inodes|, i requires 0 <= i < |d.inodes| => NodeOf(d.blocks, d.inodes[i]))
  }

  /** How many of these entries stand for inode n. */
  function Mentions(xs: seq<Entry>, n: nat): nat {
    if xs == [] then 0 else Mentions(xs[1..], n) + if xs[0].inode == n then 1 else 0
  }

  /** How many entries of all directories stand for inode n. */
  function AllMentions(t: seq<Node>, n: nat): nat {
    if t == [] then 0 else AllMentions(t[1..], n) + Mentions(t[0].names, n)
  }

  /** Every entry stands for an inode in use, of the type that it says. */
  predicate Pointed(t: seq<Node>) {
    forall i :: 0 <= i < |t| ==> AllPointed(t, t[i].names)
  }

  predicate AllPointed(t: seq<Node>, xs: seq<Entry>) {
    forall k :: 0 <= k < |xs| ==> InUseNode(t, xs[k].inode) && TypeTrue(t, xs[k])
  }

  /** The type byte 1 is only ever that of a regular file, and 2 that of a
      directory. */
  predicate TypeTrue(t: seq<Node>, e: Entry) {
    1 <= e.inode <= |t| ==> Honest(t[e.inode - 1].kind, e)
  }

  predicate Honest(kind: Kind, e: Entry) {
    (e.kind == 1 ==> kind == Regular) && (e.kind == 2 ==> kind == Directory)
  }

  predicate InUseNode(t: seq<Node>, n: nat) {
    1 <= n <= |t| && t[n - 1].kind != Unused
  }

  /** No directory lists a name twice, every entry stands for an inode in use
      and of the type it says, and an inode's link count is the number of entries that stand for it. */
  predicate Sound(t: seq<Node>) {
    && (forall i :: 0 <= i < |t| ==> Distinct(t[i].names))
    && Pointed(t)
    && (forall i :: 0 <= i < |t| && t[i].kind != Unused ==> t[i].links == AllMentions(t, i + 1))
  }

  /** The directories of a volume are well formed and their names sound. */
  predicate NamesOk(d: Disk) {
    && (forall i :: 0 <= i < |d.inodes| && d.inodes[i].kind == Directory ==> DirOk(d.blocks, d.inodes[i]))
    && Sound(Nodes(d))
  }

  /* ---------- counting entries ---------- */

  lemma {:induction false} MentionsSplit(xs: seq<Entry>, ys: seq<Entry>, n: nat)
    ensures Mentions(xs + ys, n) == Mentions(xs, n) + Mentions(ys, n)
  {
    if xs == [] {
      assert xs + ys == ys;
    } else {
      assert (xs + ys)[1..] == xs[1..] + ys;
      MentionsSplit(xs[1..], ys, n);
    }
  }

  lemma MentionsInserted(xs: seq<Entry>, e: Entry, ys: seq<Entry>, n: nat)
    requires Inserted(xs, e, ys)
    ensures Mentions(ys, n) == Mentions(xs, n) + if e.inode == n then 1 else 0
  {
    var k :| 0 <= k <= |xs| && ys == xs[..k] + [e] + xs[k..];
    assert xs == xs[..k] + xs[k..];
    MentionsSplit(xs[..k], xs[k..], n);
    MentionsSplit(xs[..k] + [e], xs[k..], n);
    MentionsSplit(xs[..k], [e], n);
    OneMention(e, n);
  }

  lemma OneMention(e: Entry, n: nat)
    ensures Mentions([e], n) == if e.inode == n then 1 else 0
  {
    assert [e][1..] == [];
  }

  lemma {:induction false} AllMentionsUpdate(t: seq<Node>, i: nat, x: Node, n: nat)
    requires i < |t|
    ensures AllMentions(t[i := x], n) + Mentions(t[i].names, n) == AllMentions(t, n) + Mentions(x.names, n)
  {
    if i == 0 {
      assert t[0 := x][1..] == t[1..];
    } else {
      assert t[i := x][1..] == t[1..][i - 1 := x];
      AllMentionsUpdate(t[1..], i - 1, x, n);
    }
  }

  lemma {:induction false} NotMentioned(xs: seq<Entry>, n: nat)
    requires forall k :: 0 <= k < |xs| ==> xs[k].inode != n
    ensures Mentions(xs, n) == 0
  {
    if xs != [] {
      NotMentioned(xs[1..], n);
    }
  }

  lemma {:induction false} NowhereMentioned(t: seq<Node>, n: nat)
    requires forall i :: 0 <= i < |t| ==> Mentions(t[i].names, n) == 0
    ensures AllMentions(t, n) == 0
  {
    if t != [] {
      NowhereMentioned(t[1..], n);
    }
  }

  /** An inode that is not in use is not listed anywhere. */
  lemma UnusedUnlisted(t: seq<Node>, n: nat)
    requires Pointed(t) && !InUseNode(t, n)
    ensures AllMentions(t, n) == 0
  {
    forall i | 0 <= i < |t| ensures Mentions(t[i].names, n) == 0 {
      assert AllPointed(t, t[i].names);
      NotMentioned(t[i].names, n);
    }
    NowhereMentioned(t, n);
  }

  /* ---------- adding names ---------- */

  /** The nodes after inode n was put to use as x and listed as e in dir, whose
      link count became links. */
  function Added(t: seq<Node>, dir: nat, links: u16, ys: seq<Entry>, n: nat, x: Node): seq<Node>
    requires 1 <= n <= |t| && 1 <= dir <= |t|
  {
    t[n - 1 := x][dir - 1 := Node(t[dir - 1].kind, links, ys)]
  }

  /** What is added: a node not in use so far, its own entries pointing at
      itself and at dir, and a new name in dir. */
  predicate MayAdd(t: seq<Node>, dir: nat, links: u16, n: nat, x: Node) {
    && 1 <= n <= |t| && 1 <= dir <= |t| && n != dir
    && t[n - 1].kind == Unused && t[n - 1].names == [] && t[dir - 1].kind == Directory && x.kind != Unused
    && Distinct(x.names) && (forall k :: 0 <= k < |x.names| ==> x.names[k].inode == n || x.names[k].inode == dir)
    && (forall k :: 0 <= k < |x.names| ==> Honest(if x.names[k].inode == n then x.kind else Directory, x.names[k]))
    && x.links == 1 + Mentions(x.names, n) && links == t[dir - 1].links + Mentions(x.names, dir)
  }

  lemma AddedMentions(t: seq<Node>, dir: nat, links: u16, e: Entry, ys: seq<Entry>, n: nat, x: Node, m: nat)
    requires Pointed(t) && MayAdd(t, dir, links, n, x) && e.inode == n && Inserted(t[dir - 1].names, e, ys)
    ensures AllMentions(Added(t, dir, links, ys, n, x), m) == AllMentions(t, m) + Mentions(x.names, m) + if m == n then 1 else 0
    ensures m != n && m != dir ==> Mentions(x.names, m) == 0
    ensures AllMentions(t, n) == 0
  {
    AllMentionsUpdate(t, n - 1, x, m);
    AllMentionsUpdate(t[n - 1 := x], dir - 1, Node(t[dir - 1].kind, links, ys), m);
    MentionsInserted(t[dir - 1].names, e, ys, m);
    if m != n && m != dir {
      NotMentioned(x.names, m);
    }
    UnusedUnlisted(t, n);
  }

  lemma AddedPointed(t: seq<Node>, dir: nat, links: u16, e: Entry, ys: seq<Entry>, n: nat, x: Node)
    requires Pointed(t) && MayAdd(t, dir, links, n, x) && e.inode == n && Honest(x.kind, e) && Inserted(t[dir - 1].names, e, ys)
    ensures Pointed(Added(t, dir, links, ys, n, x))
  {
    hide Mentions, Distinct, Inserted, Honest;
    var t' := Added(t, dir, links, ys, n, x);
    StillPointed(t, t', t[dir - 1].names);
    InsertedPointed(t', t[dir - 1].names, e, ys);
    forall i | 0 <= i < |t'| ensures AllPointed(t', t'[i].names) {
      if i != n - 1 {
        StillPointed(t, t', t[i].names);
      }
    }
  }

  lemma StillPointed(t: seq<Node>, t': seq<Node>, xs: seq<Entry>)
    requires AllPointed(t, xs) && |t'| == |t| && forall i :: 0 <= i < |t| && t[i].kind != Unused ==> t'[i].kind == t[i].kind
    ensures AllPointed(t', xs)
  {
  }

  lemma InsertedPointed(t: seq<Node>, xs: seq<Entry>, e: Entry, ys: seq<Entry>)
    requires Inserted(xs, e, ys) && AllPointed(t, xs) && InUseNode(t, e.inode) && TypeTrue(t, e)
    ensures AllPointed(t, ys)
  {
    hide Down, InUseNode, TypeTrue;
    var k: nat :| k <= |xs| && ys == xs[..k] + [e] + xs[k..];
    InsertedPlaces(xs, e, ys, k);
  }

  /** Adding a new name for an unused inode keeps the names sound. */
  lemma AddedSound(t: seq<Node>, dir: nat, links: u16, e: Entry, ys: seq<Entry>, n: nat, x: Node)
    requires Sound(t) && MayAdd(t, dir, links, n, x) && e.inode == n && Honest(x.kind, e) && Inserted(t[dir - 1].names, e, ys)
    requires !NameIn(e.name, t[dir - 1].names)
    ensures Sound(Added(t, dir, links, ys, n, x))
  {
    hide Mentions, AllMentions, Distinct, Inserted, NameIn;
    var t' := Added(t, dir, links, ys, n, x);
    AddedPointed(t, dir, links, e, ys, n, x);
    InsertedDistinct(t[dir - 1].names, e, ys);
    forall i | 0 <= i < |t'| && t'[i].kind != Unused ensures t'[i].links == AllMentions(t', i + 1) {
      AddedMentions(t, dir, links, e, ys, n, x, i + 1);
    }
  }

  /* ---------- the operations ---------- */

  /** A directory none of whose blocks changed lists what it listed. */
  lemma KeptDir(L: Layout, blocks: seq<Block>, blocks': seq<Block>, ino: Inode, used: set<nat>)
    requires FileOk(L, blocks, ino, used) && Kept(L, blocks, blocks', ino) && |blocks'| == |blocks|
    ensures DirEntries(blocks', ino) == DirEntries(blocks, ino)
    ensures DirOk(blocks, ino) ==> DirOk(blocks', ino)
  {
    hide SectorsPerBlock, Canon, BlocksFor, Contents, Tiled, Listed;
    forall k | 0 <= k < 12 && ino.block[k] != 0 ensures BlockAt(blocks', ino.block[k]) == BlockAt(blocks, ino.block[k]) {
      assert At(blocks, ino, Direct(k)) == ino.block[k] && Live(L.entries, Spans(L, ino), Direct(k));
    }
    EntriesKept(blocks, blocks', ino, 0);
    if DirOk(blocks, ino) {
      DirOkKept(blocks, blocks', ino);
    }
  }

  lemma KeptNode(L: Layout, d: Disk, d': Disk, i: nat)
    requires Consistent(L, d) && i < |d.inodes| == |d'.inodes| && |d'.blocks| == |d.blocks| && d'.inodes[i] == d.inodes[i]
    requires d.inodes[i].kind != Unused ==> Kept(L, d.blocks, d'.blocks, d.inodes[i])
    ensures NodeOf(d'.blocks, d'.inodes[i]) == NodeOf(d.blocks, d.inodes[i])
    ensures d.inodes[i].kind == Directory && DirOk(d.blocks, d.inodes[i]) ==> DirOk(d'.blocks, d'.inodes[i])
  {
    hide FileOk, Kept, CountsOk, Separate, DirOk, DirEntries;
    if d.inodes[i].kind != Unused {
      KeptDir(L, d.blocks, d'.blocks, d.inodes[i], Used(L, d.blocks, d.descs));
    }
  }

  /** Writing or emptying a file does not touch any name. */
  lemma FileNames(L: Layout, d: Disk, d': Disk, number: nat)
    requires Consistent(L, d) && Consistent(L, d') && OthersKept(L, d, d', number) && 1 <= number <= |d.inodes|
    requires d.inodes[number - 1].kind == Regular == d'.inodes[number - 1].kind && d'.inodes[number - 1].links == d.inodes[number - 1].links
    ensures Nodes(d') == Nodes(d) && (NamesOk(d) ==> NamesOk(d'))
  {
    hide Consistent, Kept, DirOk, DirEntries, Sound;
    SameBlockCount(L, d, d');
    forall i | 0 <= i < |d.inodes| && i != number - 1
      ensures NodeOf(d'.blocks, d'.inodes[i]) == NodeOf(d.blocks, d.inodes[i])
      ensures d.inodes[i].kind == Directory && DirOk(d.blocks, d.inodes[i]) ==> DirOk(d'.blocks, d'.inodes[i])
    {
      KeptNode(L, d, d', i);
    }
  }

  lemma SameBlockCount(L: Layout, d: Disk, d': Disk)
    requires Consistent(L, d) && Consistent(L, d')
    ensures |d'.blocks| == |d.blocks|
  {
    hide FilesOk, DescriptorsOk, MetaUsed;
  }

  /** Creating a file under a new name keeps the names sound. */
  lemma CreateNames(L: Layout, d: Disk, d': Disk, dirNumber: nat, name: seq<byte>, number: u32)
    requires Consistent(L, d) && NamesOk(d) && Created(d, d', dirNumber, name, number)
    requires !NameIn(name, DirEntries(d.blocks, InodeAt(d, dirNumber)))
    ensures Consistent(L, d') && NamesOk(d')
  {
    hide Consistent, Kept, Contents, DirOk, DirEntries, Sound, Inserted, NameIn, OnlyBlock, FirstOf, Used;
    CreatedFile(L, d, d', dirNumber, name, number, name);
    SameBlockCount(L, d, d');
    forall i | 0 <= i < |d.inodes| && i != number - 1 && i != dirNumber - 1
      ensures NodeOf(d'.blocks, d'.inodes[i]) == NodeOf(d.blocks, d.inodes[i])
      ensures d.inodes[i].kind == Directory && DirOk(d.blocks, d.inodes[i]) ==> DirOk(d'.blocks, d'.inodes[i])
    {
      assert d'.inodes[i] == d.inodes[i];
      KeptNode(L, d, d', i);
    }
    var t, x := Nodes(d), Node(Regular, 1, []);
    var ys := DirEntries(d'.blocks, InodeAt(d', dirNumber));
    assert MayAdd(t, dirNumber, t[dirNumber - 1].links, number, x);
    AddedSound(t, dirNumber, t[dirNumber - 1].links, Entry(number, EXT2_FT_REG_FILE, name), ys, number, x);
    assert Nodes(d') == Added(t, dirNumber, t[dirNumber - 1].links, ys, number, x);
  }

  lemma DotsCounted(n: u32, dir: u32)
    requires n != dir
    ensures
      var dots := [Entry(n, EXT2_FT_DIR, DOT), Entry(dir, EXT2_FT_DIR, DOT_DOT)];
      Distinct(dots) && Mentions(dots, n) == 1 && Mentions(dots, dir) == 1
  {
    var dots := [Entry(n, EXT2_FT_DIR, DOT), Entry(dir, EXT2_FT_DIR, DOT_DOT)];
    OneMention(Entry(dir, EXT2_FT_DIR, DOT_DOT), n);
    OneMention(Entry(dir, EXT2_FT_DIR, DOT_DOT), dir);
    assert dots[1..] == [Entry(dir, EXT2_FT_DIR, DOT_DOT)];
    assert |DOT| != |DOT_DOT|;
  }

  /** So does making a directory: it has two links, and its parent one more. */
  lemma MkdirNames(L: Layout, d: Disk, d': Disk, dirNumber: u32, name: seq<byte>, number: u32)
    requires Consistent(L, d) && Consistent(L, d') && NamesOk(d) && MadeDirectory(L, d, d', dirNumber, name, number)
    requires InodeAt(d, dirNumber).kind == Directory && !NameIn(name, DirEntries(d.blocks, InodeAt(d, dirNumber)))
    ensures NamesOk(d')
  {
    hide Consistent, Kept, Contents, DirOk, DirEntries, Sound, Inserted, NameIn, Used, Distinct, Mentions;
    SameBlockCount(L, d, d');
    forall i | 0 <= i < |d.inodes| && i != number - 1 && i != dirNumber - 1
      ensures NodeOf(d'.blocks, d'.inodes[i]) == NodeOf(d.blocks, d.inodes[i])
      ensures d.inodes[i].kind == Directory && DirOk(d.blocks, d.inodes[i]) ==> DirOk(d'.blocks, d'.inodes[i])
    {
      KeptNode(L, d, d', i);
    }
    DotsCounted(number, dirNumber);
    var t, dots := Nodes(d), [Entry(number, EXT2_FT_DIR, DOT), Entry(dirNumber, EXT2_FT_DIR, DOT_DOT)];
    var x, ys := Node(Directory, 2, dots), DirEntries(d'.blocks, InodeAt(d', dirNumber));
    var links := t[dirNumber - 1].links + 1;
    assert MayAdd(t, dirNumber, links, number, x);
    AddedSound(t, dirNumber, links, Entry(number, EXT2_FT_DIR, name), ys, number, x);
    assert Nodes(d') == Added(t, dirNumber, links, ys, number, x);
  }

  /* ---------- what it means for lookups ---------- */

  /** Looking up what a directory lists gives the listed inode, which is in use:
      listing and lookup agree. */
  lemma ListingResolves(d: Disk, i: nat, k: nat)
    requires NamesOk(d) && i < |d.inodes| && d.inodes[i].kind == Directory && k < |DirEntries(d.blocks, d.inodes[i])|
    ensures
      var xs := DirEntries(d.blocks, d.inodes[i]);
      FirstOf(xs[k].name, xs) == xs[k].inode && 1 <= xs[k].inode <= |d.inodes| && d.inodes[xs[k].inode - 1].kind != Unused
  {
    hide DirOk, AllMentions, FirstOf, DirFrom, Distinct;
    var t, xs := Nodes(d), DirEntries(d.blocks, d.inodes[i]);
    assert t[i].names == xs;
    DirFromLive(d.blocks, d.inodes[i], 0);
    ListedAreFound(xs, xs[k].name);
    assert AllPointed(t, t[i].names) && InUseNode(t, t[i].names[k].inode);
  }

  /** Every entry is listed with the type of the inode it stands for. */
  lemma ListedKinds(d: Disk, i: nat, names: seq<Dirent>)
    requires NamesOk(d) && i < |d.inodes| && d.inodes[i].kind == Directory
    requires names == AllShown(d.inodes, DirEntries(d.blocks, d.inodes[i]))
    ensures Typed(d.inodes, DirEntries(d.blocks, d.inodes[i]))
    ensures forall k :: 0 <= k < |names| ==>
              1 <= names[k].inode <= |d.inodes| && names[k].kind == d.inodes[names[k].inode - 1].kind != Unused
  {
    hide DirOk, AllMentions, DirFrom, Distinct;
    var t, xs := Nodes(d), DirEntries(d.blocks, d.inodes[i]);
    assert t[i].names == xs && AllPointed(t, t[i].names);
    forall k | 0 <= k < |xs| ensures 1 <= xs[k].inode <= |d.inodes| && TypeOf(d.inodes, xs[k]) == d.inodes[xs[k].inode - 1].kind != Unused {
      assert InUseNode(t, t[i].names[k].inode) && TypeTrue(t, t[i].names[k]);
    }
  }

  /** An entry put into a directory is listed with its inode, its inode's type
      and its name. */
  lemma InsertedListed(d': Disk, dir: nat, xs: seq<Entry>, e: Entry)
    requires NamesOk(d') && 1 <= dir <= |d'.inodes| && d'.inodes[dir - 1].kind == Directory
    requires Inserted(xs, e, DirEntries(d'.blocks, d'.inodes[dir - 1]))
    ensures 1 <= e.inode <= |d'.inodes|
    ensures Dirent(e.inode, d'.inodes[e.inode - 1].kind, e.name)
            in AllShown(d'.inodes, DirEntries(d'.blocks, d'.inodes[dir - 1]))
  {
    hide NamesOk, DirEntries, TypeOf;
    var ys := DirEntries(d'.blocks, d'.inodes[dir - 1]);
    var k: nat :| k <= |xs| && ys == xs[..k] + [e] + xs[k..];
    assert ys[k] == e;
    var names := AllShown(d'.inodes, ys);
    ListedKinds(d', dir - 1, names);
    assert names[k] == Dirent(e.inode, d'.inodes[e.inode - 1].kind, e.name);
  }

  /** So a file just created is listed as a regular file. */
  lemma CreatedIsListed(L: Layout, d: Disk, d': Disk, dirNumber: nat, name: seq<byte>, number: u32)
    requires Consistent(L, d) && NamesOk(d) && Created(d, d', dirNumber, name, number)
    requires !NameIn(name, DirEntries(d.blocks, InodeAt(d, dirNumber)))
    ensures Dirent(number, Regular, name) in AllShown(d'.inodes, DirEntries(d'.blocks, InodeAt(d', dirNumber)))
  {
    hide Consistent, NamesOk, DirEntries, AllShown, NameIn, Inserted;
    CreateNames(L, d, d', dirNumber, name, number);
    InsertedListed(d', dirNumber, DirEntries(d.blocks, InodeAt(d, dirNumber)), Entry(number, EXT2_FT_REG_FILE, name));
  }

  /** And a directory just made as a directory. */
  lemma MadeIsListed(L: Layout, d: Disk, d': Disk, dirNumber: u32, name: seq<byte>, number: u32)
    requires Consistent(L, d) && Consistent(L, d') && NamesOk(d) && MadeDirectory(L, d, d', dirNumber, name, number)
    requires InodeAt(d, dirNumber).kind == Directory && !NameIn(name, DirEntries(d.blocks, InodeAt(d, dirNumber)))
    ensures Dirent(number, Directory, name) in AllShown(d'.inodes, DirEntries(d'.blocks, InodeAt(d', dirNumber)))
  {
    hide Consistent, NamesOk, DirEntries, AllShown, NameIn, Inserted;
    MkdirNames(L, d, d', dirNumber, name, number);
    InsertedListed(d', dirNumber, DirEntries(d.blocks, InodeAt(d, dirNumber)), Entry(number, EXT2_FT_DIR, name));
  }

  /** So a name is either free or taken by an inode in use, the two cases in
      which the outcome of create and mkdir is known. */
  lemma FreeOrInUse(d: Disk, i: nat, name: seq<byte>)
    requires NamesOk(d) && i < |d.inodes| && d.inodes[i].kind == Directory && !NameFree(d, d.inodes[i], name)
    ensures
      var n := FirstOf(name, DirEntries(d.blocks, d.inodes[i]));
      1 <= n <= |d.inodes| && d.inodes[n - 1].kind != Unused
  {
    hide NamesOk, DirEntries;
    var xs := DirEntries(d.blocks, d.inodes[i]);
    var k :| 0 <= k < |xs| && xs[k].name == name;
    ListingResolves(d, i, k);
  }
}
