/** A mounted volume under any sequence of requests. */
module Ext2Run {
  import opened Machine
  import opened Ext2Blocks
  import opened Ext2Tree
  import opened Ext2Bitmap
  import opened Ext2Cache
  import opened Ext2Grow
  import opened Ext2Content
  import opened Ext2Consistent
  import opened Ext2Volume
  import opened Ext2Map
  import opened Ext2File
  import opened Ext2Truncate
  import opened Ext2Records
  import opened Ext2Dir
  import opened Ext2Link
  import opened Ext2Inodes
  import opened Ext2Create
  import opened Ext2Mkdir
  import opened Ext2Names

  datatype Request =
    | WriteFile(number: nat, offset: nat, data: seq<byte>)
    | EmptyFile(number: nat)
    | CreateFile(dir: nat, name: seq<byte>)
    | MakeDirectory(parent: u32, name: seq<byte>)

  /** Done, refused with nothing changed, or given up on the way. */
  datatype Outcome = Done | Refusal | GivenUp

  /** File number n was rewritten: no other inode, name or link count changed. */
  ghost predicate Rewritten(L: Layout, d: Disk, d': Disk, n: nat) {
    && OthersKept(L, d, d', n) && 1 <= n <= |d.inodes|
    && InodeAt(d, n).kind == Regular == InodeAt(d', n).kind && InodeAt(d', n).links == InodeAt(d, n).links
  }

  ghost function BytesOf(L: Layout, d: Disk, n: nat): seq<byte> {
    Contents(L.entries, d.blocks, InodeAt(d, n))
  }

  ghost predicate FileWritten(L: Layout, d: Disk, d': Disk, n: nat, offset: nat, data: seq<byte>) {
    && Rewritten(L, d, d', n)
    && (if data == [] then BytesOf(L, d', n) == BytesOf(L, d, n)
        else offset <= |BytesOf(L, d, n)| && BytesOf(L, d', n) == Spliced(BytesOf(L, d, n), offset, data))
  }

  ghost predicate FileEmptied(L: Layout, d: Disk, d': Disk, n: nat) {
    Rewritten(L, d, d', n) && BytesOf(L, d', n) == []
  }

  predicate FreeIn(d: Disk, dir: nat, name: seq<byte>) {
    NameFree(d, InodeAt(d, dir), name)
  }

  ghost predicate FileCreated(d: Disk, d': Disk, dir: nat, name: seq<byte>) {
    FreeIn(d, dir, name) && exists number: u32 :: Created(d, d', dir, name, number)
  }

  ghost predicate DirectoryMade(L: Layout, d: Disk, d': Disk, parent: u32, name: seq<byte>) {
    FreeIn(d, parent, name) && exists number: u32 :: MadeDirectory(L, d, d', parent, name, number)
  }

  /** What a request that is done has done. */
  ghost predicate Effect(L: Layout, d: Disk, d': Disk, r: Request) {
    match r
    case WriteFile(number, offset, data) => FileWritten(L, d, d', number, offset, data)
    case EmptyFile(number) => FileEmptied(L, d, d', number)
    case CreateFile(dir, name) => FileCreated(d, d', dir, name)
    case MakeDirectory(parent, name) => DirectoryMade(L, d, d', parent, name)
  }

  predicate IsFile(d: Disk, n: nat) {
    1 <= n <= |d.inodes| && d.inodes[n - 1].kind == Regular
  }

  predicate IsDirectory(d: Disk, n: nat) {
    1 <= n <= |d.inodes| && d.inodes[n - 1].kind == Directory
  }

  /** A request that is turned down before anything is written. */
  ghost predicate TurnedDown(L: Layout, d: Disk, r: Request) {
    match r
    case WriteFile(n, offset, data) => !IsFile(d, n) || (data != [] && Refused(L.entries, InodeAt(d, n).size, offset, |data|))
    case EmptyFile(n) => !IsFile(d, n)
    case CreateFile(dir, name) => !IsDirectory(d, dir) || !FreeIn(d, dir, name)
    case MakeDirectory(parent, name) => !IsDirectory(d, parent) || !FreeIn(d, parent, name)
  }

  /** Why a request cannot be done although the device works, apart from a
      volume that fills up under a write: it is turned down, the file is mapped
      through the third table, the name is not proper, no inode or no block is
      free, no record has room, or a count is at its limit. */
  ghost predicate Blocked(L: Layout, d: Disk, groups: seq<InodeGroup>, perGroup: pos, first: nat, r: Request) {
    || TurnedDown(L, d, r)
    || match r
       case WriteFile(_, _, _) => false
       case EmptyFile(n) => InodeAt(d, n).block[14] != 0
       case CreateFile(dir, name) =>
         || !(1 <= |name| <= 255) || NoneFree(groups, perGroup, |d.inodes|, first)
         || !DirHasRoom(d.blocks, InodeAt(d, dir), EntrySize(|name|))
       case MakeDirectory(parent, name) => Refuses(d, d.free, groups, perGroup, first, parent, name)
  }

  /** Likewise with what is free in the end. */
  ghost predicate Hindered(L: Layout, d: Disk, groups: seq<InodeGroup>, perGroup: pos, first: nat, r: Request, free: nat) {
    Blocked(L, d, groups, perGroup, first, r) || (r.WriteFile? && r.data != [] && free == 0)
  }

  /** A volume at rest whose name space is sound. */
  ghost predicate Healthy(fs: Volume, maps: InodeMaps)
    reads fs, maps, maps.fs
  {
    AtRest(fs, maps) && NamesOk(fs.disk) && BlockSizeOk(fs.L)
  }

  /** A file's record changed and its kind did not. */
  lemma StillAtRest(fs: Volume, maps: InodeMaps, d: Disk, n: nat)
    requires Consistent(fs.L, d) && Consistent(fs.L, fs.disk) && NamesOk(d) && Rewritten(fs.L, d, fs.disk, n)
    requires maps.fs == fs && InodesOk(maps.groups, maps.perGroup, d.inodes, maps.free)
    ensures maps.Valid() && NamesOk(fs.disk) && |fs.disk.inodes| == |d.inodes|
  {
    hide Consistent, NamesOk, InodesOk, Kept, Nodes;
    FileNames(fs.L, d, fs.disk, n);
    SameKinds(maps.groups, maps.perGroup, d.inodes, fs.disk.inodes, maps.free);
  }

  /** Opens file number n, if it is a regular file. */
  method OpenFile(fs: Volume, n: nat) returns (ok: bool, node: Vnode?)
    requires Consistent(fs.L, fs.disk) && fs.free == fs.disk.free
    modifies fs`failed
    ensures ok ==> node != null && fresh(node) && fresh(node.cache) && node.fs == fs && node.number == n
    ensures ok ==> Open(node) && fs.failed == old(fs.failed) && IsFile(fs.disk, n) && node.inode == fs.disk.inodes[n - 1]
    ensures !ok && !fs.failed ==> !IsFile(fs.disk, n)
  {
    hide Consistent, Spans;
    node := null;
    var ino: Inode;
    ok, ino := fs.ReadInode(n);
    if !ok || !ino.kind.Regular? {
      return false, null;
    }
    node := new Vnode(fs, n, ino, Spans(fs.L, ino));
    NowOpen(node);
  }

  method PerformWrite(fs: Volume, maps: InodeMaps, n: nat, offset: nat, data: seq<byte>) returns (ok: bool)
    requires Healthy(fs, maps)
    modifies fs
    ensures ok ==> Healthy(fs, maps) && FileWritten(fs.L, old(fs.disk), fs.disk, n, offset, data)
    ensures TurnedDown(fs.L, old(fs.disk), WriteFile(n, offset, data)) ==> !ok && (fs.failed || (fs.disk == old(fs.disk) && fs.free == old(fs.free)))
    ensures !ok && !fs.failed ==> TurnedDown(fs.L, old(fs.disk), WriteFile(n, offset, data)) || (data != [] && fs.free == 0)
  {
    hide Consistent, NamesOk, InodesOk, OthersKept, Contents, Spans, Spliced, UsedGrew, Mapped, Refused;
    ghost var d := fs.disk;
    var node: Vnode?;
    ok, node := OpenFile(fs, n);
    if !ok {
      return;
    }
    var written: nat;
    ok, written := Write(node, offset, data);
    if ok {
      StillAtRest(fs, maps, d, n);
    }
  }

  method PerformTruncate(fs: Volume, maps: InodeMaps, n: nat) returns (ok: bool)
    requires Healthy(fs, maps)
    modifies fs
    ensures ok ==> Healthy(fs, maps) && FileEmptied(fs.L, old(fs.disk), fs.disk, n)
    ensures !IsFile(old(fs.disk), n) ==> !ok && fs.disk == old(fs.disk) && fs.free == old(fs.free)
    ensures !ok && !fs.failed ==> !IsFile(old(fs.disk), n) || InodeAt(old(fs.disk), n).block[14] != 0
  {
    hide Consistent, NamesOk, InodesOk, OthersKept, Contents, Spans, Used, LiveOf, Mapped;
    ghost var d := fs.disk;
    var node: Vnode?;
    ok, node := OpenFile(fs, n);
    if !ok {
      return;
    }
    ok := Truncate(node, 0);
    if ok {
      StillAtRest(fs, maps, d, n);
    }
  }

  lemma DirectoryOk(d: Disk, dir: nat)
    requires NamesOk(d) && 1 <= dir <= |d.inodes| && d.inodes[dir - 1].kind == Directory
    ensures Current(d, dir, d.inodes[dir - 1]) && DirOk(d.blocks, d.inodes[dir - 1])
  {
    hide DirOk, Nodes;
  }

  method PerformCreate(fs: Volume, maps: InodeMaps, dir: nat, name: seq<byte>) returns (ok: bool)
    requires Healthy(fs, maps)
    modifies fs, maps`groups, maps`free
    ensures ok && !fs.failed ==> Healthy(fs, maps) && FileCreated(old(fs.disk), fs.disk, dir, name)
    ensures fs.free == old(fs.free)
    ensures TurnedDown(fs.L, old(fs.disk), CreateFile(dir, name)) && !fs.failed ==>
              !ok && fs.disk == old(fs.disk) && maps.groups == old(maps.groups) && maps.free == old(maps.free)
    ensures !ok && !fs.failed ==> Blocked(fs.L, old(fs.disk), old(maps.groups), maps.perGroup, maps.firstUsable, CreateFile(dir, name))
  {
    hide Consistent, NamesOk, InodesOk, DirOk, Created, NameIn, DirEntries, FirstOf, NoneFree, DirHasRoom;
    ghost var d := fs.disk;
    var ino: Inode;
    ok, ino := fs.ReadInode(dir);
    if !ok || ino.kind != Directory {
      return false;
    }
    DirectoryOk(d, dir);
    if !NameFree(d, ino, name) {
      FreeOrInUse(d, dir - 1, name);
    }
    var number: u32;
    ok, number := Create(fs, maps, dir, ino, name);
    if ok && NameFree(d, ino, name) {
      CreateNames(fs.L, d, fs.disk, dir, name, number);
    }
  }

  method PerformMkdir(fs: Volume, maps: InodeMaps, dir: u32, name: seq<byte>) returns (ok: bool)
    requires Healthy(fs, maps)
    modifies fs, maps`groups, maps`free
    ensures ok && !fs.failed ==> Healthy(fs, maps) && DirectoryMade(fs.L, old(fs.disk), fs.disk, dir, name)
    ensures TurnedDown(fs.L, old(fs.disk), MakeDirectory(dir, name)) && !fs.failed ==>
              !ok && fs.disk == old(fs.disk) && fs.free == old(fs.free) && maps.groups == old(maps.groups) && maps.free == old(maps.free)
    ensures !ok && !fs.failed ==> Blocked(fs.L, old(fs.disk), old(maps.groups), maps.perGroup, maps.firstUsable, MakeDirectory(dir, name))
  {
    hide Consistent, NamesOk, InodesOk, DirOk, MadeDirectory, NameIn, DirEntries, FirstOf, Refuses, DirCounted;
    ghost var d := fs.disk;
    var ino: Inode;
    ok, ino := fs.ReadInode(dir);
    if !ok || ino.kind != Directory {
      return false;
    }
    DirectoryOk(d, dir);
    if !NameFree(d, ino, name) {
      FreeOrInUse(d, dir - 1, name);
    }
    var number: u32;
    ok, number := Mkdir(fs, maps, dir, ino, name);
    if ok && NameFree(d, ino, name) {
      MkdirNames(fs.L, d, fs.disk, dir, name, number);
    }
  }

  /** One request. A request that failed and left volume and maps as they were
      counts as refused; any other failure ends the run. */
  method Perform(fs: Volume, maps: InodeMaps, r: Request) returns (outcome: Outcome)
    requires Healthy(fs, maps) && !fs.failed
    modifies fs, maps`groups, maps`free
    ensures outcome != GivenUp ==> Healthy(fs, maps) && !fs.failed
    ensures outcome == Done ==> Effect(fs.L, old(fs.disk), fs.disk, r)
    ensures outcome == Refusal ==> fs.disk == old(fs.disk) && maps.groups == old(maps.groups)
    ensures outcome == Done || fs.failed || Hindered(fs.L, old(fs.disk), old(maps.groups), maps.perGroup, maps.firstUsable, r, fs.free)
    ensures TurnedDown(fs.L, old(fs.disk), r) ==> outcome == Refusal || fs.failed
  {
    hide Consistent, NamesOk, InodesOk, FileWritten, FileEmptied, FileCreated, DirectoryMade, Refused, Refuses, NoneFree, DirHasRoom, FreeIn;
    var disk, free, groups, freeInodes := fs.disk, fs.free, maps.groups, maps.free;
    var ok: bool;
    match r {
      case WriteFile(number, offset, data) =>
        ok := PerformWrite(fs, maps, number, offset, data);
      case EmptyFile(number) =>
        ok := PerformTruncate(fs, maps, number);
      case CreateFile(dir, name) =>
        ok := PerformCreate(fs, maps, dir, name);
      case MakeDirectory(parent, name) =>
        ok := PerformMkdir(fs, maps, parent, name);
    }
    if fs.failed {
      return GivenUp;
    }
    if ok {
      return Done;
    }
    var same := fs.disk == disk && fs.free == free && maps.groups == groups && maps.free == freeInodes;
    return if same then Refusal else GivenUp;
  }

  /** The volume and the inode bitmaps between two requests. */
  datatype Moment = Moment(disk: Disk, groups: seq<InodeGroup>)

  /** From one moment to the next a request was done, or refused for a reason
      and with nothing changed. */
  ghost predicate StepOk(L: Layout, perGroup: pos, first: nat, m: Moment, m': Moment, r: Request, outcome: Outcome) {
    match outcome
    case Done => Effect(L, m.disk, m'.disk, r) && !TurnedDown(L, m.disk, r)
    case Refusal => m' == m && Hindered(L, m.disk, m.groups, perGroup, first, r, m.disk.free)
    case GivenUp => false
  }

  ghost predicate MomentOk(L: Layout, m: Moment) {
    Consistent(L, m.disk) && NamesOk(m.disk)
  }

  /** Requests one after the other, until one is given up. trace has the volume
      before the first and after each that was not: each of these volumes is
      consistent and its name space sound, and each step is what was asked for,
      or nothing and for a reason. A run ends early only when the device failed
      or there was a reason not to do the next request. */
  method Run(fs: Volume, maps: InodeMaps, requests: seq<Request>) returns (outcomes: seq<Outcome>, ghost trace: seq<Moment>)
    requires Healthy(fs, maps) && !fs.failed
    modifies fs, maps`groups, maps`free
    ensures |outcomes| <= |requests| && |trace| == |outcomes| + 1 && trace[0] == Moment(old(fs.disk), old(maps.groups))
    ensures |outcomes| == |requests| ==> Healthy(fs, maps) && Moment(fs.disk, maps.groups) == trace[|outcomes|]
    ensures |outcomes| < |requests| ==>
              var m := trace[|outcomes|];
              fs.failed || Hindered(fs.L, m.disk, m.groups, maps.perGroup, maps.firstUsable, requests[|outcomes|], fs.free)
    ensures forall k :: 0 <= k < |trace| ==> Consistent(fs.L, trace[k].disk) && NamesOk(trace[k].disk)
    ensures forall k :: 0 <= k < |outcomes| ==>
              StepOk(fs.L, maps.perGroup, maps.firstUsable, trace[k], trace[k + 1], requests[k], outcomes[k])
  {
    hide Consistent, NamesOk, InodesOk, StepOk, Hindered, TurnedDown, MomentOk, Effect;
    outcomes, trace := [], [Moment(fs.disk, maps.groups)];
    NowOk(fs.L, trace[0]);
    while |outcomes| < |requests|
      invariant |outcomes| <= |requests| && |trace| == |outcomes| + 1 && trace[0] == Moment(old(fs.disk), old(maps.groups))
      invariant Healthy(fs, maps) && !fs.failed && Moment(fs.disk, maps.groups) == trace[|outcomes|]
      invariant forall k :: 0 <= k < |trace| ==> MomentOk(fs.L, trace[k])
      invariant forall k :: 0 <= k < |outcomes| ==>
                  StepOk(fs.L, maps.perGroup, maps.firstUsable, trace[k], trace[k + 1], requests[k], outcomes[k])
      decreases |requests| - |outcomes|
    {
      ghost var m := trace[|outcomes|];
      var r := requests[|outcomes|];
      var outcome := Perform(fs, maps, r);
      if outcome == GivenUp {
        AllOk(fs.L, trace);
        return;
      }
      ghost var m' := Moment(fs.disk, maps.groups);
      NowOk(fs.L, m');
      StepTaken(fs.L, maps.perGroup, maps.firstUsable, m, m', r, outcome);
      outcomes, trace := outcomes + [outcome], trace + [m'];
    }
    AllOk(fs.L, trace);
  }

  lemma NowOk(L: Layout, m: Moment)
    requires Consistent(L, m.disk) && NamesOk(m.disk)
    ensures MomentOk(L, m)
  {
  }

  lemma AllOk(L: Layout, trace: seq<Moment>)
    requires forall k :: 0 <= k < |trace| ==> MomentOk(L, trace[k])
    ensures forall k :: 0 <= k < |trace| ==> Consistent(L, trace[k].disk) && NamesOk(trace[k].disk)
  {
    hide Consistent, NamesOk;
  }

  lemma StepTaken(L: Layout, perGroup: pos, first: nat, m: Moment, m': Moment, r: Request, outcome: Outcome)
    requires outcome != GivenUp
    requires outcome == Done ==> Effect(L, m.disk, m'.disk, r) && !TurnedDown(L, m.disk, r)
    requires outcome == Refusal ==> m' == m && Hindered(L, m.disk, m.groups, perGroup, first, r, m.disk.free)
    ensures StepOk(L, perGroup, first, m, m', r, outcome)
  {
    hide Hindered, TurnedDown, Effect;
  }

  /* ---------- a small volume ---------- */

  /** Five blocks of 512 bytes: superblock, bitmap, the root directory's block
      and two free ones. */
  const SMALL := Layout(128, 0, 5, 5, {0, 1})

  function FirstBits(bits: byte): (b: Block)
    ensures |b| == 512
  {
    seq<byte>(512, i => if i == 0 then bits else 0)
  }

  /** The root directory is inode 1, and inode 2 is not in use. */
  function SmallDisk(): Disk {
    Disk([ZeroBytes(512), FirstBits(7), DotBlock(512, 1, 1), ZeroBytes(512), ZeroBytes(512)],
         [Descriptor(1, 2)],
         [InodeRecord(Directory, 512, 1, 2, NO_BLOCKS[0 := 2]), InodeRecord(Unused, 0, 0, 0, NO_BLOCKS)],
         2)
  }

  const SMALL_GROUPS := [InodeGroup(FirstBits(1), 1, 1)]

  lemma SmallBits()
    ensures forall i: nat :: i < 5 ==> (Bit(FirstBits(7), i) <==> i < 3)
    ensures ClearBits(FirstBits(7), 5) == 2 && ClearBits(FirstBits(1), 2) == 1 && Bit(FirstBits(1), 0)
  {
    var b, c := FirstBits(7), FirstBits(1);
    assert TestMask(7, 0) && TestMask(7, 1) && TestMask(7, 2) && !TestMask(7, 3) && !TestMask(7, 4);
    assert Bit(b, 0) && Bit(b, 1) && Bit(b, 2) && !Bit(b, 3) && !Bit(b, 4);
    assert Bit(c, 0) && !Bit(c, 1);
    assert ClearBits(b, 3) == 0 && ClearBits(b, 4) == 1;
    assert ClearBits(c, 1) == 0;
  }

  lemma SmallUsed()
    ensures GroupsOk(SMALL, SmallDisk().blocks, SmallDisk().descs)
    ensures Used(SMALL, SmallDisk().blocks, SmallDisk().descs) == {0, 1, 2}
  {
    hide FirstBits, Bit, DotBlock, ZeroBytes;
    SmallBits();
    var d := SmallDisk();
    assert Bitmap(d.blocks, d.descs, 0) == FirstBits(7);
    forall b: nat | b < 5 ensures UsedBit(SMALL, d.blocks, d.descs, b) <==> b < 3 {
      assert GroupOf(SMALL, b) == 0 && BitOf(SMALL, b) == b;
    }
  }

  lemma SmallSums()
    ensures SumsOk(SMALL)
  {
  }

  lemma SmallCounts()
    ensures CountsOk(SMALL, SmallDisk().blocks, SmallDisk().descs, SmallDisk().free)
  {
    hide FirstBits, Bit, DotBlock, ZeroBytes, Used, GroupsOk, ClearBits, GroupSize;
    SmallBits();
    SmallUsed();
    SmallGroup();
    var d := SmallDisk();
    assert Bitmap(d.blocks, d.descs, 0) == FirstBits(7);
    assert d.descs[..0] == [];
  }

  lemma SmallGroup()
    ensures GroupSize(SMALL, 0) == 5
  {
  }

  lemma SmallFiles()
    ensures FilesOk(SMALL, SmallDisk().blocks, SmallDisk().inodes, {0, 1, 2})
  {
    hide FirstBits, DotBlock, ZeroBytes, Canon, BlocksFor, SectorsPerBlock, Blocks;
    var d := SmallDisk();
    var root := d.inodes[0];
    OneBlock(128);
    assert forall s :: InTree(128, s) ==> At(d.blocks, root, s) == if s == Direct(0) then 2 else 0;
    assert FileOk(SMALL, d.blocks, root, {0, 1, 2});
  }

  lemma SmallNames()
    ensures NamesOk(SmallDisk())
  {
    hide FirstBits, DotBlock, ZeroBytes, DirEntries, DirOk, DotsOnly;
    var d := SmallDisk();
    var t, dots := Nodes(d), [Entry(1, EXT2_FT_DIR, DOT), Entry(1, EXT2_FT_DIR, DOT_DOT)];
    DotsThere(SMALL, d.blocks, d.inodes[0], 2, 1, 1);
    RootNode(d, dots);
    assert t == [Node(Directory, 2, dots), Node(Unused, 0, [])];
    RootSound(dots);
  }

  lemma RootNode(d: Disk, dots: seq<Entry>)
    requires |d.inodes| >= 1 && DotsOnly(d.blocks, d.inodes[0], 1, 1) && dots == [Entry(1, EXT2_FT_DIR, DOT), Entry(1, EXT2_FT_DIR, DOT_DOT)]
    ensures DirOk(d.blocks, d.inodes[0]) && DirEntries(d.blocks, d.inodes[0]) == dots
  {
  }

  lemma RootSound(dots: seq<Entry>)
    requires dots == [Entry(1, EXT2_FT_DIR, DOT), Entry(1, EXT2_FT_DIR, DOT_DOT)]
    ensures Sound([Node(Directory, 2, dots), Node(Unused, 0, [])])
  {
    var t := [Node(Directory, 2, dots), Node(Unused, 0, [])];
    OneMention(dots[1], 1);
    assert dots[1..] == [dots[1]] && Mentions(dots, 1) == 2;
    assert t[1..] == [Node(Unused, 0, [])] && t[1..][1..] == [];
    assert AllMentions(t[1..], 1) == 0;
    assert |DOT| != |DOT_DOT|;
  }

  lemma SmallInodes()
    ensures InodesOk(SMALL_GROUPS, 2, SmallDisk().inodes, 1)
  {
    hide FirstBits, Bit, ClearBits, DotBlock, ZeroBytes;
    SmallBits();
    assert SMALL_GROUPS[..0] == [];
    assert InodesIn(2, 2, 0) == 2;
  }

  /** Everything that is asked of a volume can be met. */
  lemma SmallConsistent()
    ensures Consistent(SMALL, SmallDisk()) && NamesOk(SmallDisk()) && InodesOk(SMALL_GROUPS, 2, SmallDisk().inodes, 1)
  {
    hide SmallDisk, CountsOk, FilesOk, NamesOk, InodesOk, SumsOk;
    SmallSums();
    SmallCounts();
    SmallUsed();
    SmallFiles();
    SmallNames();
    SmallInodes();
  }

  /** A volume to start a run with. */
  method SmallVolume() returns (fs: Volume, maps: InodeMaps)
    ensures fresh(fs) && fresh(maps) && Healthy(fs, maps) && !fs.failed
  {
    hide Consistent, NamesOk, InodesOk, DotBlock, FirstBits, ZeroBytes;
    SmallConsistent();
    fs := new Volume(SMALL, SmallDisk());
    maps := new InodeMaps(fs, 2, 1, SMALL_GROUPS, 1);
  }
}
