/** Directories: looking a name up, adding a name, listing the names. */
module Ext2Dir {
  import opened Machine
  import opened Ext2Blocks
  import opened Ext2Tree
  import opened Ext2Bitmap
  import opened Ext2Content
  import opened Ext2Volume
  import opened Ext2Records

  /** The inode of the first entry with this name, 0 for none. */
  function FirstOf(name: seq<byte>, xs: seq<Entry>): (n: u32)
    ensures n != 0 ==> NameIn(name, xs)
  {
    if xs == [] then 0 else if xs[0].name == name then xs[0].inode else FirstOf(name, xs[1..])
  }

  /** The first entry with the name decides. */
  lemma {:induction false} FirstDecides(name: seq<byte>, xs: seq<Entry>, i: nat)
    requires i < |xs| && xs[i].name == name && forall j :: 0 <= j < i ==> xs[j].name != name
    ensures FirstOf(name, xs) == xs[i].inode
  {
    if i > 0 {
      FirstDecides(name, xs[1..], i - 1);
    }
  }

  /** No listed entry has inode number 0. */
  predicate AllLive(xs: seq<Entry>) {
    forall i :: 0 <= i < |xs| ==> xs[i].inode != 0
  }

  lemma {:induction false} ListedLive(b: Block, off: nat)
    ensures AllLive(Listed(b, off))
    decreases |b| - off
  {
    hide Half, RecName, RecNameLength;
    if RecordOk(b, off) {
      ListedLive(b, off + RecLength(b, off));
    }
  }

  lemma {:induction false} FirstOfSplit(name: seq<byte>, xs: seq<Entry>, ys: seq<Entry>)
    requires AllLive(xs)
    ensures FirstOf(name, xs + ys) == if NameIn(name, xs) then FirstOf(name, xs) else FirstOf(name, ys)
    ensures NameIn(name, xs) ==> FirstOf(name, xs) != 0
    ensures NameIn(name, xs + ys) <==> NameIn(name, xs) || NameIn(name, ys)
  {
    NameInSplit(name, xs, ys);
    if xs == [] {
      assert xs + ys == ys;
    } else {
      assert (xs + ys)[1..] == xs[1..] + ys;
      FirstOfSplit(name, xs[1..], ys);
      NameInSplit(name, [xs[0]], xs[1..]);
      assert [xs[0]] + xs[1..] == xs;
    }
  }

  lemma NameInSplit(name: seq<byte>, xs: seq<Entry>, ys: seq<Entry>)
    ensures NameIn(name, xs + ys) <==> NameIn(name, xs) || NameIn(name, ys)
  {
    if NameIn(name, xs) {
      var i :| 0 <= i < |xs| && xs[i].name == name;
      assert (xs + ys)[i].name == name;
    }
    if NameIn(name, ys) {
      var i :| 0 <= i < |ys| && ys[i].name == name;
      assert (xs + ys)[|xs| + i].name == name;
    }
  }

  /** Adding a new name: it is found, and every other name is found as before. */
  lemma InsertedFirst(xs: seq<Entry>, e: Entry, ys: seq<Entry>, name: seq<byte>)
    requires Inserted(xs, e, ys) && AllLive(xs) && e.inode != 0 && !NameIn(e.name, xs)
    ensures AllLive(ys)
    ensures FirstOf(name, ys) == if name == e.name then e.inode else FirstOf(name, xs)
  {
    hide FirstOf, NameIn;
    var i :| 0 <= i <= |xs| && ys == xs[..i] + [e] + xs[i..];
    var head, tail := xs[..i], xs[i..];
    assert xs == head + tail && ys == head + ([e] + tail);
    FirstOfSplit(name, head, tail);
    FirstOfSplit(name, head, [e] + tail);
    FirstOfSplit(name, [e], tail);
    FirstOfOne(name, e);
    NameInSplit(e.name, head, tail);
  }

  predicate Distinct(xs: seq<Entry>) {
    forall i, j :: 0 <= i < |xs| && 0 <= j < |xs| && xs[i].name == xs[j].name ==> i == j
  }

  /** Where position i moves when position k is filled, and back. */
  function Up(k: nat, i: nat): nat {
    if i < k then i else i + 1
  }

  function Down(k: nat, j: nat): nat {
    if j < k || j == 0 then j else j - 1
  }

  lemma DistinctBefore(xs: seq<Entry>, e: Entry, ys: seq<Entry>, k: nat)
    requires k <= |xs| && |ys| == |xs| + 1 && ys[k] == e && Distinct(ys)
    requires forall i: nat :: i < |xs| ==> ys[Up(k, i)] == xs[i]
    ensures Distinct(xs) && !NameIn(e.name, xs)
  {
    forall i: nat, j: nat | i < |xs| && j < |xs| && xs[i].name == xs[j].name ensures i == j {
      assert ys[Up(k, i)].name == ys[Up(k, j)].name;
    }
    forall i: nat | i < |xs| ensures xs[i].name != e.name {
      assert ys[Up(k, i)] == xs[i] && Up(k, i) != k;
    }
  }

  lemma DistinctAfter(xs: seq<Entry>, e: Entry, ys: seq<Entry>, k: nat)
    requires k <= |xs| && |ys| == |xs| + 1 && ys[k] == e && Distinct(xs) && !NameIn(e.name, xs)
    requires forall j: nat :: j < |ys| && j != k ==> ys[j] == xs[Down(k, j)]
    ensures Distinct(ys)
  {
    forall i: nat, j: nat | i < |ys| && j < |ys| && ys[i].name == ys[j].name ensures i == j {
      if i != k {
        NotNamed(e.name, xs, Down(k, i));
      }
      if j != k {
        NotNamed(e.name, xs, Down(k, j));
      }
    }
  }

  lemma NotNamed(name: seq<byte>, xs: seq<Entry>, i: nat)
    requires i < |xs| && !NameIn(name, xs)
    ensures xs[i].name != name
  {
  }

  lemma InsertedPlaces(xs: seq<Entry>, e: Entry, ys: seq<Entry>, k: nat)
    requires k <= |xs| && ys == xs[..k] + [e] + xs[k..]
    ensures |ys| == |xs| + 1 && ys[k] == e
    ensures forall i: nat :: i < |xs| ==> ys[Up(k, i)] == xs[i]
    ensures forall j: nat :: j < |ys| && j != k ==> ys[j] == xs[Down(k, j)]
  {
    var head, tail := xs[..k], xs[k..];
    forall i: nat | i < |xs| ensures ys[Up(k, i)] == xs[i] {
      if i < k {
        assert ys[i] == head[i];
      } else {
        assert ys[i + 1] == tail[i - k];
      }
    }
    forall j: nat | j < |ys| && j != k ensures ys[j] == xs[Down(k, j)] {
      if j < k {
        assert ys[j] == head[j];
      } else {
        assert ys[j] == tail[j - 1 - k];
      }
    }
  }

  /** Adding an entry keeps the names distinct exactly when the name is new. */
  lemma InsertedDistinct(xs: seq<Entry>, e: Entry, ys: seq<Entry>)
    requires Inserted(xs, e, ys)
    ensures Distinct(ys) <==> Distinct(xs) && !NameIn(e.name, xs)
  {
    hide Distinct, NameIn, Up, Down;
    var k: nat :| 0 <= k <= |xs| && ys == xs[..k] + [e] + xs[k..];
    InsertedPlaces(xs, e, ys, k);
    if Distinct(ys) {
      DistinctBefore(xs, e, ys, k);
    }
    if Distinct(xs) && !NameIn(e.name, xs) {
      DistinctAfter(xs, e, ys, k);
    }
  }

  lemma FirstOfOne(name: seq<byte>, e: Entry)
    requires e.inode != 0
    ensures FirstOf(name, [e]) == if e.name == name then e.inode else 0
    ensures NameIn(name, [e]) <==> e.name == name
  {
    if e.name == name {
      assert [e][0].name == name;
    }
  }

  /* ---------- one block ---------- */

  datatype Search = Bad | Missing | Found(inode: u32)

  /** The record walk of ext2_lookup in one block. */
  method SearchBlock(b: Block, name: seq<byte>) returns (r: Search)
    ensures Tiled(b, 0) ==> r == if FirstOf(name, Listed(b, 0)) == 0 then Missing else Found(FirstOf(name, Listed(b, 0)))
  {
    hide Half, RecEntry, RecNameLength, RecInode;
    var offset := 0;
    ListedLive(b, 0);
    while offset < |b|
      invariant offset <= |b|
      invariant Tiled(b, 0) ==> Tiled(b, offset) && FirstOf(name, Listed(b, 0)) == FirstOf(name, Listed(b, offset))
      decreases |b| - offset
    {
      if !RecordOk(b, offset) {
        return Bad;
      }
      SearchStep(b, offset, name);
      if RecInode(b, offset) != 0 && RecName(b, offset) == name {
        return Found(RecInode(b, offset));
      }
      offset := offset + RecLength(b, offset);
    }
    return Missing;
  }

  lemma SearchStep(b: Block, off: nat, name: seq<byte>)
    requires RecordOk(b, off)
    ensures FirstOf(name, Listed(b, off))
            == if RecInode(b, off) != 0 && RecName(b, off) == name then RecInode(b, off)
               else FirstOf(name, Listed(b, off + RecLength(b, off)))
  {
    hide Half, RecNameLength;
    if RecInode(b, off) == 0 {
      assert Listed(b, off) == Listed(b, off + RecLength(b, off));
    } else {
      assert Listed(b, off)[0] == RecEntry(b, off) && Listed(b, off)[1..] == Listed(b, off + RecLength(b, off));
    }
  }

  datatype Spot = Refuse | NoRoom | Spot(offset: nat)

  /** The first record from off on with room, or the end. */
  function FirstRoom(b: Block, off: nat, needed: nat): nat
    decreases |b| - off
  {
    if !RecordOk(b, off) || Room(b, off, needed) then off else FirstRoom(b, off + RecLength(b, off), needed)
  }

  /** The live records that a search for room from off on meets: those up to
      the first record with room, that one included. */
  function Met(b: Block, off: nat, needed: nat): seq<Entry>
    decreases |b| - off
  {
    if !RecordOk(b, off) then []
    else if Room(b, off, needed) then Here(b, off)
    else Here(b, off) + Met(b, off + RecLength(b, off), needed)
  }

  lemma {:induction false} MetListed(b: Block, off: nat, needed: nat, name: seq<byte>)
    ensures NameIn(name, Met(b, off, needed)) ==> NameIn(name, Listed(b, off))
    ensures !HasRoom(b, off, needed) ==> Met(b, off, needed) == Listed(b, off)
    decreases |b| - off
  {
    hide Half, RecNameLength, RecEntry, RecInode, NameIn, Room;
    if RecordOk(b, off) {
      NameInSplit(name, Here(b, off), Listed(b, off + RecLength(b, off)));
      NameInSplit(name, Here(b, off), Met(b, off + RecLength(b, off), needed));
      MetListed(b, off + RecLength(b, off), needed, name);
    }
  }

  /** No record in front of o, counted from off on, has room. */
  predicate NoRoomBefore(b: Block, off: nat, o: nat, needed: nat)
    decreases |b| - off
  {
    off >= o || !RecordOk(b, off) || (!Room(b, off, needed) && NoRoomBefore(b, off + RecLength(b, off), o, needed))
  }

  lemma {:induction false} FirstRoomFirst(b: Block, off: nat, needed: nat)
    ensures NoRoomBefore(b, off, FirstRoom(b, off, needed), needed)
    decreases |b| - off
  {
    hide Half, RecNameLength, RecInode, Room;
    if RecordOk(b, off) && !Room(b, off, needed) {
      FirstRoomFirst(b, off + RecLength(b, off), needed);
    }
  }

  /** A live record that no record with room precedes, and its name. */
  ghost predicate MetAt(b: Block, off: nat, o: nat, needed: nat, name: seq<byte>) {
    Boundary(b, off, o) && NoRoomBefore(b, off, o, needed) && RecordOk(b, o) && RecInode(b, o) != 0 && RecName(b, o) == name
  }

  /** A name is met exactly when some live record has it and no record in front
      of that one has room. */
  lemma {:induction false} MetExact(b: Block, off: nat, needed: nat, name: seq<byte>)
    ensures NameIn(name, Met(b, off, needed)) <==> exists o: nat :: MetAt(b, off, o, needed, name)
    decreases |b| - off
  {
    hide Half, RecNameLength, RecInode, RecName, Room;
    if RecordOk(b, off) {
      var next := off + RecLength(b, off);
      MetExact(b, next, needed, name);
      NameInSplit(name, Here(b, off), if Room(b, off, needed) then [] else Met(b, next, needed));
      HereNamed(b, off, name);
      forall o: nat | MetAt(b, off, o, needed, name) ensures NameIn(name, Met(b, off, needed)) {
        if o != off {
          assert MetAt(b, next, o, needed, name);
        }
      }
      if NameIn(name, Met(b, off, needed)) {
        if NameIn(name, Here(b, off)) {
          assert MetAt(b, off, off, needed, name);
        } else {
          var o: nat :| MetAt(b, next, o, needed, name);
          BoundaryAhead(b, next, o);
          assert MetAt(b, off, o, needed, name);
        }
      }
    }
  }

  lemma HereNamed(b: Block, off: nat, name: seq<byte>)
    ensures NameIn(name, Here(b, off)) <==> RecInode(b, off) != 0 && RecName(b, off) == name
  {
    hide Half, RecNameLength, RecInode, RecName;
    if RecInode(b, off) != 0 && RecName(b, off) == name {
      assert Here(b, off)[0].name == name;
    }
  }

  lemma BoundaryAhead(b: Block, start: nat, o: nat)
    requires Boundary(b, start, o)
    ensures start <= o
  {
  }

  /** The record walk of ext2_link_new_child in one block: refuse a malformed
      record or the same name, otherwise the first record with room. So a name
      is refused exactly when it is met no later than that record. */
  method FindSpot(b: Block, name: Name) returns (r: Spot)
    ensures r.Spot? ==> Room(b, r.offset, EntrySize(|name|))
    ensures Tiled(b, 0) && r.Spot? ==> Boundary(b, 0, r.offset) && Tiled(b, r.offset)
    ensures Tiled(b, 0) && r.Spot? ==> r.offset == FirstRoom(b, 0, EntrySize(|name|)) && NoRoomBefore(b, 0, r.offset, EntrySize(|name|))
    ensures Tiled(b, 0) ==> (r.Refuse? <==> NameIn(name, Met(b, 0, EntrySize(|name|))))
    ensures Tiled(b, 0) && !r.Refuse? ==> (r.Spot? <==> HasRoom(b, 0, EntrySize(|name|)))
  {
    hide Half, RecEntry, RecNameLength, RecInode, EntrySize, Room, NameIn, Listed;
    var needed := EntrySize(|name|);
    FirstRoomFirst(b, 0, needed);
    var offset := 0;
    while offset < |b|
      invariant offset <= |b|
      invariant Tiled(b, 0) ==> Tiled(b, offset) && Boundary(b, 0, offset) && FirstRoom(b, 0, needed) == FirstRoom(b, offset, needed)
      invariant Tiled(b, 0) ==> (HasRoom(b, 0, needed) <==> HasRoom(b, offset, needed))
      invariant Tiled(b, 0) ==> (NameIn(name, Met(b, 0, needed)) <==> NameIn(name, Met(b, offset, needed)))
      decreases |b| - offset
    {
      if !RecordOk(b, offset) {
        return Refuse;
      }
      MetStep(b, offset, needed, name);
      if RecInode(b, offset) != 0 && RecName(b, offset) == name {
        return Refuse;
      }
      if HasSpot(b, offset, needed) {
        return Spot(offset);
      }
      if Tiled(b, 0) {
        BoundaryNext(b, 0, offset);
      }
      offset := offset + RecLength(b, offset);
    }
    NothingMet(b, offset, needed, name);
    return NoRoom;
  }

  lemma NothingMet(b: Block, off: nat, needed: nat, name: seq<byte>)
    requires off >= |b|
    ensures !HasRoom(b, off, needed) && !NameIn(name, Met(b, off, needed))
  {
  }

  /** The two tests of ext2_link_new_child on a record. */
  predicate HasSpot(b: Block, off: nat, needed: nat)
    requires RecordOk(b, off)
    ensures HasSpot(b, off, needed) <==> Room(b, off, needed)
  {
    (RecInode(b, off) == 0 && RecLength(b, off) >= needed) ||
    (RecInode(b, off) != 0 && RecLength(b, off) >= EntrySize(RecNameLength(b, off)) + needed)
  }

  lemma MetStep(b: Block, off: nat, needed: nat, name: seq<byte>)
    requires RecordOk(b, off)
    ensures NameIn(name, Met(b, off, needed)) <==>
              || (RecInode(b, off) != 0 && RecName(b, off) == name)
              || (!Room(b, off, needed) && NameIn(name, Met(b, off + RecLength(b, off), needed)))
  {
    hide Half, RecNameLength, Room;
    NameInSplit(name, Here(b, off), Met(b, off + RecLength(b, off), needed));
    if RecInode(b, off) != 0 {
      assert Here(b, off)[0].name == RecName(b, off);
    }
  }

  /** A block of two records: an unused one, and behind it the name "A". */
  function GapBlock(size: nat, inode: u32): (b: Block)
    requires 24 <= size <= 4096
    ensures |b| == size
  {
    Stamp(Stamp(ZeroBytes(size), 0, RecordBytes(0, 12, EXT2_FT_REG_FILE, [65])), 12, RecordBytes(inode, size - 12, EXT2_FT_REG_FILE, [65]))
  }

  lemma GapBlockIs(size: nat, inode: u32)
    requires 24 <= size <= 4096 && inode != 0
    ensures
      var b := GapBlock(size, inode);
      && RecordOk(b, 0) && RecLength(b, 0) == 12 && RecInode(b, 0) == 0
      && Tiled(b, 12) && Listed(b, 12) == [Entry(inode, EXT2_FT_REG_FILE, [65])]
  {
    hide RecordBytes, Half, RecEntry, RecNameLength, Stamp, RecInode, AgreeOn, RecordOk, RecLength;
    var z := ZeroBytes(size);
    var s, t := RecordBytes(0, 12, EXT2_FT_REG_FILE, [65]), RecordBytes(inode, size - 12, EXT2_FT_REG_FILE, [65]);
    var m := Stamp(z, 0, s);
    var b := Stamp(m, 12, t);
    RecordWritten(z, 0, 0, 12, EXT2_FT_REG_FILE, [65]);
    RecordWritten(m, 12, inode, size - 12, EXT2_FT_REG_FILE, [65]);
    StampAgrees(m, 12, t);
    RecordAgree(m, b, 0, 12);
    LastRecord(b, 12);
  }

  lemma LastRecord(b: Block, k: nat)
    requires RecordOk(b, k) && k + RecLength(b, k) == |b| && RecInode(b, k) != 0
    ensures Tiled(b, k) && Listed(b, k) == [RecEntry(b, k)]
  {
    hide Half, RecEntry, RecNameLength, RecInode, RecLength;
    assert !RecordOk(b, |b|);
    assert Tiled(b, |b|) && Listed(b, |b|) == [];
  }

  /** In such a block the search for room does not meet "A", although the block
      lists it: the name is not refused, and with the new record in its place
      the block lists it twice. */
  lemma NameTwice(size: nat, inode: u32, child: u32)
    requires 24 <= size <= 4096 && inode != 0 && child != 0
    ensures
      var b, name := GapBlock(size, inode), [65];
      && Tiled(b, 0) && NameIn(name, Listed(b, 0))
      && FirstRoom(b, 0, EntrySize(1)) == 0 && HasRoom(b, 0, EntrySize(1)) && !NameIn(name, Met(b, 0, EntrySize(1)))
      && Listed(WithEntry(b, 0, name, child, EXT2_FT_REG_FILE), 0)
         == [Entry(child, EXT2_FT_REG_FILE, name), Entry(inode, EXT2_FT_REG_FILE, name)]
  {
    hide RecordBytes, Half, RecEntry, RecNameLength, GapBlock, WithEntry, RecInode, RecLength;
    var b, name: Name := GapBlock(size, inode), [65];
    GapBlockIs(size, inode);
    assert EntrySize(1) == 12;
    UnusedFirst(b, name);
    IntoUnused(b, 0, name, child, EXT2_FT_REG_FILE);
  }

  lemma UnusedFirst(b: Block, name: seq<byte>)
    requires RecordOk(b, 0) && RecLength(b, 0) == 12 && RecInode(b, 0) == 0 && Tiled(b, 12)
    ensures Tiled(b, 0) && Listed(b, 0) == Listed(b, 12) && Room(b, 0, 12)
    ensures FirstRoom(b, 0, 12) == 0 && HasRoom(b, 0, 12) && !NameIn(name, Met(b, 0, 12))
    ensures forall e :: Listed(b, 12) == [e] && e.name == name ==> NameIn(name, Listed(b, 0))
  {
    hide Half, RecEntry, RecNameLength, RecInode, RecLength;
    assert [] + Listed(b, 12) == Listed(b, 12);
    forall e | Listed(b, 12) == [e] && e.name == name ensures NameIn(name, Listed(b, 0)) {
      assert Listed(b, 0)[0].name == name;
    }
  }

  /* ---------- the twelve direct blocks ---------- */

  function BlockEntries(blocks: seq<Block>, n: u32): seq<Entry> {
    if n == 0 then [] else Listed(BlockAt(blocks, n), 0)
  }

  /** The entries of the direct blocks from k on. */
  function DirFrom(blocks: seq<Block>, dir: Inode, k: nat): seq<Entry>
    requires k <= 12
    decreases 12 - k
  {
    if k == 12 then [] else BlockEntries(blocks, dir.block[k]) + DirFrom(blocks, dir, k + 1)
  }

  /** The entries that a search for room meets in the direct blocks from k on:
      all of a block without room, and then the next block. */
  function DirMet(blocks: seq<Block>, dir: Inode, k: nat, needed: nat): seq<Entry>
    requires k <= 12
    decreases 12 - k
  {
    if k == 12 then []
    else if dir.block[k] == 0 then DirMet(blocks, dir, k + 1, needed)
    else
      var b := BlockAt(blocks, dir.block[k]);
      Met(b, 0, needed) + if HasRoom(b, 0, needed) then [] else DirMet(blocks, dir, k + 1, needed)
  }

  /** What is met is listed. */
  lemma {:induction false} DirMetListed(blocks: seq<Block>, dir: Inode, k: nat, needed: nat, name: seq<byte>)
    requires k <= 12
    ensures NameIn(name, DirMet(blocks, dir, k, needed)) ==> NameIn(name, DirFrom(blocks, dir, k))
    decreases 12 - k
  {
    hide Met, Listed, NameIn, HasRoom;
    if k < 12 {
      NoName(name);
      DirMetListed(blocks, dir, k + 1, needed, name);
      NameInSplit(name, BlockEntries(blocks, dir.block[k]), DirFrom(blocks, dir, k + 1));
      if dir.block[k] != 0 {
        var b := BlockAt(blocks, dir.block[k]);
        MetListed(b, 0, needed, name);
        NameInSplit(name, Met(b, 0, needed), if HasRoom(b, 0, needed) then [] else DirMet(blocks, dir, k + 1, needed));
      }
    }
  }

  lemma MetIsListed(blocks: seq<Block>, dir: Inode, needed: nat, name: seq<byte>)
    requires !NameIn(name, DirEntries(blocks, dir))
    ensures !NameIn(name, DirMet(blocks, dir, 0, needed))
  {
    DirMetListed(blocks, dir, 0, needed, name);
  }

  lemma NoName(name: seq<byte>)
    ensures !NameIn(name, [])
  {
  }

  /** Everything the directory lists. */
  function DirEntries(blocks: seq<Block>, dir: Inode): seq<Entry> {
    DirFrom(blocks, dir, 0)
  }

  /** A well-formed directory: its direct blocks exist, differ, and are tiled
      by valid records. */
  predicate DirOk(blocks: seq<Block>, dir: Inode) {
    && dir.kind.Directory?
    && (forall k :: 0 <= k < 12 && dir.block[k] != 0 ==> dir.block[k] < |blocks| && Tiled(blocks[dir.block[k]], 0))
    && (forall j, k :: 0 <= j < 12 && 0 <= k < 12 && dir.block[j] == dir.block[k] != 0 ==> j == k)
  }

  lemma {:induction false} DirFromLive(blocks: seq<Block>, dir: Inode, k: nat)
    requires k <= 12
    ensures AllLive(DirFrom(blocks, dir, k))
    decreases 12 - k
  {
    if k < 12 {
      DirFromLive(blocks, dir, k + 1);
      if dir.block[k] != 0 {
        ListedLive(BlockAt(blocks, dir.block[k]), 0);
      }
    }
  }

  /** ext2_lookup: the inode number of a name, or failure. */
  method Lookup(fs: Volume, dir: Inode, name: seq<byte>) returns (found: bool, number: u32)
    modifies fs`failed
    ensures found && DirOk(fs.disk.blocks, dir) ==> number != 0 && number == FirstOf(name, DirEntries(fs.disk.blocks, dir))
    ensures found ==> fs.failed == old(fs.failed)
    ensures old(fs.failed) ==> fs.failed
    ensures !found && !fs.failed && DirOk(fs.disk.blocks, dir) ==> FirstOf(name, DirEntries(fs.disk.blocks, dir)) == 0
  {
    hide Listed, Tiled;
    if !dir.kind.Directory? {
      return false, 0;
    }
    ghost var blocks := fs.disk.blocks;
    for i := 0 to 12
      invariant fs.failed == old(fs.failed)
      invariant DirOk(blocks, dir) ==> FirstOf(name, DirEntries(blocks, dir)) == FirstOf(name, DirFrom(blocks, dir, i))
    {
      LookupStep(blocks, dir, i, name);
      if dir.block[i] != 0 {
        var ok: bool, block: Block;
        ok, block := fs.ReadBlock(dir.block[i]);
        if !ok {
          return false, 0;
        }
        var r := SearchBlock(block, name);
        if r.Bad? {
          return false, 0;
        }
        if r.Found? {
          return true, r.inode;
        }
      }
    }
    return false, 0;
  }

  lemma LookupStep(blocks: seq<Block>, dir: Inode, k: nat, name: seq<byte>)
    requires k < 12
    ensures FirstOf(name, DirFrom(blocks, dir, k))
            == if FirstOf(name, BlockEntries(blocks, dir.block[k])) != 0 then FirstOf(name, BlockEntries(blocks, dir.block[k]))
               else FirstOf(name, DirFrom(blocks, dir, k + 1))
  {
    hide Listed;
    var here := BlockEntries(blocks, dir.block[k]);
    if dir.block[k] != 0 {
      ListedLive(BlockAt(blocks, dir.block[k]), 0);
    }
    FirstOfSplit(name, here, DirFrom(blocks, dir, k + 1));
  }
}
