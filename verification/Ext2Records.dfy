/** Directory blocks: variable-length records laid end to end. */
module Ext2Records {
  import opened Machine
  import opened Ext2Blocks

  const EXT2_FT_REG_FILE: byte := 1
  const EXT2_FT_DIR: byte := 2

  /** A live directory record: what a name stands for. */
  datatype Entry = Entry(inode: u32, kind: byte, name: seq<byte>)

  type Name = s: seq<byte> | 1 <= |s| <= 255 witness [0]

  /* ---------- the fields of the record at an offset ---------- */

  function ByteOr0(b: Block, i: nat): byte {
    if i < |b| then b[i] else 0
  }

  function Half(b: Block, off: nat): u16 {
    var lo: int, hi: int := ByteOr0(b, off), ByteOr0(b, off + 1);
    lo + 0x100 * hi
  }

  function RecInode(b: Block, off: nat): u32 {
    var lo: int, hi: int := Half(b, off), Half(b, off + 2);
    lo + 0x1_0000 * hi
  }

  function RecLength(b: Block, off: nat): u16 {
    Half(b, off + 4)
  }

  function RecNameLength(b: Block, off: nat): byte {
    ByteOr0(b, off + 6)
  }

  /** The driver's three sanity checks on a record. */
  predicate RecordOk(b: Block, off: nat) {
    && off + 8 <= |b|
    && RecLength(b, off) >= 8
    && off + RecLength(b, off) <= |b|
    && RecNameLength(b, off) <= RecLength(b, off) - 8
  }

  function RecName(b: Block, off: nat): seq<byte> {
    if off + 8 + RecNameLength(b, off) <= |b| then b[off + 8..off + 8 + RecNameLength(b, off)] else []
  }

  function RecEntry(b: Block, off: nat): Entry {
    Entry(RecInode(b, off), ByteOr0(b, off + 7), RecName(b, off))
  }

  /** What the record at off contributes to a listing. */
  function Here(b: Block, off: nat): seq<Entry> {
    if RecInode(b, off) == 0 then [] else [RecEntry(b, off)]
  }

  /** From off on the block is valid records and nothing else. */
  predicate Tiled(b: Block, off: nat)
    decreases |b| - off
  {
    off == |b| || (RecordOk(b, off) && Tiled(b, off + RecLength(b, off)))
  }

  /** The live records from off on, in disk order. */
  function Listed(b: Block, off: nat): seq<Entry>
    decreases |b| - off
  {
    if !RecordOk(b, off) then []
    else Here(b, off) + Listed(b, off + RecLength(b, off))
  }

  /** off is a record boundary reached from start. */
  predicate Boundary(b: Block, start: nat, off: nat)
    decreases |b| - start
  {
    start == off || (RecordOk(b, start) && start + RecLength(b, start) <= off && Boundary(b, start + RecLength(b, start), off))
  }

  /** The live records between two boundaries. */
  function Between(b: Block, start: nat, off: nat): seq<Entry>
    decreases |b| - start
  {
    if start >= off || !RecordOk(b, start) then []
    else Here(b, start) + Between(b, start + RecLength(b, start), off)
  }

  /* ---------- what a change of some bytes leaves alone ---------- */

  predicate AgreeOn(b: Block, c: Block, lo: nat, hi: nat) {
    |b| == |c| && hi <= |b| && forall i :: lo <= i < hi ==> b[i] == c[i]
  }

  lemma RecordAgree(b: Block, c: Block, off: nat, hi: nat)
    requires AgreeOn(b, c, off, hi) && off + 8 <= hi && RecordOk(b, off) && off + RecLength(b, off) <= hi
    ensures RecordOk(c, off) && RecLength(c, off) == RecLength(b, off) && RecInode(c, off) == RecInode(b, off)
    ensures RecEntry(c, off) == RecEntry(b, off) && Here(c, off) == Here(b, off)
  {
    assert RecName(b, off) == RecName(c, off);
  }

  /** Records after the change are unaffected. */
  lemma {:induction false} TailAgree(b: Block, c: Block, off: nat)
    requires AgreeOn(b, c, off, |b|) && Tiled(b, off)
    ensures Tiled(c, off) && Listed(c, off) == Listed(b, off)
    decreases |b| - off
  {
    hide Half, RecInode, RecEntry, RecNameLength;
    if off != |b| {
      RecordAgree(b, c, off, |b|);
      TailAgree(b, c, off + RecLength(b, off));
    }
  }

  /** Records before the change are unaffected. */
  lemma {:induction false} HeadAgree(b: Block, c: Block, start: nat, off: nat)
    requires AgreeOn(b, c, start, off) && Boundary(b, start, off) && Tiled(c, off)
    ensures Boundary(c, start, off) && Tiled(c, start) && Listed(c, start) == Between(b, start, off) + Listed(c, off)
    decreases |b| - start
  {
    hide Half, RecInode, RecEntry, RecNameLength;
    if start == off {
      assert [] + Listed(c, off) == Listed(c, off);
    } else {
      RecordAgree(b, c, start, off);
      HeadAgree(b, c, start + RecLength(b, start), off);
    }
  }

  /** Appending one record to the stretch scanned so far. */
  lemma {:induction false} BoundaryNext(b: Block, start: nat, off: nat)
    requires Boundary(b, start, off) && RecordOk(b, off)
    ensures Boundary(b, start, off + RecLength(b, off))
    ensures Between(b, start, off + RecLength(b, off)) == Between(b, start, off) + Here(b, off)
    decreases |b| - start
  {
    hide Half, RecInode, RecEntry, RecNameLength;
    if start == off {
      assert Between(b, off, off) == [];
      assert Between(b, off + RecLength(b, off), off + RecLength(b, off)) == [];
    } else {
      BoundaryNext(b, start + RecLength(b, start), off);
    }
  }

  /* ---------- writing records ---------- */

  function HalfBytes(w: u16): (b: Block)
    ensures |b| == 2
  {
    [w % 0x100, w / 0x100]
  }

  function ZeroBytes(n: nat): (b: Block)
    ensures |b| == n
  {
    seq<byte>(n, _ => 0)
  }

  /** Replaces the bytes of b from off on by s. */
  function Stamp(b: Block, off: nat, s: seq<byte>): (c: Block)
    ensures |c| == |b|
    ensures off + |s| <= |b| ==> forall i :: 0 <= i < |b| ==> c[i] == if off <= i < off + |s| then s[i - off] else b[i]
  {
    if off + |s| <= |b| then b[..off] + s + b[off + |s|..] else b
  }

  lemma StampAgrees(b: Block, off: nat, s: seq<byte>)
    requires off + |s| <= |b|
    ensures AgreeOn(b, Stamp(b, off, s), 0, off) && AgreeOn(b, Stamp(b, off, s), off + |s|, |b|)
  {
  }

  lemma AgreeChain(b: Block, m: Block, c: Block, lo: nat, hi: nat)
    requires AgreeOn(b, m, lo, hi) && AgreeOn(m, c, lo, hi)
    ensures AgreeOn(b, c, lo, hi)
  {
  }

  lemma AgreePart(b: Block, c: Block, lo: nat, hi: nat, lo': nat, hi': nat)
    requires AgreeOn(b, c, lo, hi) && lo <= lo' && hi' <= hi
    ensures AgreeOn(b, c, lo', hi')
  {
  }

  function RecordBytes(inode: u32, length: u16, kind: byte, name: Name): (s: seq<byte>)
    ensures |s| == 8 + |name|
  {
    HalfBytes(inode % 0x1_0000) + HalfBytes(inode / 0x1_0000) + HalfBytes(length) + [|name|, kind] + name
  }

  lemma RecordWritten(b: Block, off: nat, inode: u32, length: u16, kind: byte, name: Name)
    requires off + length <= |b| && 8 + |name| <= length
    ensures
      var c := Stamp(b, off, RecordBytes(inode, length, kind, name));
      && RecordOk(c, off) && RecLength(c, off) == length && RecInode(c, off) == inode
      && RecEntry(c, off) == Entry(inode, kind, name)
  {
    var s := RecordBytes(inode, length, kind, name);
    var c := Stamp(b, off, s);
    assert c[off] == s[0] && c[off + 1] == s[1] && c[off + 2] == s[2] && c[off + 3] == s[3];
    assert c[off + 4] == s[4] && c[off + 5] == s[5] && c[off + 6] == s[6] && c[off + 7] == s[7];
    assert RecLength(c, off) == length;
    assert RecInode(c, off) == inode;
    assert c[off + 8..off + 8 + |name|] == name;
  }

  /** The record at off cut down to length bytes. */
  function Shortened(b: Block, off: nat, length: u16): Block {
    Stamp(b, off + 4, HalfBytes(length))
  }

  lemma RecordShortened(b: Block, off: nat, length: u16)
    requires RecordOk(b, off) && 8 + RecNameLength(b, off) <= length <= RecLength(b, off)
    ensures
      var c := Shortened(b, off, length);
      RecordOk(c, off) && RecLength(c, off) == length && RecInode(c, off) == RecInode(b, off) && RecEntry(c, off) == RecEntry(b, off)
  {
    var c := Shortened(b, off, length);
    assert c[off + 4] == HalfBytes(length)[0] && c[off + 5] == HalfBytes(length)[1];
    assert RecLength(c, off) == length;
    assert c[off + 8..off + 8 + RecNameLength(b, off)] == b[off + 8..off + 8 + RecNameLength(b, off)];
  }

  /** ext2_directory_entry_size: header and name, rounded up to four bytes. */
  function EntrySize(nameLength: nat): (n: nat)
    ensures 8 + nameLength <= n < 8 + nameLength + 4 && n % 4 == 0
  {
    (8 + nameLength + 3) / 4 * 4
  }

  /** The record at off can take a new entry of needed bytes: unused and long
      enough, or live with that much slack. */
  predicate Room(b: Block, off: nat, needed: nat) {
    && RecordOk(b, off)
    && if RecInode(b, off) == 0 then RecLength(b, off) >= needed
       else RecLength(b, off) >= EntrySize(RecNameLength(b, off)) + needed
  }

  predicate HasRoom(b: Block, off: nat, needed: nat)
    decreases |b| - off
  {
    RecordOk(b, off) && (Room(b, off, needed) || HasRoom(b, off + RecLength(b, off), needed))
  }

  /** ys is xs with e put in somewhere, everything else in order. */
  ghost predicate Inserted(xs: seq<Entry>, e: Entry, ys: seq<Entry>) {
    exists i :: 0 <= i <= |xs| && ys == xs[..i] + [e] + xs[i..]
  }

  predicate NameIn(name: seq<byte>, xs: seq<Entry>) {
    exists i :: 0 <= i < |xs| && xs[i].name == name
  }

  /** struct ext2_directory_entry, byte by byte, anywhere in a block: what its
      bytes stand for, when the driver accepts it, and when it has room. */
  lemma RecordLayout(before: Block, i0: byte, i1: byte, i2: byte, i3: byte, l0: byte, l1: byte, kind: byte, name: seq<byte>, after: Block,
                     needed: nat)
    requires |name| < 256
    ensures
      var b, off := before + ([i0, i1, i2, i3, l0, l1, |name|, kind] + name) + after, |before|;
      var inode := i0 as int + 0x100 * (i1 as int) + 0x1_0000 * (i2 as int) + 0x100_0000 * (i3 as int);
      var length, slack := l0 as int + 0x100 * (l1 as int), (8 + |name| + 3) / 4 * 4;
      && RecEntry(b, off) == Entry(inode, kind, name)
      && RecInode(b, off) == inode && RecLength(b, off) == length
      && (RecordOk(b, off) <==> 8 + |name| <= length && off + length <= |b|)
      && (Room(b, off, needed) <==>
            8 + |name| <= length && off + length <= |b| && (if inode == 0 then needed <= length else slack + needed <= length))
  {
    var s := [i0, i1, i2, i3, l0, l1, |name|, kind] + name;
    var b, off := before + s + after, |before|;
    assert forall k :: 0 <= k < |s| ==> b[off + k] == s[k];
    FieldBytes(b, off, s);
    assert b[off + 8..off + 8 + |name|] == s[8..] == name;
  }

  lemma FieldBytes(b: Block, off: nat, s: seq<byte>)
    requires |s| >= 8 && off + |s| <= |b| && forall k :: 0 <= k < |s| ==> b[off + k] == s[k]
    ensures RecInode(b, off) as int
            == s[0] as int + 0x100 * (s[1] as int) + 0x1_0000 * (s[2] as int) + 0x100_0000 * (s[3] as int)
    ensures RecLength(b, off) as int == s[4] as int + 0x100 * (s[5] as int)
    ensures RecNameLength(b, off) == s[6] && ByteOr0(b, off + 7) == s[7]
  {
    assert b[off + 0] == s[0];
  }

  /** The block with the new entry in the record at off. */
  function WithEntry(b: Block, off: nat, name: Name, inode: u32, kind: byte): Block {
    var actual := EntrySize(RecNameLength(b, off));
    if RecInode(b, off) == 0 then Stamp(b, off, RecordBytes(inode, RecLength(b, off), kind, name))
    else if RecLength(b, off) >= actual then
      Stamp(Shortened(b, off, actual), off + actual, RecordBytes(inode, RecLength(b, off) - actual, kind, name))
    else b
  }

  lemma IntoUnused(b: Block, off: nat, name: Name, inode: u32, kind: byte)
    requires Tiled(b, off) && Room(b, off, EntrySize(|name|)) && inode != 0 && RecInode(b, off) == 0
    ensures
      var c := WithEntry(b, off, name, inode, kind);
      && AgreeOn(b, c, 0, off) && Tiled(c, off)
      && Listed(c, off) == [Entry(inode, kind, name)] + Listed(b, off + RecLength(b, off))
  {
    hide EntrySize, RecordBytes, Half, RecEntry, RecNameLength, Stamp;
    var c := WithEntry(b, off, name, inode, kind);
    RecordWritten(b, off, inode, RecLength(b, off), kind, name);
    TailAgree(b, c, off + RecLength(b, off));
  }

  lemma SplitRecords(b: Block, off: nat, name: Name, inode: u32, kind: byte)
    requires Room(b, off, EntrySize(|name|)) && RecInode(b, off) != 0
    ensures
      var c := WithEntry(b, off, name, inode, kind);
      var length, actual := RecLength(b, off), EntrySize(RecNameLength(b, off));
      && AgreeOn(b, c, 0, off) && AgreeOn(b, c, off + length, |b|)
      && RecordOk(c, off) && RecLength(c, off) == actual && RecInode(c, off) == RecInode(b, off) && RecEntry(c, off) == RecEntry(b, off)
      && RecordOk(c, off + actual) && RecLength(c, off + actual) == length - actual && RecInode(c, off + actual) == inode
      && RecEntry(c, off + actual) == Entry(inode, kind, name)
  {
    hide EntrySize, RecordBytes, HalfBytes, RecEntry, Half, RecNameLength, AgreeOn, RecInode, RecLength, Listed, Tiled;
    var c := WithEntry(b, off, name, inode, kind);
    var length, actual := RecLength(b, off), EntrySize(RecNameLength(b, off));
    var m := Shortened(b, off, actual);
    var s := RecordBytes(inode, length - actual, kind, name);
    StampAgrees(b, off + 4, HalfBytes(actual));
    StampAgrees(m, off + actual, s);
    AgreePart(b, m, 0, off + 4, 0, off);
    AgreePart(m, c, 0, off + actual, 0, off);
    AgreeChain(b, m, c, 0, off);
    AgreePart(b, m, off + 6, |b|, off + length, |b|);
    AgreePart(m, c, off + actual + |s|, |b|, off + length, |b|);
    AgreeChain(b, m, c, off + length, |b|);
    AgreePart(m, c, 0, off + actual, off, off + actual);
    RecordShortened(b, off, actual);
    RecordWritten(m, off + actual, inode, length - actual, kind, name);
    RecordAgree(m, c, off, off + actual);
  }

  lemma IntoSlack(b: Block, off: nat, name: Name, inode: u32, kind: byte)
    requires Tiled(b, off) && Room(b, off, EntrySize(|name|)) && inode != 0 && RecInode(b, off) != 0
    ensures
      var c := WithEntry(b, off, name, inode, kind);
      && AgreeOn(b, c, 0, off) && Tiled(c, off)
      && Listed(c, off) == [RecEntry(b, off)] + ([Entry(inode, kind, name)] + Listed(b, off + RecLength(b, off)))
  {
    hide EntrySize, RecEntry, RecNameLength, AgreeOn, RecInode, RecLength, WithEntry;
    SplitRecords(b, off, name, inode, kind);
    TailAgree(b, WithEntry(b, off, name, inode, kind), off + RecLength(b, off));
  }

  /** Filling a record with room keeps the block tiled and adds the entry. */
  lemma WithEntryListed(b: Block, off: nat, name: Name, inode: u32, kind: byte)
    requires Boundary(b, 0, off) && Tiled(b, off) && Room(b, off, EntrySize(|name|)) && inode != 0
    ensures
      var c := WithEntry(b, off, name, inode, kind);
      |c| == |b| && Tiled(c, 0) && Tiled(b, 0) && Inserted(Listed(b, 0), Entry(inode, kind, name), Listed(c, 0))
  {
    hide WithEntry, EntrySize, Boundary, Between, Half, RecEntry, RecNameLength, RecInode, RecLength, Inserted;
    var c := WithEntry(b, off, name, inode, kind);
    var e, rest := Entry(inode, kind, name), Listed(b, off + RecLength(b, off));
    WithEntrySize(b, off, name, inode, kind);
    if RecInode(b, off) == 0 {
      IntoUnused(b, off, name, inode, kind);
    } else {
      IntoSlack(b, off, name, inode, kind);
    }
    HeadAgree(b, c, 0, off);
    HeadAgree(b, b, 0, off);
    var head, here := Between(b, 0, off), Here(b, off);
    assert Listed(b, 0) == (head + here) + rest;
    assert Listed(c, 0) == (head + here) + [e] + rest;
    InsertedAt(head + here, e, rest);
  }

  lemma WithEntrySize(b: Block, off: nat, name: Name, inode: u32, kind: byte)
    ensures |WithEntry(b, off, name, inode, kind)| == |b|
  {
  }

  lemma InsertedAt(xs: seq<Entry>, e: Entry, ys: seq<Entry>)
    ensures Inserted(xs + ys, e, xs + [e] + ys)
  {
    assert (xs + ys)[..|xs|] == xs && (xs + ys)[|xs|..] == ys;
  }
}
