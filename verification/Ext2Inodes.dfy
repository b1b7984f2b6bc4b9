/** Inode bitmaps and the inode allocator. */
module Ext2Inodes {
  import opened Machine
  import opened Arithmetic
  import opened Ext2Blocks
  import opened Ext2Tree
  import opened Ext2Bitmap
  import opened Ext2Volume

  /** The inode half of a block group: its inode bitmap, and the two counts of
      its descriptor that the block allocator does not touch. */
  datatype InodeGroup = InodeGroup(bitmap: Block, freeInodes: u16, usedDirs: u16)

  function InodeGroupCount(inodeCount: nat, perGroup: pos): nat {
    GroupsFor(inodeCount, perGroup)
  }

  function FirstInode(perGroup: pos, g: nat): nat {
    g * perGroup
  }

  /** Inodes in group g; the last group may be short. */
  function InodesIn(inodeCount: nat, perGroup: pos, g: nat): nat {
    if FirstInode(perGroup, g) + perGroup > inodeCount
    then (if FirstInode(perGroup, g) > inodeCount then 0 else inodeCount - FirstInode(perGroup, g))
    else perGroup
  }

  /** The allocation bit of the inode with this index. */
  predicate InodeBit(groups: seq<InodeGroup>, perGroup: pos, index: nat) {
    Quotient(index, perGroup) < |groups| && Bit(groups[Quotient(index, perGroup)].bitmap, index - Quotient(index, perGroup) * perGroup)
  }

  function SumInodes(groups: seq<InodeGroup>): nat {
    if groups == [] then 0 else SumInodes(groups[..|groups| - 1]) + groups[|groups| - 1].freeInodes
  }

  predicate GroupCounted(groups: seq<InodeGroup>, inodeCount: nat, perGroup: pos, g: nat)
    requires g < |groups|
  {
    && perGroup <= 8 * |groups[g].bitmap|
    && groups[g].freeInodes == ClearBits(groups[g].bitmap, InodesIn(inodeCount, perGroup, g))
  }

  /** The bitmaps and counts agree, and an inode whose bit is clear is not in
      use. */
  predicate InodesOk(groups: seq<InodeGroup>, perGroup: pos, inodes: seq<Inode>, free: nat) {
    && perGroup < 0x1_0000 && |inodes| < 0x1_0000_0000 && SumsFit(0, |inodes|, perGroup)
    && |groups| == InodeGroupCount(|inodes|, perGroup)
    && (forall g :: 0 <= g < |groups| ==> GroupCounted(groups, |inodes|, perGroup, g))
    && free == SumInodes(groups)
    && (forall i :: 0 <= i < |inodes| && inodes[i].kind != Unused ==> InodeBit(groups, perGroup, i))
  }

  lemma InodePlace(perGroup: pos, g: nat, bit: nat)
    requires bit < perGroup
    ensures Quotient(FirstInode(perGroup, g) + bit, perGroup) == g
    ensures FirstInode(perGroup, g) + bit - Quotient(FirstInode(perGroup, g) + bit, perGroup) * perGroup == bit
  {
    var q := Quotient(FirstInode(perGroup, g) + bit, perGroup);
    if q < g {
      MulLess(q, g, perGroup);
    } else if g < q {
      MulLess(g, q, perGroup);
    }
  }

  lemma {:induction false} SumInodesUpdate(groups: seq<InodeGroup>, g: nat, x: InodeGroup)
    requires g < |groups|
    ensures SumInodes(groups[g := x]) == SumInodes(groups) - groups[g].freeInodes + x.freeInodes
  {
    var n := |groups| - 1;
    if g < n {
      SumInodesUpdate(groups[..n], g, x);
      assert groups[g := x][..n] == groups[..n][g := x];
    } else {
      assert groups[g := x][..n] == groups[..n];
    }
  }

  lemma {:induction false} SumInodesZero(groups: seq<InodeGroup>, g: nat)
    requires SumInodes(groups) == 0 && g < |groups|
    ensures groups[g].freeInodes == 0
  {
    if g < |groups| - 1 {
      SumInodesZero(groups[..|groups| - 1], g);
    }
  }

  /** Group g after bit is taken. */
  function Taken(x: InodeGroup, bit: nat): InodeGroup {
    if bit < 8 * |x.bitmap| then InodeGroup(SetBit(x.bitmap, bit), (x.freeInodes + 0xFFFF) % 0x1_0000, x.usedDirs) else x
  }

  lemma TakenFacts(x: InodeGroup, bit: nat, k: nat)
    requires bit < k < 0x1_0000 + 1 && k <= 8 * |x.bitmap| && !Bit(x.bitmap, bit) && x.freeInodes == ClearBits(x.bitmap, k)
    ensures x.freeInodes > 0 && Taken(x, bit).freeInodes == x.freeInodes - 1 == ClearBits(Taken(x, bit).bitmap, k)
    ensures |Taken(x, bit).bitmap| == |x.bitmap|
    ensures forall i: nat :: Bit(Taken(x, bit).bitmap, i) <==> i == bit || Bit(x.bitmap, i)
  {
    hide Bit;
    ClearBitsStep(x.bitmap, SetBit(x.bitmap, bit), bit, k);
  }

  /** The bit of this inode is set now, and no other bit changed. */
  predicate OneMoreBit(groups: seq<InodeGroup>, groups': seq<InodeGroup>, perGroup: pos, inodeCount: nat, index: nat) {
    forall i :: 0 <= i < inodeCount ==> (InodeBit(groups', perGroup, i) <==> i == index || InodeBit(groups, perGroup, i))
  }

  /** The directory counts are as they were. */
  predicate SameDirs(groups: seq<InodeGroup>, groups': seq<InodeGroup>) {
    |groups'| == |groups| && forall g :: 0 <= g < |groups| ==> groups'[g].usedDirs == groups[g].usedDirs
  }

  lemma TakenDirs(groups: seq<InodeGroup>, g: nat, bit: nat)
    requires g < |groups|
    ensures SameDirs(groups, groups[g := Taken(groups[g], bit)])
  {
  }

  /** Taking a clear bit for an inode that is then put to use. */
  lemma InodeTaken(groups: seq<InodeGroup>, perGroup: pos, inodes: seq<Inode>, free: nat, g: nat, bit: nat, ino: Inode)
    requires InodesOk(groups, perGroup, inodes, free) && g < |groups| && bit < InodesIn(|inodes|, perGroup, g)
    requires !Bit(groups[g].bitmap, bit)
    ensures FirstInode(perGroup, g) + bit < |inodes| && inodes[FirstInode(perGroup, g) + bit].kind == Unused && free > 0
    ensures
      var index := FirstInode(perGroup, g) + bit;
      && InodesOk(groups[g := Taken(groups[g], bit)], perGroup, inodes[index := ino], free - 1)
      && OneMoreBit(groups, groups[g := Taken(groups[g], bit)], perGroup, |inodes|, index)
  {
    hide Bit, ClearBits, Taken, InodesIn, InodeGroupCount;
    var index := FirstInode(perGroup, g) + bit;
    InodesInBound(|inodes|, perGroup, g);
    InodePlace(perGroup, g, bit);
    assert GroupCounted(groups, |inodes|, perGroup, g);
    var x := Taken(groups[g], bit);
    TakenFacts(groups[g], bit, InodesIn(|inodes|, perGroup, g));
    SumInodesUpdate(groups, g, x);
    var groups' := groups[g := x];
    forall h | 0 <= h < |groups'| ensures GroupCounted(groups', |inodes|, perGroup, h) {
      assert GroupCounted(groups, |inodes|, perGroup, h);
    }
    forall i | 0 <= i < |inodes| ensures InodeBit(groups', perGroup, i) <==> i == index || InodeBit(groups, perGroup, i) {
      InodeSlot(perGroup, i, g, bit);
    }
  }

  lemma InodeSlot(perGroup: pos, i: nat, g: nat, bit: nat)
    requires bit < perGroup
    ensures i == FirstInode(perGroup, g) + bit <==> Quotient(i, perGroup) == g && i - Quotient(i, perGroup) * perGroup == bit
  {
    InodePlace(perGroup, g, bit);
  }

  lemma InodesInBound(inodeCount: nat, perGroup: pos, g: nat)
    ensures InodesIn(inodeCount, perGroup, g) <= perGroup
    ensures FirstInode(perGroup, g) + InodesIn(inodeCount, perGroup, g) <= inodeCount || InodesIn(inodeCount, perGroup, g) == 0
  {
  }

  /** Every inode number from first on is allocated. */
  predicate NoneFree(groups: seq<InodeGroup>, perGroup: pos, inodeCount: nat, first: nat) {
    forall i: nat :: i < inodeCount && first <= i + 1 ==> InodeBit(groups, perGroup, i)
  }

  /** Every usable inode of group g is allocated. */
  predicate GroupFull(groups: seq<InodeGroup>, perGroup: pos, inodeCount: nat, first: nat, g: nat)
    requires g < |groups|
  {
    forall b: nat :: b < InodesIn(inodeCount, perGroup, g) && first <= FirstInode(perGroup, g) + b + 1 ==> Bit(groups[g].bitmap, b)
  }

  lemma CountedOut(groups: seq<InodeGroup>, perGroup: pos, inodeCount: nat, first: nat, g: nat)
    requires g < |groups| && GroupCounted(groups, inodeCount, perGroup, g) && groups[g].freeInodes == 0
    ensures GroupFull(groups, perGroup, inodeCount, first, g)
  {
  }

  lemma GroupOfInode(inodeCount: nat, perGroup: pos, i: nat)
    requires i < inodeCount
    ensures Quotient(i, perGroup) < InodeGroupCount(inodeCount, perGroup)
    ensures i - Quotient(i, perGroup) * perGroup < InodesIn(inodeCount, perGroup, Quotient(i, perGroup))
  {
    var y := inodeCount + perGroup - 1;
    DivMod(perGroup, y);
    var q := Quotient(i, perGroup);
    if y / perGroup <= q {
      MulMono(perGroup, y / perGroup, q);
    }
  }

  lemma AllFull(groups: seq<InodeGroup>, perGroup: pos, inodeCount: nat, first: nat)
    requires |groups| == InodeGroupCount(inodeCount, perGroup)
    requires forall g :: 0 <= g < |groups| ==> GroupFull(groups, perGroup, inodeCount, first, g)
    ensures NoneFree(groups, perGroup, inodeCount, first)
  {
    hide Bit, InodesIn, InodeGroupCount;
    forall i: nat | i < inodeCount && first <= i + 1 ensures InodeBit(groups, perGroup, i) {
      GroupOfInode(inodeCount, perGroup, i);
      var g := Quotient(i, perGroup);
      assert GroupFull(groups, perGroup, inodeCount, first, g);
    }
  }

  /** Every unreserved inode of a lower index is allocated. */
  predicate TakenBelow(groups: seq<InodeGroup>, perGroup: pos, inodeCount: nat, first: nat, index: nat) {
    forall i: nat :: i < inodeCount && i < index && first <= i + 1 ==> InodeBit(groups, perGroup, i)
  }

  lemma FoundLowest(groups: seq<InodeGroup>, perGroup: pos, inodeCount: nat, first: nat, g: nat, bit: nat)
    requires |groups| == InodeGroupCount(inodeCount, perGroup) && g < |groups| && bit < perGroup
    requires forall h :: 0 <= h < g ==> GroupFull(groups, perGroup, inodeCount, first, h)
    requires forall b: nat :: b < bit && first <= FirstInode(perGroup, g) + b + 1 ==> Bit(groups[g].bitmap, b)
    ensures TakenBelow(groups, perGroup, inodeCount, first, FirstInode(perGroup, g) + bit)
  {
    hide Bit, InodesIn, InodeGroupCount;
    forall i: nat | i < inodeCount && i < FirstInode(perGroup, g) + bit && first <= i + 1 ensures InodeBit(groups, perGroup, i) {
      GroupOfInode(inodeCount, perGroup, i);
      var h := Quotient(i, perGroup);
      if h < g {
        assert GroupFull(groups, perGroup, inodeCount, first, h);
      } else if g < h {
        MulLess(g, h, perGroup);
      }
    }
  }

  lemma NoInodes(groups: seq<InodeGroup>, perGroup: pos, first: nat)
    ensures NoneFree(groups, perGroup, 0, first)
  {
  }

  lemma InodeSums(groups: seq<InodeGroup>, perGroup: pos, inodes: seq<Inode>, free: nat)
    requires InodesOk(groups, perGroup, inodes, free) && inodes != []
    ensures GroupsFor32(|inodes|, perGroup) == |groups| == InodeGroupCount(|inodes|, perGroup)
  {
    hide GroupCounted, InodeBit;
    SumsExact(0, |inodes|, perGroup);
  }

  lemma EndOfInodes(groups: seq<InodeGroup>, perGroup: pos, inodes: seq<Inode>, free: nat, g: nat)
    requires InodesOk(groups, perGroup, inodes, free) && inodes != [] && g < |groups|
    ensures FirstInode(perGroup, g) < |inodes|
    ensures InodesIn(|inodes|, perGroup, g)
            == if Add32(FirstInode(perGroup, g), perGroup) > |inodes| then |inodes| - FirstInode(perGroup, g) else perGroup
  {
    hide GroupCounted, InodeBit;
    SumsExact(0, |inodes|, perGroup);
    GroupStartsBelow(|inodes|, perGroup, g);
    assert PastEnd32(0, |inodes|, perGroup, g) <==> Add32(FirstInode(perGroup, g), perGroup) > |inodes|;
  }

  function FreshInode(kind: Kind): Inode {
    InodeRecord(kind, 0, 0, 0, NO_BLOCKS)
  }

  class InodeMaps {
    const fs: Volume
    const perGroup: pos
    const firstUsable: nat
    var groups: seq<InodeGroup>
    var free: nat

    ghost predicate Valid()
      reads this, fs
    {
      InodesOk(groups, perGroup, fs.disk.inodes, free)
    }

    constructor (fs: Volume, perGroup: pos, firstUsable: nat, groups: seq<InodeGroup>, free: nat)
      requires InodesOk(groups, perGroup, fs.disk.inodes, free)
      ensures Valid() && this.fs == fs && this.perGroup == perGroup && this.firstUsable == firstUsable
    {
      this.fs, this.perGroup, this.firstUsable, this.groups, this.free := fs, perGroup, firstUsable, groups, free;
    }

    method ReadGroup(g: nat) returns (ok: bool, x: InodeGroup)
      requires g < |groups|
      modifies fs`failed
      ensures old(fs.failed) ==> fs.failed
      ensures ok ==> x == groups[g] && fs.failed == old(fs.failed)
      ensures !ok ==> fs.failed
    {
      var broken: bool := *;
      if broken {
        fs.failed := true;
      }
      return !broken, groups[g];
    }

    method WriteGroup(g: nat, x: InodeGroup) returns (ok: bool)
      requires g < |groups|
      modifies this`groups, fs`failed
      ensures old(fs.failed) ==> fs.failed
      ensures ok ==> groups == old(groups)[g := x] && fs.failed == old(fs.failed)
      ensures !ok ==> fs.failed && |groups| == |old(groups)|
    {
      var broken: bool := *;
      if broken {
        fs.failed := true;
        return false;
      }
      groups := groups[g := x];
      return true;
    }

    /** ext2_allocate_inode_with_mode: the unreserved inode of the lowest number
        whose bit is clear, emptied and marked. It fails without a device failure only when
        every unreserved inode is allocated. */
    method Allocate(kind: Kind) returns (ok: bool, number: u32)
      requires Valid() && kind != Unused && |fs.disk.inodes| < 0x1_0000_0000
      modifies this`groups, this`free, fs`disk, fs`failed
      ensures old(fs.failed) ==> fs.failed
      ensures ok ==> Valid() && firstUsable <= number && 1 <= number <= |old(fs.disk.inodes)| && old(fs.disk.inodes)[number - 1].kind == Unused
      ensures ok ==> fs.disk == old(fs.disk).(inodes := old(fs.disk.inodes)[number - 1 := FreshInode(kind)], free := fs.free)
      ensures ok ==> free == old(free) - 1 && fs.failed == old(fs.failed)
      ensures ok ==> OneMoreBit(old(groups), groups, perGroup, |fs.disk.inodes|, number - 1) && SameDirs(old(groups), groups)
      ensures ok ==> TakenBelow(old(groups), perGroup, |fs.disk.inodes|, firstUsable, number - 1)
      ensures !ok && !fs.failed ==> NoneFree(groups, perGroup, |fs.disk.inodes|, firstUsable) && groups == old(groups) && fs.disk == old(fs.disk)
    {
      hide InodeBit, InodesIn, GroupFull, NoneFree, GroupCounted, InodeGroupCount, Taken, OneMoreBit, SameDirs, SumsFit, TakenBelow, GroupsFor32, Add32;
      ghost var inodes := fs.disk.inodes;
      var inodeCount := |fs.disk.inodes|;
      number := 0;
      if free == 0 {
        NoFreeInodes(groups, perGroup, inodes, free, firstUsable);
        return false, 0;
      }
      if inodeCount == 0 {
        NoInodes(groups, perGroup, firstUsable);
        return false, 0;
      }
      InodeSums(groups, perGroup, inodes, free);
      var groupCount := GroupsFor32(inodeCount, perGroup);
      var group := 0;
      while group < groupCount
        invariant group <= groupCount == |groups| && groups == old(groups) && free == old(free) && fs.disk == old(fs.disk)
        invariant fs.failed == old(fs.failed)
        invariant forall g :: 0 <= g < group ==> GroupFull(groups, perGroup, inodeCount, firstUsable, g)
      {
        var x: InodeGroup;
        ok, x := ReadGroup(group);
        if !ok {
          return false, 0;
        }
        if x.freeInodes == 0 {
          CountedOut(groups, perGroup, inodeCount, firstUsable, group);
          group := group + 1;
          continue;
        }
        var inodesInGroup: nat := perGroup;
        EndOfInodes(groups, perGroup, inodes, free, group);
        if Add32(FirstInode(perGroup, group), inodesInGroup) > inodeCount {
          inodesInGroup := inodeCount - FirstInode(perGroup, group);
        }
        assert inodesInGroup == InodesIn(inodeCount, perGroup, group);
        var found: bool, bit: nat;
        found, bit := FindClear(x.bitmap, FirstInode(perGroup, group), inodesInGroup);
        if found {
          InodesInBound(inodeCount, perGroup, group);
          FoundLowest(groups, perGroup, inodeCount, firstUsable, group, bit);
          number, ok := Claim(group, bit, x, kind);
          return;
        }
        SearchedGroup(groups, perGroup, inodeCount, firstUsable, group);
        group := group + 1;
      }
      AllFull(groups, perGroup, inodeCount, firstUsable);
      ok := false;
    }

    /** The scan of one bitmap. */
    method FindClear(bitmap: Block, firstIndex: nat, count: nat) returns (found: bool, bit: nat)
      ensures found ==> bit < count && !Bit(bitmap, bit) && firstUsable <= firstIndex + bit + 1
      ensures found ==> forall b: nat :: b < bit && firstUsable <= firstIndex + b + 1 ==> Bit(bitmap, b)
      ensures !found ==> forall b: nat :: b < count && firstUsable <= firstIndex + b + 1 ==> Bit(bitmap, b)
    {
      bit := 0;
      while bit < count
        invariant bit <= count
        invariant forall b: nat :: b < bit && firstUsable <= firstIndex + b + 1 ==> Bit(bitmap, b)
      {
        if firstIndex + bit + 1 >= firstUsable && !Bit(bitmap, bit) {
          return true, bit;
        }
        bit := bit + 1;
      }
      return false, bit;
    }

    /** Initialise, mark, count. */
    method Claim(group: nat, bit: nat, x: InodeGroup, kind: Kind) returns (number: u32, ok: bool)
      requires Valid() && kind != Unused && |fs.disk.inodes| < 0x1_0000_0000
      requires group < |groups| && x == groups[group] && bit < InodesIn(|fs.disk.inodes|, perGroup, group) && !Bit(x.bitmap, bit)
      requires firstUsable <= FirstInode(perGroup, group) + bit + 1
      modifies this`groups, this`free, fs`disk, fs`failed
      ensures ok ==> Valid() && firstUsable <= number && 1 <= number <= |old(fs.disk.inodes)| && old(fs.disk.inodes)[number - 1].kind == Unused
      ensures ok ==> fs.disk == old(fs.disk).(inodes := old(fs.disk.inodes)[number - 1 := FreshInode(kind)], free := fs.free)
      ensures ok ==> free == old(free) - 1 && fs.failed == old(fs.failed)
      ensures ok ==> OneMoreBit(old(groups), groups, perGroup, |fs.disk.inodes|, number - 1) && SameDirs(old(groups), groups)
      ensures ok ==> number == FirstInode(perGroup, group) + bit + 1
      ensures !ok ==> fs.failed
    {
      hide InodeBit, InodesIn, InodesOk, Taken, Bit, FirstInode, OneMoreBit, SameDirs;
      InodeTaken(groups, perGroup, fs.disk.inodes, free, group, bit, FreshInode(kind));
      TakenDirs(groups, group, bit);
      ghost var inodes, index := fs.disk.inodes, FirstInode(perGroup, group) + bit;
      ghost var after := groups[group := Taken(x, bit)];
      number := FirstInode(perGroup, group) + bit + 1;
      ok := fs.WriteInode(number, FreshInode(kind));
      if !ok {
        return;
      }
      ok := WriteGroup(group, Taken(x, bit));
      if !ok {
        return;
      }
      free := free - 1;
      ok := fs.WriteSuperblock();
      assert groups == after && number - 1 == index;
      assert ok ==> fs.disk.inodes == inodes[index := FreshInode(kind)];
    }
  }

  lemma NoFreeInodes(groups: seq<InodeGroup>, perGroup: pos, inodes: seq<Inode>, free: nat, first: nat)
    requires InodesOk(groups, perGroup, inodes, free) && free == 0
    ensures NoneFree(groups, perGroup, |inodes|, first)
  {
    hide InodeGroupCount, GroupCounted, GroupFull, NoneFree, InodeBit;
    forall g | 0 <= g < |groups| ensures GroupFull(groups, perGroup, |inodes|, first, g) {
      SumInodesZero(groups, g);
      CountedOut(groups, perGroup, |inodes|, first, g);
    }
    AllFull(groups, perGroup, |inodes|, first);
  }

  lemma SearchedGroup(groups: seq<InodeGroup>, perGroup: pos, inodeCount: nat, first: nat, g: nat)
    requires g < |groups|
    requires forall b: nat :: b < InodesIn(inodeCount, perGroup, g) && first <= FirstInode(perGroup, g) + b + 1 ==> Bit(groups[g].bitmap, b)
    ensures GroupFull(groups, perGroup, inodeCount, first, g)
  {
  }
}
