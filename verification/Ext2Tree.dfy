/** The pointer tree of an inode: twelve direct blocks, one single-indirect
    table, and a double-indirect root with its leaf tables.

    E is the number of 32-bit entries in a block, so a block has 4 * E bytes.
    Everything here is about values; no cache and no allocator appear. */
module Ext2Tree {
  import opened Machine
  import opened Arithmetic
  import opened Ext2Blocks

  /** The file-type bits of i_mode; Unused stands for a record not in use. */
  datatype Kind = Unused | Regular | Directory

  datatype InodeRecord = InodeRecord(kind: Kind, size: u32, sectors: nat, links: u16, block: seq<u32>)

  const NO_BLOCKS: seq<u32> := [0, 0, 0, 0, 0, 0, 0, 0, 0, 0, 0, 0, 0, 0, 0]

  type Inode = i: InodeRecord | |i.block| == 15 witness InodeRecord(Unused, 0, 0, 0, NO_BLOCKS)

  /** A place in the tree that can hold a block number. */
  datatype Slot = Direct(i: nat) | Single | SEntry(i: nat) | Root | Leaf(j: nat) | LEntry(j: nat, i: nat)

  predicate IsTable(s: Slot) {
    s.Single? || s.Root? || s.Leaf?
  }

  predicate InTree(E: pos, s: Slot) {
    match s
    case Direct(i) => i < 12
    case SEntry(i) => i < E
    case Leaf(j) => j < E
    case LEntry(j, i) => j < E && i < E
    case _ => true
  }

  /** Entry i of the pointer table in block t; 0 when there is no such table. */
  function Ent(e: seq<Block>, t: nat, i: nat): u32 {
    if t == 0 || t >= |e| || 4 * i + 4 > |e[t]| then 0 else Word(e[t], i)
  }

  /** The block number held in slot s, 0 for a hole. */
  function At(e: seq<Block>, ino: Inode, s: Slot): u32 {
    match s
    case Direct(i) => if i < 12 then ino.block[i] else 0
    case Single => ino.block[12]
    case SEntry(i) => Ent(e, ino.block[12], i)
    case Root => ino.block[13]
    case Leaf(j) => Ent(e, ino.block[13], j)
    case LEntry(j, i) => Ent(e, Ent(e, ino.block[13], j), i)
  }

  /* ---------- logical blocks ---------- */

  function LeafBase(E: pos, j: nat): nat {
    12 + E + j * E
  }

  /** Number of data blocks the tree can map. */
  function Capacity(E: pos): nat {
    12 + E + E * E
  }

  /** Logical block number of a data slot. */
  function Index(E: pos, s: Slot): nat
    requires !IsTable(s)
  {
    match s
    case Direct(i) => i
    case SEntry(i) => 12 + i
    case LEntry(j, i) => LeafBase(E, j) + i
  }

  function SlotOf(E: pos, k: nat): (s: Slot)
    ensures !IsTable(s)
  {
    if k < 12 then Direct(k)
    else if k - 12 < E then SEntry(k - 12)
    else LEntry((k - 12 - E) / E, (k - 12 - E) % E)
  }

  lemma SlotOfIs(E: pos, k: nat)
    ensures k < 12 ==> SlotOf(E, k) == Direct(k) && k < Capacity(E)
    ensures 12 <= k < 12 + E ==> SlotOf(E, k) == SEntry(k - 12) && k < Capacity(E)
    ensures 12 + E <= k ==> SlotOf(E, k) == LEntry((k - 12 - E) / E, (k - 12 - E) % E) && (k < Capacity(E) <==> k - 12 - E < E * E)
  {
  }

  /** Logical block numbers and data slots correspond one to one. */
  lemma SlotIndex(E: pos, k: nat)
    requires k < Capacity(E)
    ensures InTree(E, SlotOf(E, k)) && Index(E, SlotOf(E, k)) == k
  {
    if k >= 12 + E {
      var x := k - 12 - E;
      DivMod(E, x);
      if E < x / E {
        MulLess(E, x / E, E);
      }
    }
  }

  lemma IndexInjective(E: pos, s: Slot, t: Slot)
    requires !IsTable(s) && !IsTable(t) && InTree(E, s) && InTree(E, t)
    requires Index(E, s) == Index(E, t)
    ensures s == t
  {
    if s.LEntry? && t.LEntry? {
      DivModUnique(E, s.j, s.i, t.j, t.i);
    }
  }

  lemma IndexBound(E: pos, s: Slot)
    requires !IsTable(s) && InTree(E, s)
    ensures Index(E, s) < Capacity(E)
    ensures SlotOf(E, Index(E, s)) == s
  {
    if s.LEntry? {
      assert (E - 1 - s.j) * E >= 0;
      assert (E - 1 - s.j) * E == E * E - E - s.j * E;
    }
    SlotIndex(E, Index(E, s));
    IndexInjective(E, s, SlotOf(E, Index(E, s)));
  }

  /* ---------- shapes ---------- */

  /** Which slots are filled: the first n data blocks, and these tables. */
  datatype Shape = Shape(n: nat, single: bool, root: bool, leaves: nat)

  predicate Live(E: pos, sh: Shape, s: Slot) {
    InTree(E, s) &&
    match s
    case Single => sh.single
    case Root => sh.root
    case Leaf(j) => j < sh.leaves
    case _ => Index(E, s) < sh.n
  }

  /** Every filled slot has its tables. */
  predicate ShapeOk(E: pos, sh: Shape) {
    && sh.n <= Capacity(E)
    && sh.leaves <= E
    && (sh.n > 12 ==> sh.single)
    && (sh.leaves > 0 ==> sh.root)
    && (forall j: nat :: j < E && LeafBase(E, j) < sh.n ==> j < sh.leaves)
  }

  /** Leaf tables that n data blocks need. */
  function LeavesFor(E: pos, n: nat): nat {
    if n <= 12 + E then 0 else (n - 12 - E + E - 1) / E
  }

  /** The shape of a hole-free file with n data blocks: no table is empty. */
  function Canon(E: pos, n: nat): Shape {
    Shape(n, n > 12, n > 12 + E, LeavesFor(E, n))
  }

  lemma LeavesForExact(E: pos, n: nat, j: nat)
    requires n <= Capacity(E)
    ensures j < LeavesFor(E, n) <==> LeafBase(E, j) < n
    ensures LeavesFor(E, n) <= E
  {
    if n > 12 + E {
      var y: nat := n - 12 - E + E - 1;
      var q := y / E;
      DivMod(E, y);
      if j < q {
        MulLess(j, q, E);
      } else if q < j {
        MulLess(q, j, E);
      }
      if E < q {
        MulLess(E, q, E);
      }
    }
  }

  lemma CanonOk(E: pos, n: nat)
    requires n <= Capacity(E)
    ensures ShapeOk(E, Canon(E, n))
  {
    LeavesForExact(E, n, 0);
    forall j: nat | j < E && LeafBase(E, j) < n ensures j < LeavesFor(E, n) {
      LeavesForExact(E, n, j);
    }
  }

  /** Data blocks and pointer tables of a shape together. */
  function Blocks(sh: Shape): nat {
    sh.n + (if sh.single then 1 else 0) + (if sh.root then 1 else 0) + sh.leaves
  }

  /* ---------- well-formed trees ---------- */

  predicate SizedBlocks(E: pos, e: seq<Block>) {
    forall b :: 0 <= b < |e| ==> |e[b]| == 4 * E
  }

  /** The tree of ino on the blocks e fills exactly the slots of sh, with
      distinct blocks of the volume. */
  ghost predicate Tree(E: pos, e: seq<Block>, ino: Inode, sh: Shape) {
    && SizedBlocks(E, e)
    && ShapeOk(E, sh)
    && (forall s :: InTree(E, s) ==> (At(e, ino, s) != 0 <==> Live(E, sh, s)))
    && (forall s :: Live(E, sh, s) ==> At(e, ino, s) < |e|)
    && (forall s, t :: Live(E, sh, s) && Live(E, sh, t) && At(e, ino, s) == At(e, ino, t) ==> s == t)
  }

  ghost predicate Owns(E: pos, e: seq<Block>, ino: Inode, sh: Shape, b: nat) {
    exists s :: Live(E, sh, s) && At(e, ino, s) == b
  }

  /** e' is e with slot s0 filled by block b and no other slot changed. */
  ghost predicate Filled(E: pos, e: seq<Block>, ino: Inode, e': seq<Block>, ino': Inode, s0: Slot, b: nat) {
    forall s :: InTree(E, s) ==> At(e', ino', s) == if s == s0 then b else At(e, ino, s)
  }

  /** Only pointer tables decide where slots point. */
  lemma AtFrame(E: pos, e: seq<Block>, e': seq<Block>, ino: Inode, sh: Shape)
    requires Tree(E, e, ino, sh) && |e'| == |e|
    requires forall s :: IsTable(s) && Live(E, sh, s) ==> e'[At(e, ino, s)] == e[At(e, ino, s)]
    ensures forall s :: InTree(E, s) ==> At(e', ino, s) == At(e, ino, s)
  {
    forall s | InTree(E, s) ensures At(e', ino, s) == At(e, ino, s) {
      match s
      case SEntry(i) => assert At(e, ino, Single) != 0 <==> Live(E, sh, Single);
      case Leaf(j) => assert At(e, ino, Root) != 0 <==> Live(E, sh, Root);
      case LEntry(j, i) =>
        assert At(e, ino, Root) != 0 <==> Live(E, sh, Root);
        assert At(e, ino, Leaf(j)) != 0 <==> Live(E, sh, Leaf(j));
      case _ =>
    }
  }

  lemma TreeFrame(E: pos, e: seq<Block>, e': seq<Block>, ino: Inode, sh: Shape)
    requires Tree(E, e, ino, sh) && |e'| == |e| && SizedBlocks(E, e')
    requires forall s :: IsTable(s) && Live(E, sh, s) ==> e'[At(e, ino, s)] == e[At(e, ino, s)]
    ensures Tree(E, e', ino, sh)
    ensures forall s :: InTree(E, s) ==> At(e', ino, s) == At(e, ino, s)
  {
    AtFrame(E, e, e', ino, sh);
  }

  lemma TreeFilled(E: pos, e: seq<Block>, ino: Inode, sh: Shape, e': seq<Block>, ino': Inode, s0: Slot, b: nat, sh': Shape)
    requires Tree(E, e, ino, sh) && Filled(E, e, ino, e', ino', s0, b)
    requires |e'| == |e| && SizedBlocks(E, e') && ShapeOk(E, sh')
    requires 0 < b < |e| && !Owns(E, e, ino, sh, b)
    requires InTree(E, s0) && !Live(E, sh, s0)
    requires forall s :: Live(E, sh', s) <==> Live(E, sh, s) || s == s0
    ensures Tree(E, e', ino', sh')
    ensures forall x :: Owns(E, e', ino', sh', x) <==> Owns(E, e, ino, sh, x) || x == b
  {
    forall x | Owns(E, e, ino, sh, x) ensures Owns(E, e', ino', sh', x) {
      var s :| Live(E, sh, s) && At(e, ino, s) == x;
      assert Live(E, sh', s) && At(e', ino', s) == x;
    }
    assert Live(E, sh', s0) && At(e', ino', s0) == b;
  }

  /* ---------- filling one slot ---------- */

  function ZeroTable(E: pos): Block {
    Encode(seq(E, _ => 0))
  }

  /** The inode with a new block number in one of its own slots. */
  function SetRoot(ino: Inode, s: Slot, b: u32): Inode
    requires s.Direct? ==> s.i < 12
  {
    match s
    case Direct(i) => ino.(block := ino.block[i := b])
    case Single => ino.(block := ino.block[12 := b])
    case Root => ino.(block := ino.block[13 := b])
    case _ => ino
  }

  /** The table in block t with entry i replaced. */
  function SetEnt(e: seq<Block>, t: nat, i: nat, v: u32): seq<Block>
    requires t < |e| && i < |e[t]| / 4
  {
    e[t := Encode(Decode(e[t])[i := v])]
  }

  /** The table that holds slot s, as a slot itself. */
  function Parent(s: Slot): Slot
    requires s.SEntry? || s.Leaf? || s.LEntry?
  {
    match s
    case SEntry(_) => Single
    case Leaf(_) => Root
    case LEntry(j, _) => Leaf(j)
  }

  function Position(s: Slot): nat
    requires s.SEntry? || s.Leaf? || s.LEntry?
  {
    match s
    case SEntry(i) => i
    case Leaf(j) => j
    case LEntry(_, i) => i
  }

  /** What filling slot s with block b does to the inode and the blocks. */
  function FillInode(ino: Inode, s: Slot, b: u32): Inode
    requires s.Direct? ==> s.i < 12
  {
    SetRoot(ino, s, b)
  }

  ghost function FillBlocks(E: pos, e: seq<Block>, ino: Inode, s: Slot, b: u32): seq<Block>
    requires SizedBlocks(E, e) && b < |e| && InTree(E, s)
    requires s.SEntry? || s.Leaf? || s.LEntry? ==> At(e, ino, Parent(s)) < |e|
  {
    var e1 := if s.SEntry? || s.Leaf? || s.LEntry? then SetEnt(e, At(e, ino, Parent(s)), Position(s), b) else e;
    if IsTable(s) then e1[b := ZeroTable(E)] else e1
  }

  lemma FillSized(E: pos, e: seq<Block>, ino: Inode, s: Slot, b: u32)
    requires SizedBlocks(E, e) && b < |e| && InTree(E, s)
    requires s.SEntry? || s.Leaf? || s.LEntry? ==> At(e, ino, Parent(s)) < |e|
    ensures SizedBlocks(E, FillBlocks(E, e, ino, s, b)) && |FillBlocks(E, e, ino, s, b)| == |e|
  {
    hide Word;
  }

  lemma FillDirect(E: pos, e: seq<Block>, ino: Inode, sh: Shape, s: Slot, b: u32)
    requires Tree(E, e, ino, sh) && InTree(E, s) && !Live(E, sh, s)
    requires 0 < b < |e| && !Owns(E, e, ino, sh, b)
    requires s.Direct? || s.Single? || s.Root?
    ensures Filled(E, e, ino, FillBlocks(E, e, ino, s, b), FillInode(ino, s, b), s, b)
  {
    var e', ino' := FillBlocks(E, e, ino, s, b), FillInode(ino, s, b);
    forall t | IsTable(t) && Live(E, sh, t) ensures e'[At(e, ino, t)] == e[At(e, ino, t)] {
      assert At(e, ino, t) != b;
    }
    AtFrame(E, e, e', ino, sh);
    assert forall i :: 0 <= i < E && IsTable(s) ==> Ent(e', b, i) == 0;
    assert At(e, ino, s) == 0;
    forall t | InTree(E, t) ensures At(e', ino', t) == if t == s then b else At(e, ino, t) {
      assert At(e', ino, t) == At(e, ino, t);
    }
  }

  lemma FillEntry(E: pos, e: seq<Block>, ino: Inode, sh: Shape, s: Slot, b: u32)
    requires Tree(E, e, ino, sh) && InTree(E, s) && !Live(E, sh, s)
    requires 0 < b < |e| && !Owns(E, e, ino, sh, b)
    requires (s.SEntry? || s.Leaf? || s.LEntry?) && Live(E, sh, Parent(s))
    ensures Filled(E, e, ino, FillBlocks(E, e, ino, s, b), FillInode(ino, s, b), s, b)
  {
    var e' := FillBlocks(E, e, ino, s, b);
    var p := At(e, ino, Parent(s));
    assert p != b && p != 0;
    forall i | 0 <= i < E ensures Ent(e', p, i) == if i == Position(s) then b else Ent(e, p, i) {
      assert Decode(e[p])[i] == Word(e[p], i);
    }
    assert forall i :: 0 <= i < E && IsTable(s) ==> Ent(e', b, i) == 0;
    forall t | InTree(E, t) ensures At(e', ino, t) == if t == s then b else At(e, ino, t) {
      FillEntryAt(E, e, ino, sh, s, b, t);
    }
  }

  lemma FillEntryAt(E: pos, e: seq<Block>, ino: Inode, sh: Shape, s: Slot, b: u32, t: Slot)
    requires Tree(E, e, ino, sh) && InTree(E, s) && !Live(E, sh, s) && InTree(E, t)
    requires 0 < b < |e| && !Owns(E, e, ino, sh, b)
    requires (s.SEntry? || s.Leaf? || s.LEntry?) && Live(E, sh, Parent(s))
    requires
      var e', p := FillBlocks(E, e, ino, s, b), At(e, ino, Parent(s));
      && (forall i :: 0 <= i < E ==> Ent(e', p, i) == if i == Position(s) then b else Ent(e, p, i))
      && (IsTable(s) ==> forall i :: 0 <= i < E ==> Ent(e', b, i) == 0)
    ensures At(FillBlocks(E, e, ino, s, b), ino, t) == if t == s then b else At(e, ino, t)
  {
    var e' := FillBlocks(E, e, ino, s, b);
    var p := At(e, ino, Parent(s));
    assert forall x: nat, i: nat :: x != p && x != b ==> Ent(e', x, i) == Ent(e, x, i);
    assert At(e, ino, s) == 0;
    if t.SEntry? {
      TableOwned(E, e, ino, sh, Single, b);
      assert Parent(s) != Single ==> At(e, ino, Single) != p;
    } else if t.Leaf? {
      TableOwned(E, e, ino, sh, Root, b);
      assert Parent(s) != Root ==> At(e, ino, Root) != p;
    } else if t.LEntry? {
      TableOwned(E, e, ino, sh, Root, b);
      assert Parent(s) != Root ==> At(e, ino, Root) != p;
      TableOwned(E, e, ino, sh, Leaf(t.j), b);
      assert Parent(s) != Leaf(t.j) ==> At(e, ino, Leaf(t.j)) != p;
      assert At(e', ino, Leaf(t.j)) == if s == Leaf(t.j) then b else At(e, ino, Leaf(t.j));
    }
  }

  lemma TableOwned(E: pos, e: seq<Block>, ino: Inode, sh: Shape, t: Slot, b: nat)
    requires Tree(E, e, ino, sh) && IsTable(t) && InTree(E, t) && !Owns(E, e, ino, sh, b) && b != 0
    ensures At(e, ino, t) != b
  {
    assert At(e, ino, t) != 0 <==> Live(E, sh, t);
  }

  /** The shape after slot s is filled. */
  function Grown(sh: Shape, s: Slot): Shape {
    match s
    case Single => sh.(single := true)
    case Root => sh.(root := true)
    case Leaf(_) => sh.(leaves := sh.leaves + 1)
    case _ => sh.(n := sh.n + 1)
  }

  /** s is the next slot of its sort. */
  predicate NextSlot(E: pos, sh: Shape, s: Slot) {
    InTree(E, s) &&
    match s
    case Single => !sh.single
    case Root => !sh.root
    case Leaf(j) => j == sh.leaves && sh.root
    case Direct(_) => Index(E, s) == sh.n
    case SEntry(_) => Index(E, s) == sh.n && sh.single
    case LEntry(j, _) => Index(E, s) == sh.n && j < sh.leaves && sh.root
  }

  lemma GrownShape(E: pos, sh: Shape, s: Slot)
    requires ShapeOk(E, sh) && NextSlot(E, sh, s)
    ensures ShapeOk(E, Grown(sh, s)) && !Live(E, sh, s)
    ensures forall t :: Live(E, Grown(sh, s), t) <==> Live(E, sh, t) || t == s
  {
    if !IsTable(s) {
      IndexBound(E, s);
      forall t | InTree(E, t) && !IsTable(t) && Index(E, t) == sh.n ensures t == s {
        IndexInjective(E, s, t);
      }
      forall j: nat | j < E && LeafBase(E, j) < sh.n + 1 ensures j < sh.leaves {
        if LeafBase(E, j) == sh.n {
          IndexInjective(E, s, LEntry(j, 0));
        }
      }
      if sh.n == 12 {
        IndexInjective(E, s, SEntry(0));
      }
    }
  }

  lemma FillOne(E: pos, e: seq<Block>, ino: Inode, sh: Shape, s: Slot, b: u32)
    requires Tree(E, e, ino, sh) && NextSlot(E, sh, s) && !Live(E, sh, s)
    requires 0 < b < |e| && !Owns(E, e, ino, sh, b)
    ensures s.SEntry? || s.Leaf? || s.LEntry? ==> At(e, ino, Parent(s)) < |e|
    ensures Filled(E, e, ino, FillBlocks(E, e, ino, s, b), FillInode(ino, s, b), s, b)
    ensures SizedBlocks(E, FillBlocks(E, e, ino, s, b))
  {
    hide Encode, Decode, ZeroTable, SetEnt, FillBlocks, SizedBlocks;
    if s.Direct? || s.Single? || s.Root? {
      FillDirect(E, e, ino, sh, s, b);
    } else {
      assert Live(E, sh, Parent(s));
      FillEntry(E, e, ino, sh, s, b);
    }
    FillSized(E, e, ino, s, b);
  }

  /** Filling the next slot with a block nobody in the tree uses grows the
      tree by exactly that slot. */
  lemma FillNext(E: pos, e: seq<Block>, ino: Inode, sh: Shape, s: Slot, b: u32, e': seq<Block>, ino': Inode)
    requires Tree(E, e, ino, sh) && NextSlot(E, sh, s)
    requires 0 < b < |e| && !Owns(E, e, ino, sh, b)
    requires s.SEntry? || s.Leaf? || s.LEntry? ==> At(e, ino, Parent(s)) < |e|
    requires e' == FillBlocks(E, e, ino, s, b) && ino' == FillInode(ino, s, b)
    ensures Tree(E, e', ino', Grown(sh, s)) && Filled(E, e, ino, e', ino', s, b)
    ensures forall x :: Owns(E, e', ino', Grown(sh, s), x) <==> Owns(E, e, ino, sh, x) || x == b
  {
    GrownShape(E, sh, s);
    FillOne(E, e, ino, sh, s, b);
    TreeFilled(E, e, ino, sh, e', ino', s, b, Grown(sh, s));
  }
}
