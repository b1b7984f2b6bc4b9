/** The blocks of a volume on the sectors of a partition: what the filesystem
    sees of the drive below it. */
module Ext2Device {
  import opened Machine
  import opened Arithmetic
  import opened AhciPrdt
  import opened AhciCache
  import opened Gpt
  import opened PartitionIo
  import opened Ext2Blocks
  import Content = Ext2Content

  /** The first of the k sectors of block n. */
  function SectorOf(n: nat, k: nat): nat {
    n * k
  }

  /** The partition at start carries these blocks of k sectors each. */
  predicate Carries(disk: seq<byte>, start: nat, k: nat, blocks: seq<Block>) {
    && Bytes(start + SectorOf(|blocks|, k)) <= |disk|
    && forall n :: 0 <= n < |blocks| ==> blocks[n] == Sectors(disk, start + SectorOf(n, k), k)
  }

  /** Block n of B bytes is the bytes from n * B on of the partition, which
      starts at the byte 512 * start of the drive. */
  lemma BlockBytes(disk: seq<byte>, start: nat, k: nat, blocks: seq<Block>, n: nat, B: nat, offset: nat)
    requires Carries(disk, start, k, blocks) && n < |blocks| && SectorOf(k, AHCI_SECTOR_SIZE) == B && offset == n * B
    ensures 512 * start + offset + B <= |disk| && blocks[n] == disk[512 * start + offset..512 * start + offset + B]
  {
    if k > 0 {
      MulLess(n, |blocks|, k);
    }
    assert offset == n * (k * 512) == (n * k) * 512;
  }

  lemma SectorsInOrder(m: nat, n: nat, k: nat)
    requires m < n
    ensures SectorOf(m, k) + k <= SectorOf(n, k)
  {
    if k > 0 {
      MulLess(m, n, k);
    }
  }

  /** Sectors apart from those that changed. */
  lemma SectorsKept(disk: seq<byte>, disk': seq<byte>, a: nat, k: nat, b: nat)
    requires |disk'| == |disk| && forall i :: 0 <= i < |disk| && !(Bytes(a) <= i < Bytes(a + k)) ==> disk'[i] == disk[i]
    requires b + k <= a || a + k <= b
    ensures Sectors(disk', b, k) == Sectors(disk, b, k)
  {
  }

  lemma SectorsStored(disk: seq<byte>, a: nat, k: nat, data: seq<byte>)
    requires |data| == Bytes(k) && Bytes(a + k) <= |disk|
    ensures Sectors(Overwritten(disk, a, data), a, k) == data
    ensures forall i :: 0 <= i < |disk| && !(Bytes(a) <= i < Bytes(a + k)) ==> Overwritten(disk, a, data)[i] == disk[i]
  {
  }

  /** Whatever happens to the sectors of block n changes block n only. */
  lemma BlockChanged(disk: seq<byte>, disk': seq<byte>, start: nat, k: nat, blocks: seq<Block>, n: nat)
    requires Carries(disk, start, k, blocks) && n < |blocks| && |disk'| == |disk|
    requires
      var a := start + SectorOf(n, k);
      forall i :: 0 <= i < |disk| && !(Bytes(a) <= i < Bytes(a + k)) ==> disk'[i] == disk[i]
    ensures Carries(disk', start, k, blocks[n := Sectors(disk', start + SectorOf(n, k), k)])
  {
    hide SectorOf, Sectors, Bytes;
    var a := start + SectorOf(n, k);
    var blocks' := blocks[n := Sectors(disk', a, k)];
    forall m | 0 <= m < |blocks'| ensures blocks'[m] == Sectors(disk', start + SectorOf(m, k), k) {
      if m < n {
        SectorsInOrder(m, n, k);
        SectorsKept(disk, disk', a, k, start + SectorOf(m, k));
      } else if n < m {
        SectorsInOrder(n, m, k);
        SectorsKept(disk, disk', a, k, start + SectorOf(m, k));
      }
    }
  }

  lemma FitsIn(n: nat, k: nat, count: nat)
    requires k > 0
    ensures n < Quotient(count, k) <==> SectorOf(n, k) + k <= count
    ensures SectorOf(Quotient(count, k), k) <= count
  {
    var q := Quotient(count, k);
    if n < q {
      MulLess(n, q, k);
    } else {
      MulMono(k, q, n);
    }
  }

  function Carved(disk: seq<byte>, start: nat, k: nat, count: nat): (blocks: seq<Block>)
    ensures |blocks| == count
    ensures Bytes(start + SectorOf(count, k)) <= |disk| ==> Carries(disk, start, k, blocks)
  {
    seq<Block>(count, n requires 0 <= n < count => Sectors(disk, start + SectorOf(n, k), k))
  }

  /** A partition as the filesystem uses it. blocks is what it holds, block by
      block; nothing else of the drive, in particular not its read-ahead window,
      appears in what reads and writes promise. */
  class BlockDevice {
    const drive: Drive
    const partition: Partition
    const entries: pos
    ghost var blocks: seq<Block>

    function PerBlock(): nat {
      Quotient(Content.BlockSize(entries), AHCI_SECTOR_SIZE)
    }

    /** A block is a whole number of sectors. */
    predicate Whole() {
      SectorOf(PerBlock(), AHCI_SECTOR_SIZE) == Content.BlockSize(entries)
    }

    ghost predicate Valid()
      reads this, drive
    {
      && drive.Valid() && Fits(partition, drive.sectorCount)
      && if !Whole() then blocks == []
         else
           && PerBlock() > 0 && |blocks| == Quotient(partition.sectorCount, PerBlock())
           && Carries(drive.disk, partition.startLba, PerBlock(), blocks)
    }

    constructor (drive: Drive, partition: Partition, entries: pos)
      requires drive.Valid() && Fits(partition, drive.sectorCount)
      ensures Valid() && this.drive == drive && this.partition == partition && this.entries == entries
    {
      this.drive, this.partition, this.entries := drive, partition, entries;
      blocks := [];
      new;
      hide SectorOf, Carries;
      if Whole() {
        NotEmpty(PerBlock(), Content.BlockSize(entries));
        var count := Quotient(partition.sectorCount, PerBlock());
        FitsIn(count, PerBlock(), partition.sectorCount);
        blocks := Carved(drive.disk, partition.startLba, PerBlock(), count);
      }
    }

    /** The buffer a caller of ext2_read_block owes. */
    predicate MayRead(buffer: u32)
      reads drive
    {
      && Backed(drive.memory, drive.pages, buffer, Content.BlockSize(entries))
      && Apart(buffer, Content.BlockSize(entries), drive.window, drive.WindowBytes())
    }

    /** ext2_read_block: the block, whatever was read, written or failed before. */
    method ReadBlock(n: u32, buffer: u32) returns (ok: bool, fault: bool)
      requires Valid() && MayRead(buffer)
      modifies drive, drive.prdt
      ensures Valid()
      ensures ok ==> n < |blocks| && Buffer(drive.memory, drive.pages, buffer, Content.BlockSize(entries)) == blocks[n]
      ensures ok ==> !fault && drive.failed == old(drive.failed)
      ensures !ok ==> buffer == 0 || n >= |blocks| || drive.failed || !AllMapped(drive.pages, buffer, Content.BlockSize(entries))
      ensures fault ==> !AllMapped(drive.pages, buffer, Content.BlockSize(entries))
    {
      hide Carries, Quotient, AllMapped, Backed, Buffer, Sectors;
      if buffer == 0 || !Whole() {
        return false, false;
      }
      FitsIn(n, PerBlock(), partition.sectorCount);
      ok, fault := PartitionRead(drive, partition, SectorOf(n, PerBlock()), PerBlock(), buffer);
      if n < |blocks| {
        CarriedAt(drive.disk, partition.startLba, PerBlock(), blocks, n);
      }
    }

    /** ext2_write_block: the block becomes the buffer's bytes and no other block
        changes; a failed write may leave anything in that block. */
    method WriteBlock(n: u32, buffer: u32) returns (ok: bool)
      requires Valid() && buffer + Content.BlockSize(entries) <= 0x1_0000_0000
      modifies this`blocks, drive, drive.prdt
      ensures Valid() && |blocks| == |old(blocks)| && drive.memory == old(drive.memory)
      ensures ok ==> n < |blocks| && drive.failed == old(drive.failed)
                     && blocks == old(blocks)[n := Buffer(drive.memory, drive.pages, buffer, Content.BlockSize(entries))]
      ensures !ok ==> buffer == 0 || n >= |blocks| || drive.failed || !AllMapped(drive.pages, buffer, Content.BlockSize(entries))
      ensures !ok ==> forall m :: 0 <= m < |blocks| && m != n ==> blocks[m] == old(blocks)[m]
    {
      hide Carries, Quotient, AllMapped, Backed, Buffer, Sectors, Overwritten;
      if buffer == 0 || !Whole() {
        return false;
      }
      FitsIn(n, PerBlock(), partition.sectorCount);
      ghost var before, at := drive.disk, partition.startLba + SectorOf(n, PerBlock());
      ok := PartitionWrite(drive, partition, SectorOf(n, PerBlock()), PerBlock(), buffer);
      if ok {
        SectorsStored(before, at, PerBlock(), Buffer(drive.memory, drive.pages, buffer, Content.BlockSize(entries)));
      }
      if n < |blocks| {
        BlockChanged(before, drive.disk, partition.startLba, PerBlock(), blocks, n);
        blocks := blocks[n := Sectors(drive.disk, at, PerBlock())];
      }
    }
  }

  /** A block written and any block read: with or without a window, and
      whatever the window held, the read gives what was written last. */
  method WriteThenRead(dev: BlockDevice, n: u32, source: u32, m: u32, buffer: u32) returns (ok: bool)
    requires dev.Valid() && dev.MayRead(buffer) && source + Content.BlockSize(dev.entries) <= 0x1_0000_0000
    modifies dev`blocks, dev.drive, dev.drive.prdt
    ensures dev.Valid()
    ensures ok ==> n < |old(dev.blocks)| && m < |old(dev.blocks)|
                   && Buffer(dev.drive.memory, dev.drive.pages, buffer, Content.BlockSize(dev.entries))
                      == if m == n then old(Buffer(dev.drive.memory, dev.drive.pages, source, Content.BlockSize(dev.entries))) else old(dev.blocks)[m]
    ensures !ok ==> source == 0 || buffer == 0 || n >= |old(dev.blocks)| || m >= |old(dev.blocks)| || dev.drive.failed
                    || !AllMapped(dev.drive.pages, source, Content.BlockSize(dev.entries))
                    || !AllMapped(dev.drive.pages, buffer, Content.BlockSize(dev.entries))
  {
    hide Carries, Quotient, AllMapped, Backed, Buffer, Sectors, Apart;
    ok := dev.WriteBlock(n, source);
    if ok {
      var fault: bool;
      ok, fault := dev.ReadBlock(m, buffer);
    }
  }

  lemma NotEmpty(k: nat, size: pos)
    requires SectorOf(k, AHCI_SECTOR_SIZE) == size
    ensures k > 0
  {
  }

  lemma CarriedAt(disk: seq<byte>, start: nat, k: nat, blocks: seq<Block>, n: nat)
    requires Carries(disk, start, k, blocks) && n < |blocks|
    ensures blocks[n] == Sectors(disk, start + SectorOf(n, k), k)
  {
  }
}
