/** Reading and writing through a partition of a drive. */
module PartitionIo {
  import opened Machine
  import opened AhciPrdt
  import opened AhciCache
  import opened Gpt

  /** What the scan guarantees of a partition it found. */
  predicate Fits(p: Partition, sectorCount: nat) {
    p.startLba + p.sectorCount <= sectorCount
  }

  predicate Inside(p: Partition, lba: nat, count: nat) {
    count != 0 && lba < p.sectorCount && count <= p.sectorCount - lba
  }

  /** partition_read */
  method PartitionRead(drive: Drive, p: Partition, lba: nat, count: nat, buffer: u32) returns (ok: bool, fault: bool)
    requires drive.Valid() && Fits(p, drive.sectorCount)
    requires Inside(p, lba, count) ==> drive.MayRead(p.startLba + lba, count, buffer)
    modifies drive, drive.prdt
    ensures drive.Valid() && drive.disk == old(drive.disk)
    ensures ok ==> Inside(p, lba, count)
                   && Buffer(drive.memory, drive.pages, buffer, Bytes(count)) == Sectors(drive.disk, p.startLba + lba, count)
                   && drive.failed == old(drive.failed)
    ensures fault ==> !ok && Inside(p, lba, count) && drive.ThroughWindow(count) && !AllMapped(drive.pages, buffer, Bytes(count))
    ensures !ok && !fault ==> buffer == 0 || !Inside(p, lba, count) || drive.failed
                              || (!drive.ThroughWindow(count) && !AllMapped(drive.pages, buffer, Bytes(count)))
  {
    if buffer == 0 || count == 0 {
      return false, false;
    }
    if lba >= p.sectorCount {
      return false, false;
    }
    if count > p.sectorCount - lba {
      return false, false;
    }
    ok, fault := drive.BlockRead(p.startLba + lba, count, buffer);
  }

  /** partition_write: no sector outside the partition can change, whether the
      write succeeds or fails. */
  method PartitionWrite(drive: Drive, p: Partition, lba: nat, count: nat, buffer: u32) returns (ok: bool)
    requires drive.Valid() && Fits(p, drive.sectorCount)
    requires buffer != 0 && Inside(p, lba, count) ==> buffer + Bytes(count) <= 0x1_0000_0000
    modifies drive, drive.prdt
    ensures drive.Valid() && drive.memory == old(drive.memory)
    ensures ok ==> Inside(p, lba, count)
                   && drive.disk == Overwritten(old(drive.disk), p.startLba + lba, Buffer(drive.memory, drive.pages, buffer, Bytes(count)))
                   && drive.failed == old(drive.failed)
    ensures !ok ==> buffer == 0 || !Inside(p, lba, count) || !AllMapped(drive.pages, buffer, Bytes(count)) || drive.failed
    ensures |drive.disk| == |old(drive.disk)|
    ensures !Inside(p, lba, count) ==> drive.disk == old(drive.disk)
    ensures !ok ==> forall i :: 0 <= i < |drive.disk| && !(Bytes(p.startLba + lba) <= i < Bytes(p.startLba + lba + count)) ==>
              drive.disk[i] == old(drive.disk)[i]
    ensures forall i :: 0 <= i < |drive.disk| && !(Bytes(p.startLba) <= i < Bytes(p.startLba + p.sectorCount)) ==>
              drive.disk[i] == old(drive.disk)[i]
  {
    if buffer == 0 || count == 0 {
      return false;
    }
    if lba >= p.sectorCount {
      return false;
    }
    if count > p.sectorCount - lba {
      return false;
    }
    ok := drive.BlockWrite(p.startLba + lba, count, buffer);
  }
}
