/** The block device over AHCI commands: a read-ahead window in memory that
    must always agree with the disk. */
module AhciCache {
  import opened Machine
  import opened AhciPrdt

  const AHCI_READ_CACHE_SECTORS := 128
  const LBA48_LIMIT := 0x1_0000_0000_0000

  function Bytes(sectors: nat): nat {
    sectors * AHCI_SECTOR_SIZE
  }

  /** The bytes of count sectors from lba on. */
  function Sectors(disk: seq<byte>, lba: nat, count: nat): seq<byte> {
    if Bytes(lba + count) <= |disk| then disk[Bytes(lba)..Bytes(lba + count)] else []
  }

  function Overwritten(disk: seq<byte>, lba: nat, data: seq<byte>): (d: seq<byte>)
    ensures |d| == |disk|
  {
    if Bytes(lba) + |data| <= |disk| then disk[..Bytes(lba)] + data + disk[Bytes(lba) + |data|..] else disk
  }

  /** Memory after data is stored at virtual address v. */
  function AfterStore(memory: seq<byte>, pages: Pages, v: nat, data: seq<byte>): seq<byte> {
    Scattered(memory, Targets(pages, v, |data|), data)
  }

  /** n bytes of the address space; those that are mapped are memory. */
  predicate Backed(memory: seq<byte>, pages: Pages, v: nat, n: nat) {
    && v + n <= 0x1_0000_0000
    && forall i: nat :: i < n && ByteMapped(pages, v, i) ==> Physical(pages, v + i) < |memory|
  }

  /** A buffer of n bytes that the program may use. */
  predicate Usable(memory: seq<byte>, pages: Pages, v: nat, n: nat) {
    v != 0 && Backed(memory, pages, v, n) && AllMapped(pages, v, n)
  }

  predicate Apart(v: nat, n: nat, w: nat, m: nat) {
    v + n <= w || w + m <= v
  }

  /** Physical address a holds one of the mapped bytes of the buffer at v. */
  predicate Reaches(pages: Pages, v: nat, n: nat, a: nat) {
    exists i: nat :: i < n && ByteMapped(pages, v, i) && Physical(pages, v + i) == a
  }

  /** Only the n bytes at v may differ. */
  predicate Outside(m: seq<byte>, m': seq<byte>, pages: Pages, v: nat, n: nat) {
    && |m'| == |m|
    && forall a :: 0 <= a < |m| && !Reaches(pages, v, n, a) ==> m'[a] == m[a]
  }

  /** A piece of a buffer: mapped as far as the buffer is. */
  lemma BackedPart(memory: seq<byte>, pages: Pages, v: nat, n: nat, off: nat, k: nat)
    requires Backed(memory, pages, v, n) && off + k <= n
    ensures Backed(memory, pages, v + off, k)
    ensures AllMapped(pages, v, n) ==> AllMapped(pages, v + off, k)
    ensures Buffer(memory, pages, v + off, k) == Buffer(memory, pages, v, n)[off..off + k]
  {
    hide Physical, IsMapped;
    var w := v + off;
    assert forall i: nat :: i < k ==> (ByteMapped(pages, w, i) <==> ByteMapped(pages, v, off + i));
  }

  lemma UsablePart(memory: seq<byte>, pages: Pages, v: nat, n: nat, off: nat, k: nat)
    requires Usable(memory, pages, v, n) && off + k <= n
    ensures Usable(memory, pages, v + off, k)
    ensures Buffer(memory, pages, v + off, k) == Buffer(memory, pages, v, n)[off..off + k]
  {
    hide Backed, AllMapped, Buffer;
    BackedPart(memory, pages, v, n, off, k);
  }

  lemma StoredFacts(memory: seq<byte>, pages: Pages, v: nat, data: seq<byte>)
    requires Usable(memory, pages, v, |data|) && Unshared(pages)
    ensures Outside(memory, AfterStore(memory, pages, v, data), pages, v, |data|)
    ensures Buffer(AfterStore(memory, pages, v, data), pages, v, |data|) == data
  {
    hide Physical, Unshared, Scattered, IsMapped;
    forall i | 0 <= i < |data| ensures Targets(pages, v, |data|)[i] < |memory| {
      assert ByteMapped(pages, v, i);
    }
    StoreFillsBuffer(memory, pages, v, data);
    forall a | a in Targets(pages, v, |data|) ensures Reaches(pages, v, |data|, a) {
      var i :| 0 <= i < |data| && Targets(pages, v, |data|)[i] == a;
      assert ByteMapped(pages, v, i);
    }
  }

  /** Other buffers keep their bytes. */
  lemma Undisturbed(m: seq<byte>, m': seq<byte>, pages: Pages, v: nat, n: nat, w: nat, k: nat)
    requires Outside(m, m', pages, v, n) && AllMapped(pages, w, k) && Apart(v, n, w, k) && Unshared(pages)
    ensures Buffer(m', pages, w, k) == Buffer(m, pages, w, k)
  {
    hide Unshared, Physical;
    forall i | 0 <= i < k ensures Buffer(m', pages, w, k)[i] == Buffer(m, pages, w, k)[i] {
      var a := Physical(pages, w + i);
      if Reaches(pages, v, n, a) {
        var j: nat :| j < n && ByteMapped(pages, v, j) && Physical(pages, v + j) == a;
        assert ByteMapped(pages, w, i);
        PhysicalUnshared(pages, v + j, w + i);
      }
    }
  }

  lemma OutsideMore(m: seq<byte>, m': seq<byte>, pages: Pages, v: nat, n: nat, off: nat, k: nat)
    requires Outside(m, m', pages, v + off, k) && off + k <= n
    ensures Outside(m, m', pages, v, n)
  {
    hide Physical, IsMapped;
    forall a | Reaches(pages, v + off, k, a) ensures Reaches(pages, v, n, a) {
      var j: nat :| j < k && ByteMapped(pages, v + off, j) && Physical(pages, v + off + j) == a;
      assert ByteMapped(pages, v, off + j);
    }
  }

  lemma OutsideTwice(m: seq<byte>, m1: seq<byte>, m2: seq<byte>, pages: Pages, v: nat, n: nat)
    requires Outside(m, m1, pages, v, n) && Outside(m1, m2, pages, v, n)
    ensures Outside(m, m2, pages, v, n)
  {
  }

  lemma SliceOfSlice(s: seq<byte>, a: nat, b: nat, c: nat, d: nat)
    requires c <= d && a + d <= b <= |s|
    ensures s[a..b][c..d] == s[a + c..a + d]
  {
    forall k | 0 <= k < d - c ensures s[a..b][c..d][k] == s[a + c..a + d][k] {
      assert s[a..b][c + k] == s[a + (c + k)];
    }
  }

  lemma SectorsPart(disk: seq<byte>, lba: nat, count: nat, off: nat, k: nat)
    requires off + k <= count && Bytes(lba + count) <= |disk|
    ensures |Sectors(disk, lba, count)| == Bytes(count)
    ensures Sectors(disk, lba + off, k) == Sectors(disk, lba, count)[Bytes(off)..Bytes(off + k)]
  {
    SliceOfSlice(disk, Bytes(lba), Bytes(lba + count), Bytes(off), Bytes(off + k));
  }

  /** The window is a true copy of the disk range it names. */
  predicate WindowTrue(disk: seq<byte>, memory: seq<byte>, pages: Pages, window: nat, valid: bool, lba: nat, count: nat) {
    valid ==>
      && count <= AHCI_READ_CACHE_SECTORS && Bytes(lba + count) <= |disk|
      && Buffer(memory, pages, window, Bytes(count)) == Sectors(disk, lba, count)
  }

  lemma SectorBytes(disk: seq<byte>, lba: nat, count: nat)
    requires 512 * (lba + count) <= |disk|
    ensures Sectors(disk, lba, count) == disk[512 * lba..512 * (lba + count)] && Bytes(count) == 512 * count
  {
  }

  lemma OverwrittenBytes(disk: seq<byte>, lba: nat, count: nat, data: seq<byte>)
    requires |data| == 512 * count && 512 * (lba + count) <= |disk|
    ensures
      var disk' := Overwritten(disk, lba, data);
      && disk'[512 * lba..512 * (lba + count)] == data
      && disk'[..512 * lba] == disk[..512 * lba] && disk'[512 * (lba + count)..] == disk[512 * (lba + count)..]
  {
  }

  class Drive {
    const pages: Pages
    const window: u32
    const sectorCount: nat
    const prdt: array<PrdtEntry>
    var disk: seq<byte>
    var memory: seq<byte>
    var valid: bool
    var windowLba: nat
    var windowCount: nat
    ghost var failed: bool

    /** The size of the read-ahead buffer; there may be none. */
    function WindowBytes(): nat {
      if window == 0 then 0 else Bytes(AHCI_READ_CACHE_SECTORS)
    }

    predicate Valid()
      reads this
    {
      && |disk| == Bytes(sectorCount) && sectorCount <= LBA48_LIMIT
      && prdt.Length == AHCI_MAX_PRDT_ENTRIES
      && Unshared(pages) && (window != 0 ==> Usable(memory, pages, window, WindowBytes()))
      && (valid ==> window != 0)
      && WindowTrue(disk, memory, pages, window, valid, windowLba, windowCount)
    }

    constructor (pages: Pages, window: u32, disk: seq<byte>, sectorCount: nat, memory: seq<byte>)
      requires |disk| == Bytes(sectorCount) && sectorCount <= LBA48_LIMIT
      requires Unshared(pages) && (window != 0 ==> Usable(memory, pages, window, Bytes(AHCI_READ_CACHE_SECTORS)))
      ensures Valid() && fresh(prdt) && this.disk == disk && this.memory == memory && !valid && !failed
      ensures this.pages == pages && this.window == window && this.sectorCount == sectorCount
    {
      this.pages, this.window, this.disk, this.sectorCount, this.memory := pages, window, disk, sectorCount, memory;
      prdt := new PrdtEntry[AHCI_MAX_PRDT_ENTRIES](_ => PrdtEntry(0, 0, 0));
      valid, windowLba, windowCount, failed := false, 0, 0, false;
    }

    /** READ DMA EXT: the sectors go to the buffer through a descriptor table.
        A buffer that is not mapped throughout is refused; a failed command may
        leave anything in the buffer. */
    method ReadDma(lba: nat, count: nat, buffer: u32) returns (ok: bool)
      requires prdt.Length == AHCI_MAX_PRDT_ENTRIES && Unshared(pages) && Backed(memory, pages, buffer, Bytes(count))
      modifies this`memory, this`failed, prdt
      ensures Outside(old(memory), memory, pages, buffer, Bytes(count))
      ensures ok ==> buffer != 0 && AllMapped(pages, buffer, Bytes(count)) && Bytes(lba + count) <= |disk|
      ensures ok ==> Buffer(memory, pages, buffer, Bytes(count)) == Sectors(disk, lba, count) && failed == old(failed)
      ensures !ok ==> failed || buffer == 0 || !AllMapped(pages, buffer, Bytes(count))
                      || count == 0 || count > AHCI_MAX_SECTORS_PER_COMMAND || lba + count > LBA48_LIMIT || Bytes(lba + count) > |disk|
    {
      hide Physical, Scattered, Visited, Targets, AllMapped, Unshared, Buffer, PagesSpanned, Reaches, Backed;
      if count == 0 || count > AHCI_MAX_SECTORS_PER_COMMAND || lba >= LBA48_LIMIT || count > LBA48_LIMIT - lba {
        return false;
      }
      CommandFits(buffer, count);
      var used: nat;
      BackedFits(memory, pages, buffer, Bytes(count));
      ok, used := BuildDmaPrdt(pages, buffer, Bytes(count), prdt);
      if !ok {
        return;
      }
      if Bytes(lba + count) > |disk| {
        failed := true;
        return false;
      }
      var broken: bool := *;
      var data := Sectors(disk, lba, count);
      if broken {
        var junk: seq<byte> := *;
        failed, ok := true, false;
        if |junk| == |data| {
          data := junk;
        }
      }
      StoredFacts(memory, pages, buffer, data);
      memory := Scattered(memory, Visited(prdt[..used]), data);
    }

    /** WRITE DMA EXT: what the descriptor table gathers goes to the disk. A
        failed command may leave anything in the addressed sectors, a refused
        one leaves them alone. */
    method WriteDma(lba: nat, count: nat, buffer: u32) returns (ok: bool)
      requires prdt.Length == AHCI_MAX_PRDT_ENTRIES && buffer + Bytes(count) <= 0x1_0000_0000
      modifies this`disk, this`failed, prdt
      ensures ok ==> buffer != 0 && AllMapped(pages, buffer, Bytes(count))
      ensures !ok && !failed ==> disk == old(disk)
      ensures ok ==> Bytes(lba + count) <= |disk| && disk == Overwritten(old(disk), lba, Buffer(memory, pages, buffer, Bytes(count))) && failed == old(failed)
      ensures !ok ==> |disk| == |old(disk)| && forall i :: 0 <= i < |disk| && !(Bytes(lba) <= i < Bytes(lba + count)) ==> disk[i] == old(disk)[i]
      ensures !ok ==> failed || buffer == 0 || !AllMapped(pages, buffer, Bytes(count))
                      || count == 0 || count > AHCI_MAX_SECTORS_PER_COMMAND || lba + count > LBA48_LIMIT || Bytes(lba + count) > |disk|
    {
      hide Physical, Visited, Targets, AllMapped, PagesSpanned;
      if count == 0 || count > AHCI_MAX_SECTORS_PER_COMMAND || lba >= LBA48_LIMIT || count > LBA48_LIMIT - lba {
        return false;
      }
      CommandFits(buffer, count);
      var used: nat;
      ok, used := BuildDmaPrdt(pages, buffer, Bytes(count), prdt);
      if !ok {
        return;
      }
      if Bytes(lba + count) > |disk| {
        failed := true;
        return false;
      }
      GatherReadsBuffer(memory, pages, buffer, Bytes(count), prdt[..used]);
      var broken: bool := *;
      if broken {
        var junk: seq<byte> := *;
        failed := true;
        if |junk| == Bytes(count) {
          disk := Overwritten(disk, lba, junk);
        }
        return false;
      }
      disk := Overwritten(disk, lba, Gathered(memory, Visited(prdt[..used])));
    }

    /** ahci_read_cache_contains */
    predicate Contains(lba: nat, count: nat)
      reads this
    {
      valid && window != 0 && count != 0 && lba >= windowLba && lba - windowLba < windowCount && count <= windowCount - (lba - windowLba)
    }

    /** The miss path: the window is invalid while it is being refilled. */
    method Refill(lba: nat) returns (ok: bool)
      requires Valid() && lba < sectorCount && window != 0
      modifies this`memory, this`valid, this`windowLba, this`windowCount, this`failed, prdt
      ensures Valid() && Outside(old(memory), memory, pages, window, WindowBytes())
      ensures ok ==> valid && windowLba == lba && failed == old(failed)
      ensures ok ==> windowCount == if sectorCount - lba > 128 then 128 else sectorCount - lba
      ensures !ok ==> failed
    {
      hide Physical, AllMapped, Unshared, Targets, Buffer, Sectors, Backed, Outside;
      var sectorsAvailable := sectorCount - lba;
      var readAheadCount := if sectorsAvailable > AHCI_READ_CACHE_SECTORS then AHCI_READ_CACHE_SECTORS else sectorsAvailable;
      valid, windowCount := false, 0;
      UsablePart(memory, pages, window, Bytes(AHCI_READ_CACHE_SECTORS), 0, Bytes(readAheadCount));
      ghost var before := memory;
      ok := ReadDma(lba, readAheadCount, window);
      OutsideMore(before, memory, pages, window, Bytes(AHCI_READ_CACHE_SECTORS), 0, Bytes(readAheadCount));
      OutsideUsable(before, memory, pages, window, Bytes(AHCI_READ_CACHE_SECTORS), window, Bytes(AHCI_READ_CACHE_SECTORS));
      if !ok {
        return;
      }
      windowLba, windowCount, valid := lba, readAheadCount, true;
    }

    /** How many leading bytes of a buffer are mapped. */
    method LeadingMapped(v: nat, n: nat) returns (k: nat)
      ensures k <= n && AllMapped(pages, v, k) && (k == n <==> AllMapped(pages, v, n))
    {
      hide IsMapped;
      k := 0;
      while k < n
        invariant k <= n && AllMapped(pages, v, k)
      {
        if !IsMapped(pages, v + k) {
          assert !ByteMapped(pages, v, k);
          return;
        }
        k := k + 1;
      }
    }

    /** The hit path: memcpy out of the window. It stores byte by byte, so at the
        first byte that is not mapped the copy ends with a page fault. */
    method CopyOut(lba: nat, count: nat, buffer: u32) returns (done: bool)
      requires Valid() && Contains(lba, count) && buffer != 0
      requires Backed(memory, pages, buffer, Bytes(count)) && Apart(buffer, Bytes(count), window, WindowBytes())
      modifies this`memory
      ensures Valid() && Outside(old(memory), memory, pages, buffer, Bytes(count))
      ensures done <==> AllMapped(pages, buffer, Bytes(count))
      ensures done ==> Buffer(memory, pages, buffer, Bytes(count)) == Sectors(disk, lba, count)
    {
      hide Physical, AllMapped, Unshared, Targets, Buffer, Sectors, Usable, Backed, Outside, Scattered;
      var sectorOffset := lba - windowLba;
      var data := Buffer(memory, pages, window + Bytes(sectorOffset), Bytes(count));
      UsablePart(memory, pages, window, Bytes(AHCI_READ_CACHE_SECTORS), 0, Bytes(windowCount));
      UsablePart(memory, pages, window, Bytes(windowCount), Bytes(sectorOffset), Bytes(count));
      SectorsPart(disk, windowLba, windowCount, sectorOffset, count);
      var k := LeadingMapped(buffer, Bytes(count));
      done := k == Bytes(count);
      BackedPart(memory, pages, buffer, Bytes(count), 0, k);
      BackedFits(memory, pages, buffer, k);
      StoredFacts(memory, pages, buffer, data[..k]);
      UsableFacts(memory, pages, window, Bytes(windowCount));
      ghost var before := memory;
      memory := AfterStore(memory, pages, buffer, data[..k]);
      assert done ==> data[..k] == data;
      OutsideMore(before, memory, pages, buffer, Bytes(count), 0, k);
      Undisturbed(before, memory, pages, buffer, Bytes(count), window, Bytes(windowCount));
      OutsideUsable(before, memory, pages, buffer, Bytes(count), window, Bytes(AHCI_READ_CACHE_SECTORS));
    }

    /** The requests ahci_block_read and ahci_block_write turn away. */
    predicate InRange(lba: nat, count: nat) {
      count != 0 && lba < sectorCount && count <= sectorCount - lba
    }

    /** What the program that calls ahci_block_read owes: a buffer in the address
        space and apart from the driver's own. */
    predicate MayRead(lba: nat, count: nat, buffer: u32)
      reads this
    {
      buffer != 0 && InRange(lba, count) ==>
        Backed(memory, pages, buffer, Bytes(count)) && Apart(buffer, Bytes(count), window, WindowBytes())
    }

    /** Reads of this size are copied out of the window. */
    predicate ThroughWindow(count: nat) {
      window != 0 && count <= 128
    }

    /** ahci_block_read: whatever was read, written or failed before, a read
        that succeeds delivers the sectors as they are on the disk. A buffer
        that is not mapped throughout gives a page fault when the sectors are
        copied to it, and a refusal when the controller would store them. */
    method BlockRead(lba: nat, count: nat, buffer: u32) returns (ok: bool, fault: bool)
      requires Valid() && MayRead(lba, count, buffer)
      modifies this`memory, this`valid, this`windowLba, this`windowCount, this`failed, prdt
      ensures Valid()
      ensures OutsideBoth(old(memory), memory, pages, buffer, Bytes(count), window, WindowBytes())
      ensures ok ==> InRange(lba, count) && Buffer(memory, pages, buffer, Bytes(count)) == Sectors(disk, lba, count) && failed == old(failed)
      ensures ok ==> 512 * (lba + count) <= |disk| && Buffer(memory, pages, buffer, 512 * count) == disk[512 * lba..512 * (lba + count)]
      ensures ok ==> !fault && buffer != 0 && AllMapped(pages, buffer, Bytes(count))
      ensures fault ==> buffer != 0 && InRange(lba, count) && ThroughWindow(count) && !AllMapped(pages, buffer, Bytes(count))
      ensures !ok && !fault ==> buffer == 0 || !InRange(lba, count) || failed || (!ThroughWindow(count) && !AllMapped(pages, buffer, Bytes(count)))
    {
      hide Physical, AllMapped, Unshared, Targets, Buffer, Sectors, Backed, Outside, OutsideBoth, WindowTrue;
      fault := false;
      if InRange(lba, count) {
        SectorBytes(disk, lba, count);
      }
      OutsideNothing(memory, pages, buffer, Bytes(count), window, WindowBytes());
      if buffer == 0 || count == 0 || lba >= sectorCount || count > sectorCount - lba {
        return false, false;
      }
      ghost var start := memory;
      if count <= AHCI_READ_CACHE_SECTORS && window != 0 {
        if !Contains(lba, count) {
          ok := Refill(lba);
          OutsideUsable(start, memory, pages, window, WindowBytes(), buffer, Bytes(count));
          if !ok {
            OutsideEither(start, memory, memory, pages, buffer, Bytes(count), window, WindowBytes());
            return;
          }
        }
        ghost var filled := memory;
        ok := Contains(lba, count);
        if ok {
          ok := CopyOut(lba, count, buffer);
          fault := !ok;
        }
        OutsideEither(start, filled, memory, pages, buffer, Bytes(count), window, WindowBytes());
      } else {
        ok := ReadChunks(lba, count, buffer);
        OutsideEither(start, start, memory, pages, buffer, Bytes(count), window, WindowBytes());
      }
    }

    /** The bypass for large reads, and for all reads without a window: commands
        of at most 128 sectors. */
    method ReadChunks(lba: nat, count: nat, buffer: u32) returns (ok: bool)
      requires Valid() && InRange(lba, count) && buffer != 0
      requires Backed(memory, pages, buffer, Bytes(count)) && Apart(buffer, Bytes(count), window, WindowBytes())
      modifies this`memory, this`failed, prdt
      ensures Valid() && Outside(old(memory), memory, pages, buffer, Bytes(count))
      ensures ok ==> AllMapped(pages, buffer, Bytes(count))
      ensures ok ==> Buffer(memory, pages, buffer, Bytes(count)) == Sectors(disk, lba, count) && failed == old(failed)
      ensures !ok ==> failed || !AllMapped(pages, buffer, Bytes(count))
    {
      hide Physical, AllMapped, Unshared, Targets, Buffer, Sectors, Backed, Outside, WindowTrue;
      var currentLba := lba;
      var remaining: nat := count;
      var destination: nat := buffer;
      ghost var done := 0;
      NothingRead(disk, memory, pages, buffer, lba, Bytes(count));
      BackedFits(memory, pages, buffer, Bytes(count));
      while remaining > 0
        invariant done + remaining == count && currentLba == lba + done && destination == buffer + Bytes(done)
        invariant Valid() && Backed(memory, pages, buffer, Bytes(count)) && Outside(old(memory), memory, pages, buffer, Bytes(count))
        invariant AllMapped(pages, buffer, Bytes(done))
        invariant Buffer(memory, pages, buffer, Bytes(done)) == Sectors(disk, lba, done) && failed == old(failed)
      {
        var chunk := if remaining > AHCI_MAX_SECTORS_PER_COMMAND then AHCI_MAX_SECTORS_PER_COMMAND else remaining;
        BackedPart(memory, pages, buffer, Bytes(count), Bytes(done), Bytes(chunk));
        ghost var before := memory;
        ok := ReadDma(currentLba, chunk, destination);
        ChunkKeeps(disk, before, memory, pages, buffer, count, done, chunk, window, WindowBytes(), valid, windowLba, windowCount);
        OutsideTwice(old(memory), before, memory, pages, buffer, Bytes(count));
        if !ok {
          return;
        }
        ChunkRead(disk, before, memory, pages, buffer, lba, done, chunk);
        currentLba := currentLba + chunk;
        destination := destination + Bytes(chunk);
        remaining := remaining - chunk;
        done := done + chunk;
      }
      ok := true;
    }

    /** ahci_block_write: the sectors become the buffer's bytes; a write that
        fails damages at most the sectors it was for. Either way the window is
        given up before the disk changes. */
    method BlockWrite(lba: nat, count: nat, buffer: u32) returns (ok: bool)
      requires Valid() && (buffer != 0 && InRange(lba, count) ==> buffer + Bytes(count) <= 0x1_0000_0000)
      modifies this`disk, this`valid, this`windowCount, this`failed, prdt
      ensures Valid()
      ensures ok ==> InRange(lba, count) && buffer != 0 && AllMapped(pages, buffer, Bytes(count))
      ensures ok ==> disk == Overwritten(old(disk), lba, Buffer(memory, pages, buffer, Bytes(count))) && failed == old(failed)
      ensures ok ==> 512 * (lba + count) <= |disk| && |disk| == |old(disk)| && disk[512 * lba..512 * (lba + count)] == Buffer(memory, pages, buffer, 512 * count)
                     && disk[..512 * lba] == old(disk)[..512 * lba] && disk[512 * (lba + count)..] == old(disk)[512 * (lba + count)..]
      ensures !ok ==> buffer == 0 || !InRange(lba, count) || !AllMapped(pages, buffer, Bytes(count)) || failed
      ensures !ok ==> forall i :: 0 <= i < |disk| && !(Bytes(lba) <= i < Bytes(lba + count)) ==> disk[i] == old(disk)[i]
    {
      hide Physical, AllMapped, Unshared, Targets, Buffer, Usable, Overwritten, Partly;
      if buffer == 0 || count == 0 || lba >= sectorCount || count > sectorCount - lba {
        return false;
      }
      valid, windowCount := false, 0;
      var currentLba := lba;
      var remaining: nat := count;
      var source: nat := buffer;
      ghost var done := 0;
      NothingPartly(disk, lba, Buffer(memory, pages, buffer, Bytes(count)));
      NoTargets(pages, buffer);
      while remaining > 0
        invariant done + remaining == count && currentLba == lba + done && source == buffer + Bytes(done)
        invariant Valid() && !valid && failed == old(failed) && AllMapped(pages, buffer, Bytes(done))
        invariant Partly(old(disk), disk, lba, Buffer(memory, pages, buffer, Bytes(count)), done)
      {
        var chunk := if remaining > AHCI_MAX_SECTORS_PER_COMMAND then AHCI_MAX_SECTORS_PER_COMMAND else remaining;
        BufferPart(memory, pages, buffer, Bytes(count), Bytes(done), Bytes(chunk));
        ghost var before := disk;
        ok := WriteDma(currentLba, chunk, source);
        TargetsAppend(pages, buffer, Bytes(done), Bytes(chunk));
        PartlyNext(old(disk), before, disk, lba, Buffer(memory, pages, buffer, Bytes(count)), done, chunk, count, ok);
        if !ok {
          valid := false;
          return;
        }
        currentLba := currentLba + chunk;
        source := source + Bytes(chunk);
        remaining := remaining - chunk;
        done := done + chunk;
      }
      PartlyAll(old(disk), disk, lba, Buffer(memory, pages, buffer, Bytes(count)), count);
      OverwrittenBytes(old(disk), lba, count, Buffer(memory, pages, buffer, Bytes(count)));
      ok := true;
    }
  }

  /** The first done sectors of data have replaced those of disk at lba. */
  predicate Partly(disk: seq<byte>, disk': seq<byte>, lba: nat, data: seq<byte>, done: nat) {
    && |disk'| == |disk|
    && forall i :: 0 <= i < |disk| ==>
         disk'[i] == if Bytes(lba) <= i < Bytes(lba + done) && i - Bytes(lba) < |data| then data[i - Bytes(lba)] else disk[i]
  }

  lemma NothingPartly(d: seq<byte>, lba: nat, data: seq<byte>)
    ensures Partly(d, d, lba, data, 0)
  {
  }

  lemma PartlyNext(d: seq<byte>, d1: seq<byte>, d2: seq<byte>, lba: nat, data: seq<byte>, done: nat, chunk: nat, count: nat, ok: bool)
    requires Partly(d, d1, lba, data, done) && done + chunk <= count && |data| == Bytes(count) && Bytes(lba + count) <= |d|
    requires ok ==> d2 == Overwritten(d1, lba + done, data[Bytes(done)..Bytes(done + chunk)])
    requires !ok ==> |d2| == |d1| && forall i :: 0 <= i < |d1| && !(Bytes(lba + done) <= i < Bytes(lba + done + chunk)) ==> d2[i] == d1[i]
    ensures ok ==> Partly(d, d2, lba, data, done + chunk)
    ensures !ok ==> forall i :: 0 <= i < |d| && !(Bytes(lba) <= i < Bytes(lba + count)) ==> d2[i] == d[i]
  {
  }

  lemma PartlyAll(d: seq<byte>, d': seq<byte>, lba: nat, data: seq<byte>, count: nat)
    requires Partly(d, d', lba, data, count) && |data| == Bytes(count) && Bytes(lba + count) <= |d|
    ensures d' == Overwritten(d, lba, data)
  {
  }

  predicate OutsideBoth(m: seq<byte>, m': seq<byte>, pages: Pages, v: nat, n: nat, w: nat, k: nat) {
    && |m'| == |m|
    && forall a :: 0 <= a < |m| && !Reaches(pages, v, n, a) && !Reaches(pages, w, k, a) ==> m'[a] == m[a]
  }

  lemma OutsideNothing(m: seq<byte>, pages: Pages, v: nat, n: nat, w: nat, k: nat)
    ensures OutsideBoth(m, m, pages, v, n, w, k) && Outside(m, m, pages, w, k) && Outside(m, m, pages, v, n)
  {
  }

  lemma OutsideEither(m: seq<byte>, m1: seq<byte>, m2: seq<byte>, pages: Pages, v: nat, n: nat, w: nat, k: nat)
    requires (m1 == m || Outside(m, m1, pages, w, k)) && (m2 == m1 || Outside(m1, m2, pages, v, n))
    ensures OutsideBoth(m, m2, pages, v, n, w, k)
  {
  }

  lemma UsableFacts(m: seq<byte>, pages: Pages, v: nat, n: nat)
    requires Usable(m, pages, v, n)
    ensures AllMapped(pages, v, n) && v != 0 && v + n <= 0x1_0000_0000
  {
  }

  lemma BackedFits(m: seq<byte>, pages: Pages, v: nat, n: nat)
    requires Backed(m, pages, v, n)
    ensures v + n <= 0x1_0000_0000 && AllMapped(pages, v, 0)
    ensures v != 0 && AllMapped(pages, v, n) ==> Usable(m, pages, v, n)
  {
  }

  lemma BufferPart(memory: seq<byte>, pages: Pages, v: nat, n: nat, off: nat, k: nat)
    requires off + k <= n
    ensures AllMapped(pages, v, n) ==> AllMapped(pages, v + off, k)
    ensures Buffer(memory, pages, v + off, k) == Buffer(memory, pages, v, n)[off..off + k]
  {
    hide Physical, IsMapped;
    var w := v + off;
    assert forall i: nat :: i < k ==> (ByteMapped(pages, w, i) <==> ByteMapped(pages, v, off + i));
  }

  lemma OutsideUsable(m: seq<byte>, m': seq<byte>, pages: Pages, v: nat, n: nat, w: nat, k: nat)
    requires Outside(m, m', pages, v, n)
    ensures Backed(m, pages, w, k) ==> Backed(m', pages, w, k)
    ensures Usable(m, pages, w, k) ==> Usable(m', pages, w, k)
  {
  }

  lemma NothingRead(disk: seq<byte>, m: seq<byte>, pages: Pages, v: nat, lba: nat, n: nat)
    ensures Buffer(m, pages, v, Bytes(0)) == Sectors(disk, lba, 0) == []
    ensures Outside(m, m, pages, v, n)
  {
  }

  lemma ChunkKeeps(disk: seq<byte>, m: seq<byte>, m': seq<byte>, pages: Pages, v: nat, count: nat, done: nat, chunk: nat,
                   window: nat, windowBytes: nat, valid: bool, lba: nat, windowCount: nat)
    requires Outside(m, m', pages, v + Bytes(done), Bytes(chunk)) && done + chunk <= count
    requires valid ==> Usable(m, pages, window, windowBytes) && windowBytes == Bytes(AHCI_READ_CACHE_SECTORS)
    requires Apart(v, Bytes(count), window, windowBytes) && Unshared(pages)
    requires WindowTrue(disk, m, pages, window, valid, lba, windowCount)
    ensures Backed(m, pages, v, Bytes(count)) ==> Backed(m', pages, v, Bytes(count))
    ensures Usable(m, pages, window, windowBytes) ==> Usable(m', pages, window, windowBytes)
    ensures Outside(m, m', pages, v, Bytes(count)) && WindowTrue(disk, m', pages, window, valid, lba, windowCount)
  {
    hide Physical, AllMapped, Unshared, Targets, Buffer, Sectors, Usable, Backed, Outside;
    OutsideMore(m, m', pages, v, Bytes(count), Bytes(done), Bytes(chunk));
    OutsideUsable(m, m', pages, v, Bytes(count), v, Bytes(count));
    OutsideUsable(m, m', pages, v, Bytes(count), window, windowBytes);
    if valid {
      UsablePart(m, pages, window, windowBytes, 0, Bytes(windowCount));
      UsableFacts(m, pages, window, Bytes(windowCount));
      Undisturbed(m, m', pages, v, Bytes(count), window, Bytes(windowCount));
    }
  }

  lemma ChunkRead(disk: seq<byte>, m: seq<byte>, m': seq<byte>, pages: Pages, v: nat, lba: nat, done: nat, chunk: nat)
    requires Outside(m, m', pages, v + Bytes(done), Bytes(chunk)) && Unshared(pages)
    requires AllMapped(pages, v, Bytes(done)) && AllMapped(pages, v + Bytes(done), Bytes(chunk))
    requires Bytes(lba + done + chunk) <= |disk|
    requires Buffer(m, pages, v, Bytes(done)) == Sectors(disk, lba, done)
    requires Buffer(m', pages, v + Bytes(done), Bytes(chunk)) == Sectors(disk, lba + done, chunk)
    ensures AllMapped(pages, v, Bytes(done + chunk))
    ensures Buffer(m', pages, v, Bytes(done + chunk)) == Sectors(disk, lba, done + chunk)
  {
    hide Physical, AllMapped, Unshared, Targets, Buffer, Sectors, Outside;
    TargetsAppend(pages, v, Bytes(done), Bytes(chunk));
    BufferPart(m', pages, v, Bytes(done + chunk), 0, Bytes(done));
    BufferPart(m', pages, v, Bytes(done + chunk), Bytes(done), Bytes(chunk));
    Undisturbed(m, m', pages, v + Bytes(done), Bytes(chunk), v, Bytes(done));
    SectorsPart(disk, lba, done + chunk, 0, done);
    SectorsPart(disk, lba, done + chunk, done, chunk);
    var b, s := Buffer(m', pages, v, Bytes(done + chunk)), Sectors(disk, lba, done + chunk);
    assert b == b[..Bytes(done)] + b[Bytes(done)..Bytes(done + chunk)];
    assert s == s[..Bytes(done)] + s[Bytes(done)..Bytes(done + chunk)];
  }
}
