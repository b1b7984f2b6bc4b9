/** GUID partition tables (section 5.3 of the UEFI 2.10 specification): one
    entry at a time, and all entries in one pass. */
module Gpt {
  import opened Machine
  import opened Options
  import opened Arithmetic
  import opened Crc32

  const GPT_HEADER_SIGNATURE := 0x5452_4150_2049_4645
  const GPT_HEADER_MIN := 92
  const GPT_ENTRY_SIZE := 128
  const SECTOR_SIZE := 512

  /** The parent disk. Reads fail only outside it. */
  datatype Device = Device(sectorSize: nat, sectorCount: nat, bytes: seq<bv8>)

  predicate DeviceOk(d: Device) {
    && d.sectorCount < 0x1_0000_0000_0000_0000
    && (d.sectorSize == SECTOR_SIZE ==> |d.bytes| == SECTOR_SIZE * d.sectorCount)
  }

  datatype Partition = Partition(startLba: nat, sectorCount: nat)

  function SectorAt(d: Device, lba: nat): seq<bv8> {
    Slice(d.bytes, SECTOR_SIZE * lba, SECTOR_SIZE)
  }

  /** n bytes from position p, as far as there are any. */
  function Slice(s: seq<bv8>, p: nat, n: nat): seq<bv8> {
    if p + n <= |s| then s[p..p + n] else []
  }

  method BlockRead(d: Device, lba: nat) returns (ok: bool, sector: seq<bv8>)
    ensures ok <==> lba < d.sectorCount
    ensures ok ==> sector == SectorAt(d, lba)
  {
    return lba < d.sectorCount, SectorAt(d, lba);
  }

  /* ---------- little-endian fields ---------- */

  function ByteAt(s: seq<bv8>, p: nat): bv8 {
    if p < |s| then s[p] else 0
  }

  function Le16(s: seq<bv8>, p: nat): nat {
    ByteAt(s, p) as int + 0x100 * (ByteAt(s, p + 1) as int)
  }

  function Le32(s: seq<bv8>, p: nat): nat {
    Le16(s, p) + 0x1_0000 * Le16(s, p + 2)
  }

  function Le64(s: seq<bv8>, p: nat): nat {
    Le32(s, p) + 0x1_0000_0000 * Le32(s, p + 4)
  }

  function CrcField(s: seq<bv8>, p: nat): bv32 {
    Word([ByteAt(s, p), ByteAt(s, p + 1), ByteAt(s, p + 2), ByteAt(s, p + 3)])
  }

  datatype Header = Header(signature: nat, headerSize: nat, headerCrc: bv32, firstUsable: nat, lastUsable: nat,
                           entriesLba: nat, entryCount: nat, entrySize: nat, entriesCrc: bv32)

  function HeaderOf(s: seq<bv8>): Header {
    Header(Le64(s, 0), Le32(s, 12), CrcField(s, 16), Le64(s, 40), Le64(s, 48), Le64(s, 72), Le32(s, 80), Le32(s, 84), CrcField(s, 88))
  }

  /** The header's bytes as its CRC covers them: the CRC field itself is zero. */
  function Covered(s: seq<bv8>, size: nat): seq<bv8> {
    if 20 <= size <= |s| then s[..16] + [0, 0, 0, 0] + s[20..size] else []
  }

  /* ---------- what makes a table valid ---------- */

  function TheHeader(d: Device): Header {
    HeaderOf(SectorAt(d, 1))
  }

  predicate HeaderOk(d: Device) {
    var h := TheHeader(d);
    && d.sectorSize == SECTOR_SIZE && d.sectorCount > 1
    && h.signature == GPT_HEADER_SIGNATURE
    && GPT_HEADER_MIN <= h.headerSize <= SECTOR_SIZE
    && h.entrySize >= GPT_ENTRY_SIZE
    && Crc(Covered(SectorAt(d, 1), h.headerSize)) == h.headerCrc
  }

  function TableBytes(h: Header): nat {
    h.entryCount * h.entrySize
  }

  function SectorsFor(bytes: nat): nat {
    (bytes + SECTOR_SIZE - 1) / SECTOR_SIZE
  }

  /** The bytes of the entry array. */
  function Table(d: Device, h: Header): seq<bv8> {
    Slice(d.bytes, SECTOR_SIZE * h.entriesLba, TableBytes(h))
  }

  predicate TableInside(d: Device, lba: nat, bytes: nat) {
    lba < d.sectorCount && SectorsFor(bytes) <= d.sectorCount - lba
  }

  predicate TableOk(d: Device, h: Header) {
    TableInside(d, h.entriesLba, TableBytes(h)) && Crc(Table(d, h)) == h.entriesCrc
  }

  /** The byte offset of entry i in the entry array. */
  function EntryOffset(h: Header, i: nat): nat {
    i * h.entrySize
  }

  function EntryLba(h: Header, i: nat): nat {
    h.entriesLba + EntryOffset(h, i) / SECTOR_SIZE
  }

  function EntryStart(h: Header, i: nat): nat {
    EntryOffset(h, i) % SECTOR_SIZE
  }

  predicate ZeroGuid(s: seq<bv8>, p: nat) {
    forall j :: p <= j < p + 16 ==> ByteAt(s, j) == 0
  }

  /** The partition that an entry describes, when it describes one that lies
      in the usable range and on the disk. */
  function EntryPartition(d: Device, h: Header, s: seq<bv8>, p: nat): Option<Partition> {
    var first, last := Le64(s, p + 32), Le64(s, p + 40);
    if !ZeroGuid(s, p) && h.firstUsable <= first <= last <= h.lastUsable && last < d.sectorCount
    then Some(Partition(first, last - first + 1)) else None
  }

  /** What entry i of a valid table gives. */
  function EntryAt(d: Device, h: Header, i: nat): Option<Partition> {
    if EntryStart(h, i) + h.entrySize > SECTOR_SIZE || EntryLba(h, i) >= d.sectorCount then None
    else EntryPartition(d, h, SectorAt(d, EntryLba(h, i)), EntryStart(h, i))
  }

  function FromGpt(d: Device, i: nat): Option<Partition> {
    var h := TheHeader(d);
    if HeaderOk(d) && i < h.entryCount && TableOk(d, h) then EntryAt(d, h, i) else None
  }

  function Listed(o: Option<Partition>): seq<Partition> {
    if o.None? then [] else [o.value]
  }

  /** The partitions of the first n entries, one by one, in index order. */
  function FirstEntries(d: Device, n: nat): seq<Partition> {
    if n == 0 then [] else FirstEntries(d, n - 1) + Listed(FromGpt(d, n - 1))
  }

  function Cut<T>(s: seq<T>, max: nat): seq<T> {
    if |s| <= max then s else s[..max]
  }

  /* ---------- the operations ---------- */

  /** The read loop over the entry array, one sector at a time. */
  method ReadTable(d: Device, lba: nat, bytes: nat) returns (ok: bool, crc: bv32)
    requires DeviceOk(d) && d.sectorSize == SECTOR_SIZE
    ensures bytes == 0 ==> ok
    ensures bytes > 0 ==> (ok <==> TableInside(d, lba, bytes))
    ensures ok && TableInside(d, lba, bytes) ==> crc == Crc(Slice(d.bytes, SECTOR_SIZE * lba, bytes))
  {
    hide Update, Complement, Bits, MessageBits;
    crc := CRC_START;
    var remaining: nat := bytes;
    var tableLba := lba;
    ghost var done: nat := 0;
    NothingYet(d, lba);
    while remaining > 0
      invariant done + remaining == bytes && tableLba <= lba + bytes
      invariant remaining > 0 ==> SECTOR_SIZE * tableLba == SECTOR_SIZE * lba + done
      invariant remaining > 0 ==> tableLba <= d.sectorCount || tableLba == lba
      invariant remaining == 0 && bytes > 0 ==> TableInside(d, lba, bytes)
      invariant done == 0 || SECTOR_SIZE * lba + done <= |d.bytes|
      invariant crc == Update(CRC_START, Slice(d.bytes, SECTOR_SIZE * lba, done))
    {
      var sector: seq<bv8>;
      ok, sector := BlockRead(d, tableLba);
      if !ok {
        return;
      }
      var chunk := if remaining < SECTOR_SIZE then remaining else SECTOR_SIZE;
      crc := Crc32Update(crc, sector[..chunk]);
      SliceNext(d.bytes, SECTOR_SIZE * lba, done, sector, chunk);
      UpdateSplit(CRC_START, Slice(d.bytes, SECTOR_SIZE * lba, done), sector[..chunk]);
      remaining := remaining - chunk;
      done := done + chunk;
      tableLba := tableLba + 1;
    }
    crc := Complement(crc);
    ok := true;
  }

  lemma NothingYet(d: Device, lba: nat)
    ensures Update(CRC_START, Slice(d.bytes, SECTOR_SIZE * lba, 0)) == CRC_START
  {
  }

  lemma SliceNext(s: seq<bv8>, p: nat, done: nat, sector: seq<bv8>, chunk: nat)
    requires p + done + SECTOR_SIZE <= |s| && sector == s[p + done..p + done + SECTOR_SIZE] && chunk <= SECTOR_SIZE
    ensures Slice(s, p, done + chunk) == Slice(s, p, done) + sector[..chunk]
  {
    var mid := p + done;
    assert s[mid..mid + SECTOR_SIZE][..chunk] == s[mid..mid + chunk];
    assert s[p..mid + chunk] == s[p..mid] + s[mid..mid + chunk];
  }

  /** The header checks, the same in both operations. */
  method ReadHeader(d: Device) returns (ok: bool, h: Header)
    requires DeviceOk(d)
    ensures ok <==> HeaderOk(d)
    ensures ok ==> h == TheHeader(d)
  {
    hide Le64, Le32, CrcField, Crc, Covered, HeaderOf, SectorAt;
    h := Header(0, 0, 0, 0, 0, 0, 0, 0, 0);
    if d.sectorSize != SECTOR_SIZE {
      return false, h;
    }
    var sector: seq<bv8>;
    ok, sector := BlockRead(d, 1);
    if !ok {
      return;
    }
    h := HeaderOf(sector);
    if h.signature != GPT_HEADER_SIGNATURE {
      return false, h;
    }
    if h.headerSize < GPT_HEADER_MIN || h.headerSize > d.sectorSize {
      return false, h;
    }
    var actual := Crc32Compute(Covered(sector, h.headerSize));
    if actual != h.headerCrc {
      return false, h;
    }
    if h.entrySize < GPT_ENTRY_SIZE {
      return false, h;
    }
    ok := true;
  }

  /** The entry checks: type, order, usable range and disk range. */
  method CheckEntry(d: Device, h: Header, s: seq<bv8>, p: nat) returns (o: Option<Partition>)
    ensures o == EntryPartition(d, h, s, p)
  {
    hide Le64;
    var empty := true;
    for j := p to p + 16
      invariant empty <==> forall k :: p <= k < j ==> ByteAt(s, k) == 0
    {
      if ByteAt(s, j) != 0 {
        empty := false;
        break;
      }
    }
    if empty {
      return None;
    }
    var first, last := Le64(s, p + 32), Le64(s, p + 40);
    if first > last || first < h.firstUsable || last > h.lastUsable || last >= d.sectorCount {
      return None;
    }
    return Some(Partition(first, last - first + 1));
  }

  /** partition_from_gpt */
  method PartitionFromGpt(d: Device, index: nat) returns (o: Option<Partition>)
    requires DeviceOk(d)
    ensures o == FromGpt(d, index)
  {
    hide HeaderOk, HeaderOf, Crc, EntryPartition;
    var ok: bool, h: Header;
    ok, h := ReadHeader(d);
    if !ok {
      return None;
    }
    if index >= h.entryCount {
      return None;
    }
    if h.entriesLba >= d.sectorCount {
      return None;
    }
    HeaderFacts(d);
    var tableBytes := TableBytes(h);
    var tableSectors := (tableBytes + d.sectorSize - 1) / d.sectorSize;
    if tableSectors > d.sectorCount - h.entriesLba {
      return None;
    }
    var crc: bv32;
    ok, crc := ReadTable(d, h.entriesLba, tableBytes);
    if !ok || crc != h.entriesCrc {
      return None;
    }
    var entryLba := EntryLba(h, index);
    if entryLba >= d.sectorCount {
      return None;
    }
    if EntryStart(h, index) + h.entrySize > d.sectorSize {
      return None;
    }
    var sector: seq<bv8>;
    ok, sector := BlockRead(d, entryLba);
    if !ok {
      return None;
    }
    o := CheckEntry(d, h, sector, EntryStart(h, index));
  }

  lemma HeaderFacts(d: Device)
    requires HeaderOk(d)
    ensures d.sectorSize == SECTOR_SIZE && TheHeader(d).entrySize >= GPT_ENTRY_SIZE
  {
  }

  lemma {:induction false} NoEntries(d: Device, n: nat)
    requires !HeaderOk(d) || !TableOk(d, TheHeader(d))
    ensures FirstEntries(d, n) == []
  {
    if n > 0 {
      NoEntries(d, n - 1);
    }
  }

  lemma {:induction false} EntriesGrow(d: Device, m: nat, n: nat)
    requires m <= n
    ensures |FirstEntries(d, m)| <= |FirstEntries(d, n)| && FirstEntries(d, m) == FirstEntries(d, n)[..|FirstEntries(d, m)|]
  {
    hide FromGpt;
    if m < n {
      EntriesGrow(d, m, n - 1);
    }
  }

  /** An entry that gives a partition stands behind those of smaller index, and
      nothing else is listed. */
  lemma {:induction false} EntryListed(d: Device, i: nat, n: nat)
    requires i < n
    ensures FromGpt(d, i).Some? ==>
              |FirstEntries(d, i)| < |FirstEntries(d, n)| && FirstEntries(d, n)[|FirstEntries(d, i)|] == FromGpt(d, i).value
    ensures |FirstEntries(d, i + 1)| == |FirstEntries(d, i)| + (if FromGpt(d, i).Some? then 1 else 0)
    ensures |FirstEntries(d, 0)| == 0
  {
    hide FromGpt;
    EntriesGrow(d, i + 1, n);
    assert FirstEntries(d, i + 1) == FirstEntries(d, i) + Listed(FromGpt(d, i));
  }

  lemma NotEmptyTable(h: Header)
    requires h.entryCount > 0 && h.entrySize > 0
    ensures TableBytes(h) > 0
  {
  }

  /** partition_scan_gpt: one pass over the table finds, in index order and up
      to the maximum, exactly the partitions that PartitionFromGpt finds index
      by index. */
  method ScanGpt(d: Device, partitions: array<Partition>, max: nat) returns (found: nat)
    requires DeviceOk(d) && max <= partitions.Length
    modifies partitions
    ensures found <= max && found <= |FirstEntries(d, TheHeader(d).entryCount)|
    ensures found == max || found == |FirstEntries(d, TheHeader(d).entryCount)|
    ensures forall k :: 0 <= k < found ==> partitions[k] == FirstEntries(d, TheHeader(d).entryCount)[k]
    ensures partitions[..found] == Cut(FirstEntries(d, TheHeader(d).entryCount), max)
    ensures partitions[found..] == old(partitions[found..])
  {
    hide HeaderOk, HeaderOf, Crc, EntryPartition, FirstEntries, TableOk, FromGpt, EntryLba, EntryStart, TheHeader;
    found := 0;
    if max == 0 {
      return;
    }
    var ok: bool, h: Header;
    ok, h := ReadHeader(d);
    if !ok {
      NoEntries(d, TheHeader(d).entryCount);
      return;
    }
    HeaderFacts(d);
    var crc: bv32;
    ok, crc := ReadTable(d, h.entriesLba, TableBytes(h));
    ScanChecked(d, h, ok, crc);
    if !ok || crc != h.entriesCrc {
      return;
    }
    NothingFound(d);
    var index := 0;
    while index < h.entryCount && found < max
      invariant index <= h.entryCount && found <= max
      invariant partitions[..found] == FirstEntries(d, index)
      invariant partitions[found..] == old(partitions[found..])
    {
      var o: Option<Partition> := None;
      if EntryStart(h, index) + h.entrySize <= d.sectorSize {
        var sector: seq<bv8>;
        ok, sector := BlockRead(d, EntryLba(h, index));
        if ok {
          o := CheckEntry(d, h, sector, EntryStart(h, index));
        }
      }
      EntryFound(d, h, index, o);
      if o.Some? {
        ghost var before := partitions[..];
        partitions[found] := o.value;
        OneMore(before, partitions[..], found, o.value);
        found := found + 1;
      }
      index := index + 1;
    }
    EntriesGrow(d, index, h.entryCount);
  }

  lemma NothingFound(d: Device)
    ensures FirstEntries(d, 0) == []
  {
  }

  lemma ScanChecked(d: Device, h: Header, ok: bool, crc: bv32)
    requires HeaderOk(d) && h == TheHeader(d)
    requires TableBytes(h) > 0 ==> (ok <==> TableInside(d, h.entriesLba, TableBytes(h)))
    requires ok && TableInside(d, h.entriesLba, TableBytes(h)) ==> crc == Crc(Table(d, h))
    ensures !ok || crc != h.entriesCrc ==> FirstEntries(d, h.entryCount) == []
    ensures ok && crc == h.entriesCrc && h.entryCount > 0 ==> TableOk(d, h)
  {
    hide HeaderOk, HeaderOf, SectorAt, Crc, Table, FromGpt, TableBytes, TableInside;
    if h.entryCount > 0 {
      HeaderFacts(d);
      NotEmptyTable(h);
      if !ok || crc != h.entriesCrc {
        NoEntries(d, h.entryCount);
      }
    } else {
      NothingFound(d);
    }
  }

  lemma EntryFound(d: Device, h: Header, index: nat, o: Option<Partition>)
    requires HeaderOk(d) && h == TheHeader(d) && TableOk(d, h) && index < h.entryCount
    requires o == EntryAt(d, h, index)
    ensures FirstEntries(d, index + 1) == FirstEntries(d, index) + Listed(o)
  {
  }

  lemma OneMore<T>(a: seq<T>, b: seq<T>, k: nat, x: T)
    requires |a| == |b| && k < |a| && b == a[k := x]
    ensures b[..k + 1] == a[..k] + [x] && b[k + 1..] == a[k + 1..]
  {
  }

  lemma FieldsSmall(s: seq<bv8>, p: nat)
    ensures Le32(s, p) < 0x1_0000_0000
  {
  }

  lemma ProductSmall(a: nat, b: nat)
    requires a < 0x1_0000_0000 && b < 0x1_0000_0000
    ensures a * b <= 0xFFFF_FFFF * 0xFFFF_FFFF
  {
    MulMono(a, b, 0xFFFF_FFFF);
  }

  /** The 64-bit sums of both operations never wrap: the rounded-up size of the
      table fits, and every entry of a valid table is in a sector of the disk. */
  lemma NoWrap(d: Device, i: nat)
    requires HeaderOk(d) && TableOk(d, TheHeader(d)) && i < TheHeader(d).entryCount
    ensures TableBytes(TheHeader(d)) + SECTOR_SIZE - 1 < 0x1_0000_0000_0000_0000
    ensures EntryLba(TheHeader(d), i) < d.sectorCount
  {
    hide Crc, Le32, Le64, SectorAt, CrcField, Covered;
    var h := TheHeader(d);
    FieldsSmall(SectorAt(d, 1), 80);
    FieldsSmall(SectorAt(d, 1), 84);
    ProductSmall(h.entryCount, h.entrySize);
    MulLess(i, h.entryCount, h.entrySize);
  }

  /** Every partition found is non-empty and lies in the usable range and on
      the disk. */
  lemma InsideDisk(d: Device, i: nat)
    requires FromGpt(d, i).Some?
    ensures
      var p, h := FromGpt(d, i).value, TheHeader(d);
      && 1 <= p.sectorCount && p.startLba + p.sectorCount <= d.sectorCount
      && h.firstUsable <= p.startLba && p.startLba + p.sectorCount - 1 <= h.lastUsable
  {
    hide HeaderOk, TableOk, Le64, ZeroGuid, EntryLba, EntryStart;
  }

  lemma {:induction false} AllInsideDisk(d: Device, n: nat, k: nat)
    requires k < |FirstEntries(d, n)|
    ensures
      var p := FirstEntries(d, n)[k];
      && 1 <= p.sectorCount && p.startLba + p.sectorCount <= d.sectorCount
      && TheHeader(d).firstUsable <= p.startLba && p.startLba + p.sectorCount - 1 <= TheHeader(d).lastUsable
  {
    hide FromGpt, TheHeader;
    if n > 0 {
      if k < |FirstEntries(d, n - 1)| {
        AllInsideDisk(d, n - 1, k);
      } else {
        InsideDisk(d, n - 1);
      }
    }
  }

  /** Damage to at most four consecutive bytes of a valid entry array makes
      every entry be refused. */
  lemma DamageRefused(d: Device, d': Device, before: seq<bv8>, u: seq<bv8>, v: seq<bv8>, after: seq<bv8>, i: nat)
    requires HeaderOk(d) && TableOk(d, TheHeader(d)) && TheHeader(d') == TheHeader(d)
    requires Table(d, TheHeader(d)) == before + u + after && Table(d', TheHeader(d)) == before + v + after
    requires |u| == |v| <= 4 && u != v
    ensures FromGpt(d', i) == None
  {
    hide HeaderOk, HeaderOf, Crc, EntryAt;
    BurstDetected(before, u, v, after);
  }

  /* ---------- the layout of a table ---------- */

  /** The number that some bytes stand for, the lowest byte first. */
  function Number(b: seq<bv8>): nat {
    if b == [] then 0 else (b[0] as int) + 0x100 * Number(b[1..])
  }

  /** These bytes are in s from position p on. */
  predicate Laid(s: seq<bv8>, p: nat, field: seq<bv8>) {
    p + |field| <= |s| && s[p..p + |field|] == field
  }

  lemma LaidBytes(s: seq<bv8>, p: nat, field: seq<bv8>)
    requires Laid(s, p, field)
    ensures forall j :: 0 <= j < |field| ==> ByteAt(s, p + j) == field[j]
  {
    forall j | 0 <= j < |field| ensures ByteAt(s, p + j) == field[j] {
      assert s[p..p + |field|][j] == s[p + j];
    }
  }

  lemma LaidAppend(a: seq<bv8>, b: seq<bv8>)
    ensures Laid(a + b, |a|, b)
    ensures forall p: nat, field :: Laid(a, p, field) ==> Laid(a + b, p, field)
  {
    forall p: nat, field: seq<bv8> | Laid(a, p, field) ensures Laid(a + b, p, field) {
      assert (a + b)[p..p + |field|] == a[p..p + |field|];
    }
  }

  lemma LaidAfter(a: seq<bv8>, b: seq<bv8>, c: seq<bv8>, p: nat, field: seq<bv8>)
    requires Laid(b, p, field)
    ensures Laid(a + b + c, |a| + p, field)
  {
    assert (a + b + c)[|a| + p..|a| + p + |field|] == b[p..p + |field|];
  }

  lemma FourSplit(b: seq<bv8>)
    requires |b| >= 4
    ensures Number(b) == (b[0] as int) + 0x100 * (b[1] as int) + 0x1_0000 * (b[2] as int) + 0x100_0000 * (b[3] as int)
                         + 0x1_0000_0000 * Number(b[4..])
  {
    var b1, b2, b3 := b[1..], b[2..], b[3..];
    assert b1[1..] == b2 && b2[1..] == b3 && b3[1..] == b[4..];
    assert Number(b) == (b[0] as int) + 0x100 * Number(b1) && Number(b1) == (b[1] as int) + 0x100 * Number(b2);
    assert Number(b2) == (b[2] as int) + 0x100 * Number(b3) && Number(b3) == (b[3] as int) + 0x100 * Number(b[4..]);
  }

  lemma NoNumber()
    ensures Number([]) == 0
  {
  }

  lemma FourBytes(s: seq<bv8>, p: nat, b: seq<bv8>)
    requires Laid(s, p, b) && |b| == 4
    ensures Le32(s, p) == Number(b)
  {
    hide Laid, Number;
    LaidBytes(s, p, b);
    assert ByteAt(s, p + 0) == b[0] && ByteAt(s, p + 1) == b[1] && ByteAt(s, p + 2) == b[2] && ByteAt(s, p + 3) == b[3];
    FourSplit(b);
    assert b[4..] == [];
    NoNumber();
  }

  lemma EightBytes(s: seq<bv8>, p: nat, b: seq<bv8>)
    requires Laid(s, p, b) && |b| == 8
    ensures Le64(s, p) == Number(b)
  {
    hide Number, Le32;
    assert s[p..p + 4] == b[..4] && s[p + 4..p + 4 + 4] == b[4..];
    FourBytes(s, p, b[..4]);
    FourBytes(s, p + 4, b[4..]);
    FourSplit(b);
    FourSplit(b[..4]);
    assert b[..4][4..] == [];
    NoNumber();
  }

  lemma CrcBytes(s: seq<bv8>, p: nat, b: seq<bv8>)
    requires Laid(s, p, b) && |b| == 4
    ensures CrcField(s, p) == (b[0] as bv32) | ((b[1] as bv32) << 8) | ((b[2] as bv32) << 16) | ((b[3] as bv32) << 24)
  {
    hide Under;
    LaidBytes(s, p, b);
    var b0, b1, b2, b3 := b[0], b[1], b[2], b[3];
    assert ByteAt(s, p) == ByteAt(s, p + 0) == b0;
    assert [b0, b1, b2, b3][1..] == [b1, b2, b3] && [b1, b2, b3][1..] == [b2, b3] && [b2, b3][1..] == [b3] && [b3][1..] == [];
    assert Word([b3]) == Under(b3, 0) && Word([b2, b3]) == Under(b2, Word([b3])) && Word([b1, b2, b3]) == Under(b1, Word([b2, b3]));
    FourUnder(b0, b1, b2, b3);
  }

  lemma FourUnder(b0: bv8, b1: bv8, b2: bv8, b3: bv8)
    ensures Under(b0, Under(b1, Under(b2, Under(b3, 0))))
            == (b0 as bv32) | ((b1 as bv32) << 8) | ((b2 as bv32) << 16) | ((b3 as bv32) << 24)
  {
  }

  /** gpt_header_t, the bytes of each field. */
  datatype RawHeader = RawHeader(signature: seq<bv8>, version: seq<bv8>, headerSize: seq<bv8>, headerCrc: seq<bv8>,
                                 reserved: seq<bv8>, currentLba: seq<bv8>, backupLba: seq<bv8>, firstUsable: seq<bv8>,
                                 lastUsable: seq<bv8>, diskGuid: seq<bv8>, entriesLba: seq<bv8>, entryCount: seq<bv8>,
                                 entrySize: seq<bv8>, entriesCrc: seq<bv8>)

  predicate Narrow(r: RawHeader) {
    && |r.signature| == |r.currentLba| == |r.backupLba| == |r.firstUsable| == |r.lastUsable| == |r.entriesLba| == 8
    && |r.version| == |r.headerSize| == |r.headerCrc| == |r.reserved| == |r.entryCount| == |r.entrySize| == |r.entriesCrc| == 4
    && |r.diskGuid| == 16
  }

  /** The first 40 bytes of a header: up to the backup's sector number. */
  function HeaderStart(r: RawHeader): seq<bv8> {
    r.signature + r.version + r.headerSize + r.headerCrc
    + r.reserved + r.currentLba + r.backupLba
  }

  /** The packed structure. */
  function HeaderBytes(r: RawHeader): seq<bv8> {
    HeaderStart(r) + r.firstUsable + r.lastUsable + r.diskGuid
    + r.entriesLba + r.entryCount + r.entrySize + r.entriesCrc
  }

  function CrcOf(b: seq<bv8>): bv32
    requires |b| == 4
  {
    (b[0] as bv32) | ((b[1] as bv32) << 8) | ((b[2] as bv32) << 16) | ((b[3] as bv32) << 24)
  }

  lemma StartLaid(r: RawHeader)
    requires Narrow(r)
    ensures |HeaderStart(r)| == 40
    ensures Laid(HeaderStart(r), 0, r.signature) && Laid(HeaderStart(r), 12, r.headerSize)
    ensures Laid(HeaderStart(r), 16, r.headerCrc)
  {
    hide Number, Laid;
    var s := [] + r.signature;
    LaidAppend([], r.signature);
    assert s == r.signature;
    LaidAppend(s, r.version);
    s := s + r.version;
    LaidAppend(s, r.headerSize);
    s := s + r.headerSize;
    LaidAppend(s, r.headerCrc);
    s := s + r.headerCrc;
    LaidAppend(s, r.reserved);
    s := s + r.reserved;
    LaidAppend(s, r.currentLba);
    s := s + r.currentLba;
    LaidAppend(s, r.backupLba);
  }

  lemma FieldsLaid(r: RawHeader)
    requires Narrow(r)
    ensures |HeaderBytes(r)| == 92
    ensures Laid(HeaderBytes(r), 0, r.signature) && Laid(HeaderBytes(r), 12, r.headerSize)
    ensures Laid(HeaderBytes(r), 16, r.headerCrc) && Laid(HeaderBytes(r), 40, r.firstUsable)
    ensures Laid(HeaderBytes(r), 48, r.lastUsable) && Laid(HeaderBytes(r), 72, r.entriesLba)
    ensures Laid(HeaderBytes(r), 80, r.entryCount) && Laid(HeaderBytes(r), 84, r.entrySize)
    ensures Laid(HeaderBytes(r), 88, r.entriesCrc)
  {
    hide Number, Laid, HeaderStart;
    StartLaid(r);
    var s := HeaderStart(r);
    LaidAppend(s, r.firstUsable);
    s := s + r.firstUsable;
    LaidAppend(s, r.lastUsable);
    s := s + r.lastUsable;
    LaidAppend(s, r.diskGuid);
    s := s + r.diskGuid;
    LaidAppend(s, r.entriesLba);
    s := s + r.entriesLba;
    LaidAppend(s, r.entryCount);
    s := s + r.entryCount;
    LaidAppend(s, r.entrySize);
    s := s + r.entrySize;
    LaidAppend(s, r.entriesCrc);
  }

  /** A header laid out as the structure is read back field by field. */
  lemma HeaderRoundTrip(r: RawHeader, padding: seq<bv8>)
    requires Narrow(r)
    ensures HeaderOf(HeaderBytes(r) + padding)
            == Header(Number(r.signature), Number(r.headerSize), CrcOf(r.headerCrc), Number(r.firstUsable), Number(r.lastUsable),
                      Number(r.entriesLba), Number(r.entryCount), Number(r.entrySize), CrcOf(r.entriesCrc))
  {
    hide Number, Laid, Le32, Le64, HeaderBytes, CrcField;
    var s := HeaderBytes(r) + padding;
    FieldsLaid(r);
    LaidAppend(HeaderBytes(r), padding);
    EightBytes(s, 0, r.signature);
    FourBytes(s, 12, r.headerSize);
    CrcBytes(s, 16, r.headerCrc);
    EightBytes(s, 40, r.firstUsable);
    EightBytes(s, 48, r.lastUsable);
    EightBytes(s, 72, r.entriesLba);
    FourBytes(s, 80, r.entryCount);
    FourBytes(s, 84, r.entrySize);
    CrcBytes(s, 88, r.entriesCrc);
  }

  /** gpt_partition_entry_t */
  datatype RawEntry = RawEntry(typeGuid: seq<bv8>, uniqueGuid: seq<bv8>, firstLba: seq<bv8>, lastLba: seq<bv8>,
                               attributes: seq<bv8>, name: seq<bv8>)

  predicate NarrowEntry(e: RawEntry) {
    && |e.typeGuid| == |e.uniqueGuid| == 16 && |e.firstLba| == |e.lastLba| == |e.attributes| == 8 && |e.name| == 72
  }

  function EntryBytes(e: RawEntry): seq<bv8> {
    e.typeGuid + e.uniqueGuid + e.firstLba + e.lastLba + e.attributes + e.name
  }

  lemma EntryLaid(e: RawEntry)
    requires NarrowEntry(e)
    ensures |EntryBytes(e)| == 128 && Laid(EntryBytes(e), 0, e.typeGuid)
    ensures Laid(EntryBytes(e), 32, e.firstLba) && Laid(EntryBytes(e), 40, e.lastLba)
  {
    hide Number, Laid;
    var s := [] + e.typeGuid;
    LaidAppend([], e.typeGuid);
    assert s == e.typeGuid;
    LaidAppend(s, e.uniqueGuid);
    s := s + e.uniqueGuid;
    LaidAppend(s, e.firstLba);
    s := s + e.firstLba;
    LaidAppend(s, e.lastLba);
    s := s + e.lastLba;
    LaidAppend(s, e.attributes);
    s := s + e.attributes;
    LaidAppend(s, e.name);
  }

  /** An entry laid out as the structure, anywhere in a sector, gives a
      partition exactly when its type is not zero and its sectors are in order,
      usable and on the disk; and it gives those sectors. */
  lemma EntryRoundTrip(d: Device, h: Header, before: seq<bv8>, e: RawEntry, after: seq<bv8>)
    requires NarrowEntry(e)
    ensures
      var o, first, last := EntryPartition(d, h, before + EntryBytes(e) + after, |before|), Number(e.firstLba), Number(e.lastLba);
      && (o.Some? <==> (exists j :: 0 <= j < 16 && e.typeGuid[j] != 0)
                       && first <= last && h.firstUsable <= first && last <= h.lastUsable && last < d.sectorCount)
      && (o.Some? ==> o.value.startLba == first && o.value.startLba + o.value.sectorCount - 1 == last)
  {
    hide Number, Laid, Le64, EntryBytes;
    var s, p := before + EntryBytes(e) + after, |before|;
    EntryLaid(e);
    LaidAfter(before, EntryBytes(e), after, 0, e.typeGuid);
    LaidAfter(before, EntryBytes(e), after, 32, e.firstLba);
    LaidAfter(before, EntryBytes(e), after, 40, e.lastLba);
    EightBytes(s, p + 32, e.firstLba);
    EightBytes(s, p + 40, e.lastLba);
    LaidBytes(s, p, e.typeGuid);
    TypeGiven(s, p, e.typeGuid);
  }

  lemma TypeGiven(s: seq<bv8>, p: nat, guid: seq<bv8>)
    requires |guid| == 16 && forall j :: 0 <= j < 16 ==> ByteAt(s, p + j) == guid[j]
    ensures ZeroGuid(s, p) <==> forall j :: 0 <= j < 16 ==> guid[j] == 0
  {
    hide ByteAt;
    if ZeroGuid(s, p) {
      forall j | 0 <= j < 16 ensures guid[j] == 0 {
        assert ByteAt(s, p + j) == guid[j];
      }
    } else {
      var k :| p <= k < p + 16 && ByteAt(s, k) != 0;
      assert ByteAt(s, p + (k - p)) == guid[k - p];
    }
  }

  /* ---------- which disks are accepted ---------- */

  lemma NumberInjective(a: seq<bv8>, b: seq<bv8>)
    requires |a| == |b| && Number(a) == Number(b)
    ensures a == b
  {
    if a != [] {
      NumberInjective(a[1..], b[1..]);
      assert a == [a[0]] + a[1..] && b == [b[0]] + b[1..];
    }
  }

  /** "EFI PART" */
  function SignatureBytes(): seq<bv8> {
    [0x45, 0x46, 0x49, 0x20, 0x50, 0x41, 0x52, 0x54]
  }

  lemma SignatureNumber()
    ensures Number(SignatureBytes()) == GPT_HEADER_SIGNATURE
  {
    hide Number;
    var b := SignatureBytes();
    FourSplit(b);
    FourSplit(b[4..]);
    assert b[4..][4..] == [];
    NoNumber();
  }

  /** A disk with this structure in its second sector. */
  predicate HasHeader(d: Device, r: RawHeader, padding: seq<bv8>) {
    && DeviceOk(d) && d.sectorSize == 512 && d.sectorCount > 1 && Narrow(r)
    && d.bytes[512..1024] == HeaderBytes(r) + padding
  }

  lemma CoveredBytes(r: RawHeader, padding: seq<bv8>, size: nat)
    requires Narrow(r) && 92 <= size <= 92 + |padding|
    ensures Covered(HeaderBytes(r) + padding, size) == (HeaderBytes(r.(headerCrc := [0, 0, 0, 0])) + padding)[..size]
  {
    var z := r.(headerCrc := [0, 0, 0, 0]);
    var front := r.signature + r.version + r.headerSize;
    var behind := r.reserved + r.currentLba + r.backupLba + r.firstUsable + r.lastUsable + r.diskGuid + r.entriesLba + r.entryCount
                  + r.entrySize + r.entriesCrc + padding;
    assert HeaderBytes(r) + padding == front + r.headerCrc + behind;
    assert HeaderBytes(z) + padding == front + [0, 0, 0, 0] + behind;
    SwapFour(front, r.headerCrc, behind, size);
  }

  lemma SwapFour(front: seq<bv8>, crc: seq<bv8>, behind: seq<bv8>, size: nat)
    requires |front| == 16 && |crc| == 4 && 20 <= size <= 20 + |behind|
    ensures Covered(front + crc + behind, size) == (front + [0, 0, 0, 0] + behind)[..size]
  {
  }

  /** The header is accepted exactly when it says "EFI PART", both its sizes
      are in range, and its CRC is that of itself with the CRC's bytes zero. */
  lemma HeaderAccepted(d: Device, r: RawHeader, padding: seq<bv8>)
    requires HasHeader(d, r, padding)
    ensures HeaderOk(d) <==>
              && r.signature == SignatureBytes() && 92 <= Number(r.headerSize) <= 512 && Number(r.entrySize) >= 128
              && CrcOf(r.headerCrc) == Crc((HeaderBytes(r.(headerCrc := [0, 0, 0, 0])) + padding)[..Number(r.headerSize)])
  {
    hide HeaderBytes, Number, Crc, CrcOf, Covered, HeaderOf;
    assert SectorAt(d, 1) == d.bytes[512..1024];
    FieldsLaid(r);
    FieldsLaid(r.(headerCrc := [0, 0, 0, 0]));
    HeaderRoundTrip(r, padding);
    SignatureNumber();
    if Number(r.signature) == GPT_HEADER_SIGNATURE {
      NumberInjective(r.signature, SignatureBytes());
    }
    if 92 <= Number(r.headerSize) <= 512 {
      CoveredBytes(r, padding, Number(r.headerSize));
    }
  }

  /** A table is accepted exactly when its sectors are on the disk and its CRC
      is right. */
  lemma TableAccepted(d: Device, h: Header)
    requires DeviceOk(d) && d.sectorSize == 512
    ensures
      var start, bytes := 512 * h.entriesLba, h.entryCount * h.entrySize;
      TableOk(d, h) <==> start < |d.bytes| && start + bytes <= |d.bytes| && Crc(d.bytes[start..start + bytes]) == h.entriesCrc
  {
    hide Crc;
  }

  lemma EntrySector(d: Device, h: Header, i: nat, offset: nat, entry: seq<bv8>)
    requires DeviceOk(d) && d.sectorSize == 512 && |entry| == 128 && h.entrySize >= 128
    requires offset == i * h.entrySize && offset % 512 + h.entrySize <= 512 && EntryLba(h, i) < d.sectorCount
    requires 512 * h.entriesLba + offset + 128 <= |d.bytes|
    requires d.bytes[512 * h.entriesLba + offset..512 * h.entriesLba + offset + 128] == entry
    ensures
      var s, p := SectorAt(d, EntryLba(h, i)), EntryStart(h, i);
      p + 128 <= |s| && s == s[..p] + entry + s[p + 128..]
  {
    var s, p := SectorAt(d, EntryLba(h, i)), EntryStart(h, i);
    assert 512 * h.entriesLba + offset == 512 * EntryLba(h, i) + p;
    assert s == d.bytes[512 * EntryLba(h, i)..512 * EntryLba(h, i) + 512];
    assert s[p..p + 128] == d.bytes[512 * h.entriesLba + offset..512 * h.entriesLba + offset + 128];
  }

  /** Entry i of an accepted table, read from the place the header's fields
      give: a partition exactly when its type is not zero and its sectors are
      in order, usable and on the disk, and then with those sectors. */
  lemma EntryRead(d: Device, r: RawHeader, padding: seq<bv8>, e: RawEntry, i: nat, offset: nat)
    requires HasHeader(d, r, padding) && NarrowEntry(e) && HeaderOk(d) && TableOk(d, TheHeader(d))
    requires i < Number(r.entryCount) && offset == i * Number(r.entrySize) && offset % 512 + Number(r.entrySize) <= 512
    requires 512 * Number(r.entriesLba) + offset + 128 <= |d.bytes|
    requires d.bytes[512 * Number(r.entriesLba) + offset..512 * Number(r.entriesLba) + offset + 128] == EntryBytes(e)
    ensures
      var o, first, last := FromGpt(d, i), Number(e.firstLba), Number(e.lastLba);
      && (o.Some? <==> (exists j :: 0 <= j < 16 && e.typeGuid[j] != 0)
                       && first <= last && Number(r.firstUsable) <= first && last <= Number(r.lastUsable) && last < d.sectorCount)
      && (o.Some? ==> o.value.startLba == first && o.value.startLba + o.value.sectorCount - 1 == last)
  {
    hide HeaderBytes, Number, Crc, CrcOf, HeaderOf, EntryPartition, EntryBytes, HeaderOk, TableOk, EntryLba, EntryStart, SectorAt;
    assert SectorAt(d, 1) == d.bytes[512..1024] by {
      SecondSector(d);
    }
    HeaderRoundTrip(r, padding);
    HeaderFacts(d);
    NoWrap(d, i);
    var h := TheHeader(d);
    EntryLaid(e);
    EntrySector(d, h, i, offset, EntryBytes(e));
    var s, p := SectorAt(d, EntryLba(h, i)), EntryStart(h, i);
    EntryRoundTrip(d, h, s[..p], e, s[p + 128..]);
    EntryPlace(d, h, i, offset);
  }

  lemma SecondSector(d: Device)
    requires DeviceOk(d) && d.sectorSize == 512 && d.sectorCount > 1
    ensures SectorAt(d, 1) == d.bytes[512..1024]
  {
  }

  lemma EntryPlace(d: Device, h: Header, i: nat, offset: nat)
    requires offset == i * h.entrySize && offset % 512 + h.entrySize <= 512 && EntryLba(h, i) < d.sectorCount
    ensures EntryAt(d, h, i) == EntryPartition(d, h, SectorAt(d, EntryLba(h, i)), EntryStart(h, i))
  {
  }

  /** An entry that crosses a sector's end, or is not in the table, gives none. */
  lemma EntryNotRead(d: Device, r: RawHeader, padding: seq<bv8>, i: nat, offset: nat)
    requires HasHeader(d, r, padding) && offset == i * Number(r.entrySize)
    requires i >= Number(r.entryCount) || offset % 512 + Number(r.entrySize) > 512
    ensures FromGpt(d, i) == None
  {
    hide HeaderBytes, Number, Crc, CrcOf, HeaderOf, HeaderOk, TableOk, EntryLba, SectorAt;
    SecondSector(d);
    HeaderRoundTrip(r, padding);
  }
}
