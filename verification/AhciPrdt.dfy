/** Scatter/gather tables for DMA: a buffer in virtual memory described to the
    controller as pieces of physical memory. */
module AhciPrdt {
  import opened Machine

  const PAGE_SIZE := 4096
  const AHCI_SECTOR_SIZE := 512
  const AHCI_MAX_PRDT_ENTRIES := 248
  const AHCI_MAX_SECTORS_PER_COMMAND := 128

  /** A physical region descriptor: where a piece starts, and its length minus one. */
  datatype PrdtEntry = PrdtEntry(dataBase: u32, dataBaseUpper: u32, byteCountAndFlags: u32)

  type Frame = x: int | 0 <= x < 0x10_0000

  /** The page table: the physical frame of each mapped virtual page. */
  type Pages = map<nat, Frame>

  function PageOf(v: nat): nat {
    v / PAGE_SIZE
  }

  predicate IsMapped(pages: Pages, v: nat) {
    PageOf(v) in pages
  }

  function Physical(pages: Pages, v: nat): (p: nat)
    ensures p < 0x1_0000_0000
  {
    if PageOf(v) in pages then pages[PageOf(v)] * PAGE_SIZE + v % PAGE_SIZE else 0
  }

  /** A page of 4096 bytes lies in its frame byte by byte. */
  lemma PhysicalOf(pages: Pages, page: nat, offset: nat)
    requires offset < 4096
    ensures IsMapped(pages, 4096 * page + offset) <==> page in pages
    ensures page in pages ==> Physical(pages, 4096 * page + offset) == 4096 * pages[page] + offset
  {
    assert (4096 * page + offset) / 4096 == page;
  }

  /** paging_get_physical_address */
  method GetPhysicalAddress(pages: Pages, v: nat) returns (ok: bool, p: u32)
    ensures ok == IsMapped(pages, v) && (ok ==> p == Physical(pages, v))
  {
    if PageOf(v) !in pages {
      return false, 0;
    }
    return true, pages[PageOf(v)] * PAGE_SIZE + v % PAGE_SIZE;
  }

  /** Byte i of the buffer at v is mapped. */
  predicate ByteMapped(pages: Pages, v: nat, i: nat) {
    IsMapped(pages, v + i)
  }

  predicate AllMapped(pages: Pages, v: nat, n: nat) {
    forall i: nat :: i < n ==> ByteMapped(pages, v, i)
  }

  /** The physical addresses of the buffer's bytes, in order. */
  function Targets(pages: Pages, v: nat, n: nat): (s: seq<nat>)
    ensures |s| == n && forall i :: 0 <= i < n ==> s[i] == Physical(pages, v + i)
  {
    seq<nat>(n, i requires 0 <= i < n => Physical(pages, v + i))
  }

  function Length(e: PrdtEntry): nat {
    e.byteCountAndFlags + 1
  }

  /** The physical addresses that an entry covers. */
  function Covers(e: PrdtEntry): (s: seq<nat>)
    ensures |s| == Length(e) && forall i :: 0 <= i < |s| ==> s[i] == e.dataBase + i
  {
    seq<nat>(Length(e), i requires 0 <= i < Length(e) => e.dataBase + i)
  }

  /** The addresses the controller visits, entry by entry. */
  function Visited(t: seq<PrdtEntry>): seq<nat> {
    if t == [] then [] else Visited(t[..|t| - 1]) + Covers(t[|t| - 1])
  }

  /** Virtual pages that n bytes at v reach into. */
  function PagesSpanned(v: nat, n: nat): nat {
    (v % PAGE_SIZE + n + PAGE_SIZE - 1) / PAGE_SIZE
  }

  predicate WithinPage(e: PrdtEntry) {
    && e.dataBaseUpper == 0
    && e.dataBase % PAGE_SIZE + Length(e) <= PAGE_SIZE
  }

  predicate Even(e: PrdtEntry) {
    e.dataBase % 2 == 0 && Length(e) % 2 == 0
  }

  lemma SamePage(v: nat, i: nat)
    requires v % PAGE_SIZE + i < PAGE_SIZE
    ensures PageOf(v + i) == PageOf(v) && (v + i) % PAGE_SIZE == v % PAGE_SIZE + i
  {
  }

  /** One page's worth of the buffer is contiguous in physical memory. */
  lemma PageContiguous(pages: Pages, v: nat, n: nat)
    requires 0 < n && v % PAGE_SIZE + n <= PAGE_SIZE && IsMapped(pages, v)
    ensures AllMapped(pages, v, n)
    ensures Targets(pages, v, n) == Covers(PrdtEntry(Physical(pages, v), 0, n - 1))
    ensures WithinPage(PrdtEntry(Physical(pages, v), 0, n - 1))
  {
    forall i: nat | i < n ensures ByteMapped(pages, v, i) && Physical(pages, v + i) == Physical(pages, v) + i {
      SamePage(v, i);
    }
  }

  lemma TargetsAppend(pages: Pages, v: nat, m: nat, n: nat)
    ensures Targets(pages, v, m + n) == Targets(pages, v, m) + Targets(pages, v + m, n)
    ensures AllMapped(pages, v, m + n) <==> AllMapped(pages, v, m) && AllMapped(pages, v + m, n)
  {
    var w := v + m;
    if AllMapped(pages, v, m + n) {
      forall i: nat | i < n ensures ByteMapped(pages, w, i) {
        assert ByteMapped(pages, v, m + i);
      }
    }
    if AllMapped(pages, v, m) && AllMapped(pages, v + m, n) {
      forall i: nat | i < m + n ensures ByteMapped(pages, v, i) {
        if i >= m {
          assert ByteMapped(pages, w, i - m);
        }
      }
    }
  }

  lemma VisitedAppend(t: seq<PrdtEntry>, e: PrdtEntry)
    ensures Visited(t + [e]) == Visited(t) + Covers(e)
  {
    assert (t + [e])[..|t|] == t;
  }

  /** Where the k-th page's piece of a buffer at v starts. */
  function PieceStart(v: nat, k: nat): nat {
    if k == 0 then v else 4096 * (v / 4096 + k)
  }

  /** Entry k is the piece of the k-th page, up to the next page or to end: its
      physical address in two halves, and its length minus one. */
  predicate Pieces(t: seq<PrdtEntry>, pages: Pages, v: nat, end: nat) {
    forall k :: 0 <= k < |t| ==>
      && t[k].dataBase == Physical(pages, PieceStart(v, k)) && t[k].dataBaseUpper == 0
      && t[k].byteCountAndFlags == (if k == |t| - 1 then end else PieceStart(v, k + 1)) - PieceStart(v, k) - 1
  }

  /** So far the pieces reach up to at; if more is to come, a page starts there. */
  predicate PiecesSoFar(t: seq<PrdtEntry>, pages: Pages, v: nat, at: nat, remaining: nat) {
    Pieces(t, pages, v, at) && (remaining > 0 ==> at == PieceStart(v, |t|))
  }

  lemma PiecesNext(t: seq<PrdtEntry>, pages: Pages, v: nat, at: nat, remaining: nat, n: pos)
    requires PiecesSoFar(t, pages, v, at, remaining) && remaining > 0
    requires n == if remaining < 4096 - at % 4096 then remaining else 4096 - at % 4096
    ensures PiecesSoFar(t + [PrdtEntry(Physical(pages, at), 0, n - 1)], pages, v, at + n, remaining - n)
  {
    hide Physical;
    if n < remaining {
      assert at + n == PieceStart(v, |t| + 1);
    }
  }

  lemma NoPieces(pages: Pages, v: nat, remaining: nat)
    ensures PiecesSoFar([], pages, v, v, remaining)
  {
  }

  /** ahci_build_dma_prdt: one entry for each page the buffer reaches into. It
      succeeds exactly for a mapped, non-empty buffer of at most 248 pages. */
  method BuildDmaPrdt(pages: Pages, buffer: u32, byteCount: nat, prdt: array<PrdtEntry>) returns (ok: bool, count: nat)
    requires prdt.Length == AHCI_MAX_PRDT_ENTRIES
    requires buffer + byteCount <= 0x1_0000_0000
    modifies prdt
    ensures ok <==> buffer != 0 && byteCount != 0 && AllMapped(pages, buffer, byteCount) && PagesSpanned(buffer, byteCount) <= 248
    ensures ok ==> count == PagesSpanned(buffer, byteCount) && Visited(prdt[..count]) == Targets(pages, buffer, byteCount)
    ensures ok ==> Pieces(prdt[..count], pages, buffer, buffer + byteCount)
    ensures ok ==> forall k :: 0 <= k < count ==> WithinPage(prdt[k])
    ensures ok && buffer % 2 == 0 && byteCount % 2 == 0 ==> forall k :: 0 <= k < count ==> Even(prdt[k])
  {
    hide Visited, Targets, Covers, WithinPage, AllMapped, Even, Spanned, Physical, IsMapped, Pieces, PieceStart;
    if buffer == 0 || byteCount == 0 {
      return false, 0;
    }
    var virtualAddress: nat := buffer;
    var remaining: nat := byteCount;
    ghost var done: nat := 0;
    ghost var even := buffer % 2 == 0 && byteCount % 2 == 0;
    count := 0;
    NoTargets(pages, buffer);
    NoPieces(pages, buffer, byteCount);
    NothingSpanned(buffer, byteCount);
    assert prdt[..0] == [];
    while remaining > 0
      invariant done + remaining == byteCount && virtualAddress == buffer + done
      invariant count <= AHCI_MAX_PRDT_ENTRIES && Spanned(buffer, done, remaining, count)
      invariant AllMapped(pages, buffer, done) && Visited(prdt[..count]) == Targets(pages, buffer, done)
      invariant PiecesSoFar(prdt[..count], pages, buffer, virtualAddress, remaining)
      invariant forall k :: 0 <= k < count ==> WithinPage(prdt[k])
      invariant even ==> virtualAddress % 2 == 0 && remaining % 2 == 0 && forall k :: 0 <= k < count ==> Even(prdt[k])
    {
      SpannedMore(buffer, done, remaining, count);
      if count >= AHCI_MAX_PRDT_ENTRIES {
        return false, count;
      }
      var translated: bool, physicalAddress: u32;
      translated, physicalAddress := GetPhysicalAddress(pages, virtualAddress);
      if !translated {
        Unmapped(pages, buffer, done, byteCount);
        return false, count;
      }
      var pageOffset := virtualAddress % PAGE_SIZE;
      var pageBytes := PAGE_SIZE - pageOffset;
      var fragmentBytes := if remaining < pageBytes then remaining else pageBytes;
      ghost var before := prdt[..count];
      prdt[count] := PrdtEntry(physicalAddress, 0, fragmentBytes - 1);
      assert prdt[..count + 1] == before + [prdt[count]];
      PiecesNext(before, pages, buffer, virtualAddress, remaining, fragmentBytes);
      VisitedAppend(before, prdt[count]);
      PageContiguous(pages, virtualAddress, fragmentBytes);
      TargetsAppend(pages, buffer, done, fragmentBytes);
      EvenFragment(pages, virtualAddress, remaining, fragmentBytes);
      SpannedNext(buffer, done, remaining, count, fragmentBytes);
      virtualAddress := virtualAddress + fragmentBytes;
      remaining := remaining - fragmentBytes;
      done := done + fragmentBytes;
      count := count + 1;
    }
    SpannedMore(buffer, done, remaining, count);
    ok := true;
  }

  /** How many entries done bytes took, with remaining bytes to go. */
  predicate Spanned(v: nat, done: nat, remaining: nat, count: nat) {
    if remaining == 0 then count == PagesSpanned(v, done)
    else if done == 0 then count == 0
    else count * PAGE_SIZE == v % PAGE_SIZE + done
  }

  lemma SpannedNext(v: nat, done: nat, remaining: nat, count: nat, n: nat)
    requires Spanned(v, done, remaining, count) && remaining > 0
    requires n == if remaining < PAGE_SIZE - (v + done) % PAGE_SIZE then remaining else PAGE_SIZE - (v + done) % PAGE_SIZE
    ensures Spanned(v, done + n, remaining - n, count + 1)
  {
    if done > 0 {
      assert (v + done) % PAGE_SIZE == 0;
    }
  }

  lemma SpannedMore(v: nat, done: nat, remaining: nat, count: nat)
    requires Spanned(v, done, remaining, count)
    ensures remaining > 0 ==> count < PagesSpanned(v, done + remaining)
    ensures remaining == 0 ==> count == PagesSpanned(v, done)
  {
  }

  lemma NothingSpanned(v: nat, n: nat)
    requires n > 0
    ensures Spanned(v, 0, n, 0)
  {
  }

  lemma NoTargets(pages: Pages, v: nat)
    ensures AllMapped(pages, v, 0) && Targets(pages, v, 0) == [] == Visited([])
  {
  }

  lemma Unmapped(pages: Pages, v: nat, i: nat, n: nat)
    requires i < n && !IsMapped(pages, v + i)
    ensures !AllMapped(pages, v, n)
  {
    assert !ByteMapped(pages, v, i);
  }

  lemma EvenFragment(pages: Pages, v: nat, remaining: nat, n: nat)
    requires v % 2 == 0 && remaining % 2 == 0 ==> (n == remaining || n == PAGE_SIZE - v % PAGE_SIZE)
    requires 0 < n <= PAGE_SIZE && IsMapped(pages, v)
    ensures v % 2 == 0 && remaining % 2 == 0 ==> Even(PrdtEntry(Physical(pages, v), 0, n - 1)) && (v + n) % 2 == 0 && (remaining - n) % 2 == 0
  {
  }

  /** A command of at most 128 sectors needs at most 17 entries, so for the
      driver's callers the table is never full. */
  lemma CommandFits(v: nat, sectors: nat)
    requires sectors <= AHCI_MAX_SECTORS_PER_COMMAND
    ensures PagesSpanned(v, sectors * AHCI_SECTOR_SIZE) <= 17 <= AHCI_MAX_PRDT_ENTRIES
    ensures exists w: nat :: PagesSpanned(w, AHCI_MAX_SECTORS_PER_COMMAND * AHCI_SECTOR_SIZE) == 17
  {
    assert PagesSpanned(1, AHCI_MAX_SECTORS_PER_COMMAND * AHCI_SECTOR_SIZE) == 17;
  }

  /* ---------- what the controller does with a table ---------- */

  /** Physical memory as the controller reads it through the table. */
  function Gathered(memory: seq<byte>, addresses: seq<nat>): (s: seq<byte>)
    ensures |s| == |addresses|
  {
    seq<byte>(|addresses|, i requires 0 <= i < |addresses| => ByteIn(memory, addresses[i]))
  }

  function ByteIn(memory: seq<byte>, a: nat): byte {
    if a < |memory| then memory[a] else 0
  }

  /** Physical memory after the controller stores data through the table. */
  function Scattered(memory: seq<byte>, addresses: seq<nat>, data: seq<byte>): seq<byte> {
    if |addresses| == 0 || |data| != |addresses| then memory
    else
      var n := |addresses| - 1;
      var m := Scattered(memory, addresses[..n], data[..n]);
      if addresses[n] < |m| then m[addresses[n] := data[n]] else m
  }

  /** What the processor reads at v through the page table. */
  function Buffer(memory: seq<byte>, pages: Pages, v: nat, n: nat): (s: seq<byte>)
    ensures |s| == n && forall i :: 0 <= i < n ==> s[i] == ByteIn(memory, Physical(pages, v + i))
  {
    seq<byte>(n, i requires 0 <= i < n => ByteIn(memory, Physical(pages, v + i)))
  }

  /** No two pages share a frame. */
  predicate Unshared(pages: Pages) {
    forall p, q :: p in pages && q in pages && pages[p] == pages[q] ==> p == q
  }

  lemma {:induction false} ScatteredAt(memory: seq<byte>, addresses: seq<nat>, data: seq<byte>, a: nat)
    requires |data| == |addresses| && forall i, j :: 0 <= i < j < |addresses| ==> addresses[i] != addresses[j]
    requires forall i :: 0 <= i < |addresses| ==> addresses[i] < |memory|
    ensures |Scattered(memory, addresses, data)| == |memory|
    ensures forall i :: 0 <= i < |addresses| && addresses[i] == a ==> ByteIn(Scattered(memory, addresses, data), a) == data[i]
    ensures a !in addresses ==> ByteIn(Scattered(memory, addresses, data), a) == ByteIn(memory, a)
  {
    if |addresses| > 0 {
      var n := |addresses| - 1;
      ScatteredAt(memory, addresses[..n], data[..n], a);
      assert forall i :: 0 <= i < n ==> addresses[..n][i] == addresses[i];
    }
  }

  lemma PhysicalUnshared(pages: Pages, v: nat, w: nat)
    requires Unshared(pages) && IsMapped(pages, v) && IsMapped(pages, w) && Physical(pages, v) == Physical(pages, w)
    ensures v == w
  {
    var p, q := PageOf(v), PageOf(w);
    assert pages[p] == pages[q];
  }

  /** Writing to the device: the controller reads exactly the buffer. */
  lemma GatherReadsBuffer(memory: seq<byte>, pages: Pages, v: nat, n: nat, t: seq<PrdtEntry>)
    requires Visited(t) == Targets(pages, v, n)
    ensures Gathered(memory, Visited(t)) == Buffer(memory, pages, v, n)
  {
  }

  lemma TargetsDiffer(pages: Pages, v: nat, n: nat)
    requires AllMapped(pages, v, n) && Unshared(pages)
    ensures forall i, j :: 0 <= i < j < n ==> Targets(pages, v, n)[i] != Targets(pages, v, n)[j]
  {
    hide Physical;
    forall i, j | 0 <= i < j < n ensures Targets(pages, v, n)[i] != Targets(pages, v, n)[j] {
      assert ByteMapped(pages, v, i) && ByteMapped(pages, v, j);
      if Physical(pages, v + i) == Physical(pages, v + j) {
        PhysicalUnshared(pages, v + i, v + j);
      }
    }
  }

  /** Storing data at the addresses of a buffer fills the buffer and changes
      no byte of memory outside it. */
  lemma StoreFillsBuffer(memory: seq<byte>, pages: Pages, v: nat, data: seq<byte>)
    requires AllMapped(pages, v, |data|) && Unshared(pages)
    requires forall i :: 0 <= i < |data| ==> Targets(pages, v, |data|)[i] < |memory|
    ensures |Scattered(memory, Targets(pages, v, |data|), data)| == |memory|
    ensures Buffer(Scattered(memory, Targets(pages, v, |data|), data), pages, v, |data|) == data
    ensures forall a :: 0 <= a < |memory| && a !in Targets(pages, v, |data|) ==>
              Scattered(memory, Targets(pages, v, |data|), data)[a] == memory[a]
  {
    hide Scattered, Physical, AllMapped, Unshared;
    var n := |data|;
    var s := Targets(pages, v, n);
    TargetsDiffer(pages, v, n);
    ScatteredAt(memory, s, data, 0);
    forall i | 0 <= i < n ensures Buffer(Scattered(memory, s, data), pages, v, n)[i] == data[i] {
      ScatteredAt(memory, s, data, s[i]);
    }
    forall a | 0 <= a < |memory| && a !in s ensures Scattered(memory, s, data)[a] == memory[a] {
      ScatteredAt(memory, s, data, a);
    }
  }
}
