# The storage stack and four kernel cores, in Dafny

A model of the parts of this operating system whose correctness depends on
state that several functions share, with proofs of what those parts keep.

**Storage.** The ext2 driver writes, reads and truncates files through a
direct, single- and double-indirect block map, with three pointer tables cached
and written back late, and with one block group's bitmap and descriptor held in
memory. `Ext2Tree` describes pointer trees as values, `Ext2Cache` what is seen
through the write-back cache, `Ext2Bitmap` what is seen through the held bitmap
and how counts and bits agree; `Ext2Grow` is the step invariant of a write.
`Ext2Volume` and `Ext2Map` are the driver's objects, `Ext2File` and
`Ext2Truncate` the operations on files, `Ext2Consistent` the whole volume: every
tree hole-free and made of allocated blocks, no block with two owners, all
counts right. `Ext2Beside` is a second open file beside the one that changes.
`Ext2Records`, `Ext2Dir`, `Ext2Link`, `Ext2Readdir`, `Ext2Inodes`, `Ext2Create`
and `Ext2Mkdir` do directories down to their bytes, and `Ext2Names` the name
space of a volume: distinct names, no entry for an unused inode or with a type
byte that is not the inode's, link counts that count entries. `Ext2Run` performs whole sequences of requests; its
`SmallVolume`, five blocks with a root directory, meets all that the contracts
ask of a volume.
Below them, `AhciPrdt` builds scatter/gather tables over a page table,
`AhciCache` is the read-ahead window, `Polynomials` says what a CRC is a remainder
of, `Crc32` and `Gpt` read partition tables,
and `PartitionIo` goes through a partition to the drive. `Ext2Device` ties the
two halves together: on a partition's sectors, block transfers promise what the
filesystem's own volume object promises.

**Four smaller cores.** `Surface`, `Framebuffers` and `Compositors`: damage
rectangles and what they do to the screen. `Input`: the event ring, its
coalescing of mouse moves, and the semaphore protocol between publishers and
dispatcher as interleaved steps. `Stdio`: output streams in three buffering
modes, with seeking. `Printf` and `Scanf`: integers to text and back.

Sizes are parameters where the proofs allow it: a block has `E` pointer entries
and `4 * E` bytes. A device transfer may fail at any time; the field
`failed` remembers that one did, and an operation that fails while `failed` is
clear has one of the reasons its contract lists.

Eight statements turn out otherwise than one might expect. Each comes with the
exact condition under which the code does what one expects, and where a caller
can meet the other case, with an input that shows it:

- Replacing a cached leaf table that is dirty loses data unless the disk happens
  to agree (`Ext2Grow.EvictLoses`); the read-side mapper replaces it without
  looking, which is safe because a write never leaves a gap, so that a dirty
  leaf is always the last one (`Ext2File.TailKeeps`).
- `ext2_link_new_child` refuses a name exactly when the search for room meets it
  (`Ext2Dir.FindSpot`, `Ext2Link.LinkNewChild`). A name listed behind the first
  record with room is published a second time (`Ext2Dir.NameTwice`); names stay
  distinct exactly when the name was not listed at all (`Ext2Link.LinkedDistinct`),
  which create and mkdir look up first.
- The allocators count groups and compare group ends in 32 bits: they see every
  group rightly exactly when neither sum reaches 2^32 (`Ext2Bitmap.SumsExact`).
  When the first one does, no group is counted, as for 2^32 - 1 blocks in groups
  of 32768 (`Ext2Bitmap.NoGroupSeen`), and the block allocator fails however many
  blocks are free (`Ext2Volume.AllocationContext.Allocate`).
- `gui_rect_union` covers both rectangles exactly when the bounding box fits in
  32 bits (`Surface.UnionCovers`, `Surface.UnionCanLose`); on a screen it does.
- `fwrite` and `fputc` in line mode can report success although the flush of the
  last line failed and the line is still in the buffer (`Stdio.LineLost`). It can
  happen only in line mode and only if the last byte ends a line or fills the
  buffer, and for one such byte, with room in the buffer, every device that will not
  take the whole line makes it happen (`Stdio.File.Fwrite`, `Stdio.File.Fputc`).
- `ftell` is right exactly when offset and pending bytes stay below 2^32
  (`Stdio.ToldRight`, `Stdio.ToldWraps`).
- A flush that is repeated after a failed one sends once more what had left
  (`Stdio.File.FlushTwice`, `Stdio.ByteRepeated`). Some device makes it send a
  byte again exactly when at least two bytes are pending and the offset can grow
  by two (`Stdio.PartRepeats`), and makes it succeed after a part had left
  exactly when the offset can grow by one more than what is pending
  (`Stdio.AllRepeat`).
- `framebuffer_initialize` asks of each colour's position only that it is at most
  24. A pixel packed by `framebuffer_pack_rgb` shows its red, green and blue
  exactly when no two of the three places overlap (`Framebuffers.PackedExact`).

## Model

| member | source | states |
|---|---|---|
| Ext2Blocks.TableRoundTrip | kernel/kernel/fs/ext2.c:304-366 | a pointer table read from a block and written back is the same block, and a table written and read is the same table |
| Ext2Blocks.WordDigits | kernel/kernel/fs/ext2.c:304-366 | the four bytes of a table's entry are its digits to the base 256, the lowest first |
| Ext2Blocks.BitDigits | kernel/kernel/fs/ext2.c:528-689 | the eight bits of a bitmap's byte are its digits to the base 2, the lowest first |
| Ext2Bitmap.BlockGroup | kernel/kernel/fs/ext2.c:191-302 | every block number has exactly one group and bit, within the group's real size |
| Ext2Bitmap.FlipBit | kernel/kernel/fs/ext2.c:528-689 | setting or clearing one bit with the 16-bit count adjusted changes the set of used blocks by exactly that block and keeps superblock count = sum of groups = clear bits |
| Ext2Bitmap.FullMeansZero | kernel/kernel/fs/ext2.c:528-689 | the superblock's free count is zero exactly when no block is free |
| Ext2Bitmap.SumsExact | kernel/kernel/fs/ext2.c:557-630 | with 32-bit sums every group is counted and every group's end compared rightly if and only if neither sum reaches 2^32 |
| Ext2Bitmap.NoGroupSeen | kernel/kernel/fs/ext2.c:557-566 | for 2^32 - 1 blocks in groups of 32768 the computed number of groups is 0 instead of 131072 |
| Ext2Volume.AllocationContext.Flush | kernel/kernel/fs/ext2.c:147-189 | the held bitmap and descriptor reach the disk, which becomes what the allocator already saw |
| Ext2Volume.AllocationContext.Load | kernel/kernel/fs/ext2.c:528-689 | moving to another group commits the old one, loses nothing, and skips a group only when its count is zero |
| Ext2Volume.AllocationContext.TakeFrom | kernel/kernel/fs/ext2.c:528-689 | the first clear bit of the group becomes a block nobody used, and every block of the group in front of it is in use, unless the 32-bit group end wraps; none found means the group's count is zero |
| Ext2Volume.AllocationContext.Allocate | kernel/kernel/fs/ext2.c:528-689 | if no sum wraps, the lowest free block is taken and nothing else changes, and with the device working it fails only when every block is used and the count is zero; if no group is counted it fails and changes nothing although blocks are free |
| Ext2Volume.Volume.FreeBlock | kernel/kernel/fs/ext2.c:191-302 | exactly this block is released, in bitmap, descriptor and superblock, whichever block it is; refused only for block 0 and for a block that is not allocated |
| Ext2Tree.SlotIndex | kernel/kernel/fs/ext2.c:3292-3463 | logical block numbers within capacity and places in the pointer tree correspond one to one |
| Ext2Tree.FillNext | kernel/kernel/fs/ext2.c:691-1151 | putting an unowned block in the next place of its sort grows the tree by exactly that place |
| Ext2Cache.Reloaded | kernel/kernel/fs/ext2.c:3292-3463 | loading a table into a clean cache slot changes nothing that can be seen |
| Ext2Cache.Flushed | kernel/kernel/fs/ext2.c:304-366 | writing a cached table back changes nothing that can be seen |
| Ext2Grow.EvictLoses | kernel/kernel/fs/ext2.c:3435-3451 | replacing the cached leaf keeps what can be seen if and only if the disk already has its entries |
| Ext2Grow.BusyGrows | kernel/kernel/fs/ext2.c:691-1151 | one allocation plus one filled place keeps tree, cache, allocator and sector count in step and touches no other file |
| Ext2Grow.GrewTwice | kernel/kernel/fs/ext2.c:691-1151 | growth steps compose: old places stay, new blocks were unused, nothing else changes |
| Ext2Map.Vnode.GetDataBlock | kernel/kernel/fs/ext2.c:3292-3463 | the read-side mapper gives the tree's block number, and leaves a dirty leaf in the cache whenever its caller's condition on the tail holds |
| Ext2Map.Vnode.EnsureLeaf | kernel/kernel/fs/ext2.c:996-1113 | the wanted leaf is cached, the old one written back first, a new one created only behind the last |
| Ext2Map.Vnode.FlushCache | kernel/kernel/fs/ext2.c:304-366 | all three tables are clean and the disk is what was seen |
| Ext2Map.Vnode.GetOrAllocate | kernel/kernel/fs/ext2.c:691-1151 | the block's number, with the tree kept in its hole-free shape and every other file untouched |
| Ext2File.TailKeeps | kernel/kernel/fs/ext2.c:2840-2844 | during a write a dirty leaf belongs to the last block, so mapping the next block never meets another existing leaf |
| Ext2File.WriteChunk | kernel/kernel/fs/ext2.c:2799-3185 | one round stores its bytes at its position, zero-fills a new block's rest and keeps the invariant |
| Ext2File.WriteLoop | kernel/kernel/fs/ext2.c:2799-3185 | after the rounds the file holds all of the data in place and the old bytes elsewhere |
| Ext2File.Commit | kernel/kernel/fs/ext2.c:2799-3185 | cache, allocation, inode and superblock are all on the disk |
| Ext2File.Write | kernel/kernel/fs/ext2.c:2799-3185 | the file becomes old[..offset] + data + old[offset + n..]; every other file keeps its bytes; the blocks in use are the old ones and the file's own; 512 times the sector count is the bytes of the file's blocks and tables; volume consistent, nothing dirty; fails only when refused, broken or full |
| Ext2Consistent.OneFileChanged | kernel/kernel/fs/ext2.c:691-1151 | if one file kept its blocks and took only unused ones, no block has two owners, and no other file has changed in any byte, pointer or block |
| Ext2Consistent.SectorsHoldBlocks | kernel/kernel/fs/ext2.c:733-762 | on a consistent volume 512 times a regular file's sector count is the bytes of all blocks of its tree, tables included |
| Ext2File.FindRun | kernel/kernel/fs/ext2.c:2291-2454 | the run found is physically consecutive and at most the limit |
| Ext2File.ReadWhole | kernel/kernel/fs/ext2.c:2291-2454 | a multi-block transfer gives the same bytes as block by block |
| Ext2File.Read | kernel/kernel/fs/ext2.c:2291-2454 | exactly file[offset..min(offset + n, size)], however the blocks lie on the disk |
| Ext2Beside.CacheStays | kernel/kernel/fs/ext2.c:304-366 | a clean pointer cache of a file none of whose blocks changed still shows the file's tree on the new disk |
| Ext2Beside.WriteBeside | kernel/kernel/fs/ext2.c:2799-3185 | after a write through one open file another one is still open, and a read through it gives what it gave before |
| Ext2Truncate.FreeTable | kernel/kernel/fs/ext2.c:3465-3720 | a table's entries and then the table are released, each once |
| Ext2Truncate.FreeDouble | kernel/kernel/fs/ext2.c:3465-3720 | the same for root, leaves and everything under them |
| Ext2Truncate.Truncate | kernel/kernel/fs/ext2.c:3465-3720 | exactly the file's data blocks and tables become free, each once; counts rise by that number, whose bytes are 512 times the old sector count; other files untouched |
| Ext2Beside.TruncateBeside | kernel/kernel/fs/ext2.c:3465-3720 | the same after a truncation |
| Ext2Truncate.LiveSlots | kernel/kernel/fs/ext2.c:3465-3720 | a hole-free file has as many blocks and tables as its shape says |
| Ext2Truncate.OneFileEmptied | kernel/kernel/fs/ext2.c:3465-3720 | giving back exactly one file's blocks leaves a consistent volume and every other file unchanged in every byte, pointer and block |
| Ext2Records.EntrySize | kernel/kernel/fs/ext2.c:1663-1670 | the smallest multiple of four that holds header and name |
| Ext2Records.RecordLayout | kernel/kernel/fs/ext2.c:1672-2095 | a record laid out byte by byte anywhere in a block: the inode, length, type and name its bytes stand for, when it is accepted, and when it has room |
| Ext2Records.TailAgree | kernel/kernel/fs/ext2.c:1672-2095 | bytes changed before a record boundary do not change the records behind it |
| Ext2Records.HeadAgree | kernel/kernel/fs/ext2.c:1672-2095 | records in front of a change stay, and the block stays tiled if the rest is |
| Ext2Records.SplitRecords | kernel/kernel/fs/ext2.c:1672-2095 | splitting a live record leaves it with its name and inode, followed by the new record in the slack |
| Ext2Records.WithEntryListed | kernel/kernel/fs/ext2.c:1672-2095 | after the in-place change the block is tiled exactly and lists the old entries in order with the new one put in |
| Ext2Dir.SearchBlock | kernel/kernel/fs/ext2.c:2184-2248 | the record walk finds the first live record of the name, or none |
| Ext2Dir.FirstDecides | kernel/kernel/fs/ext2.c:2184-2248 | a name listed more than once stands for the inode of its first record |
| Ext2Dir.FindSpot | kernel/kernel/fs/ext2.c:1672-2095 | a name is refused exactly when a live record up to the first one with room has it; otherwise the answer is that first record, a record boundary, or that none has room |
| Ext2Dir.MetExact | kernel/kernel/fs/ext2.c:1672-2095 | a name is met if and only if a live record has it and no record in front of that one has room |
| Ext2Dir.NameTwice | kernel/kernel/fs/ext2.c:1672-2095 | a block with an unused record in front of the name: the search does not meet the name, and filling the record lists it twice |
| Ext2Dir.InsertedDistinct | kernel/kernel/fs/ext2.c:1672-2095 | adding an entry keeps names distinct if and only if they were and the name is new |
| Ext2Dir.InsertedFirst | kernel/kernel/fs/ext2.c:2184-2248 | with a new name put in anywhere, it is found, and every other name is found as before |
| Ext2Dir.Lookup | kernel/kernel/fs/ext2.c:2184-2248 | the inode of the first record with the name in the direct blocks; failure with the device working means there is none |
| Ext2Link.Publish | kernel/kernel/fs/ext2.c:1672-2095 | child links, parent links and block are all written, or on a full link count all is put back |
| Ext2Link.LinkNewChild | kernel/kernel/fs/ext2.c:1672-2095 | for any two inodes, success: one block changed, directory well formed, old entries in order with the new one added, the name not met; with an acceptable child, room, a link to spare and the device working it refuses exactly a name that the search for room meets, and then nothing changes |
| Ext2Link.DirFromChanged | kernel/kernel/fs/ext2.c:1672-2095 | a change in one direct block changes the listing as it changes that block's |
| Ext2Link.LinkedLookup | kernel/kernel/fs/ext2.c:2184-2248 | after linking an absent name, lookup gives the child for it and the old answer for every other name |
| Ext2Link.LinkedDistinct | kernel/kernel/fs/ext2.c:1672-2095 | publishing keeps a directory's names distinct if and only if the name was not listed |
| Ext2Link.LinkedConsistent | kernel/kernel/fs/ext2.c:1672-2095 | the volume stays consistent and no other file changes in any byte, pointer or block |
| Ext2Readdir.PlaceStep | kernel/kernel/fs/ext2.c:2456-2698 | from a record boundary, the next record's end is a boundary in the same or the next block |
| Ext2Readdir.ReadDir | kernel/kernel/fs/ext2.c:2456-2698 | one call answers with the first remaining live entry and a position from which exactly the others remain; type byte 1 is reported as a regular file, 2 as a directory, any other by the inode's kind |
| Ext2Readdir.ListAll | kernel/kernel/fs/ext2.c:2456-2698 | calls from offset 0 terminate and give every live record once, in disk order, with its inode, its name and the type its type byte, or else its inode, says |
| Ext2Readdir.ListedAreFound | kernel/kernel/fs/ext2.c:2456-2698 | the listed names are exactly those lookup resolves, and with distinct names each to the inode listed |
| Ext2Inodes.InodeTaken | kernel/kernel/fs/ext2.c:1485-1651 | taking a clear bit is for an unused inode and keeps bitmaps and counts right |
| Ext2Inodes.InodeMaps.FindClear | kernel/kernel/fs/ext2.c:1485-1651 | the first clear bit of an unreserved inode, with every unreserved one in front of it set, or none |
| Ext2Inodes.InodeMaps.Allocate | kernel/kernel/fs/ext2.c:1485-1651 | the unused inode of the lowest unreserved number is emptied and marked, nothing else changes; fails with the device working only when every unreserved inode is taken |
| Ext2Create.VnodeLookup | kernel/kernel/fs/ext2.c:2700-2764 | the name's inode, of known type |
| Ext2Create.FreshConsistent | kernel/kernel/fs/ext2.c:1349-1483 | an emptied inode record joins a consistent volume without touching any file |
| Ext2Create.Create | kernel/kernel/fs/ext2.c:3187-3252 | an unused inode becomes the named file and the volume is at rest again; a name taken by an inode in use changes nothing on the disk and no count; the reasons to fail are complete |
| Ext2Create.CreatedFile | kernel/kernel/fs/ext2.c:3187-3252 | the new file has kind regular, size and sector count 0, no blocks and one link, its name resolves to it, other names and other files' bytes are as before |
| Ext2Mkdir.DotBlockListed | kernel/kernel/fs/ext2.c:3722-4067 | the initial block is tiled and lists "." and ".." with type byte 2 and nothing else |
| Ext2Mkdir.AllocateBlock | kernel/kernel/fs/ext2.c:3722-4067 | one block is allocated and committed at once in bitmap, descriptor and superblock |
| Ext2Mkdir.GroundedConsistent | kernel/kernel/fs/ext2.c:3722-4067 | with its block filled and its inode written the directory belongs to a consistent volume |
| Ext2Mkdir.Made | kernel/kernel/fs/ext2.c:3722-4067 | the stages together make a directory of one block, with two links and a sector count of that block's sectors, one more link for the parent, and nothing else changed |
| Ext2Mkdir.Mkdir | kernel/kernel/fs/ext2.c:3722-4067 | success leaves a consistent volume with the directory made, one more block in use and one more directory counted in its group; a name taken by an inode in use changes nothing on the disk and no count; failure with the device working has one of the listed reasons |
| Ext2Names.AddedSound | kernel/kernel/fs/ext2.c:1672-2095 | an unused inode put under a new name keeps names distinct, every entry on an inode in use and of the type its type byte says, and every link count equal to the number of entries for its inode |
| Ext2Names.FileNames | kernel/kernel/fs/ext2.c:2799-3185 | writing or truncating a file changes no directory and no link count |
| Ext2Names.CreateNames | kernel/kernel/fs/ext2.c:3187-3252 | creating a file under a free name keeps the whole name space sound |
| Ext2Names.MkdirNames | kernel/kernel/fs/ext2.c:3722-4067 | so does making a directory, whose two links and whose parent's additional link are the three new entries |
| Ext2Names.ListingResolves | kernel/kernel/fs/ext2.c:2184-2698 | on such a volume every listed name resolves to its listed inode, which is in use |
| Ext2Names.ListedKinds | kernel/kernel/fs/ext2.c:2642-2654 | on such a volume every entry is listed with the kind of the inode it stands for, and none is of unknown type |
| Ext2Names.CreatedIsListed | kernel/kernel/fs/ext2.c:3187-3252 | a file just created is listed as a regular file under its name and inode number |
| Ext2Names.MadeIsListed | kernel/kernel/fs/ext2.c:3722-4067 | a directory just made is listed as a directory |
| Ext2Names.FreeOrInUse | kernel/kernel/fs/ext2.c:2700-2764 | a name that is not free stands for an inode in use, so create and mkdir are decided in both cases |
| Ext2Run.PerformWrite | kernel/kernel/fs/ext2.c:2799-3185 | opening a file and writing it leaves volume, inode maps and name space in order, the file spliced and no other inode changed; with the device working it fails only for what is no regular file, a refused range or a volume without a free block, the first two with nothing changed |
| Ext2Run.PerformTruncate | kernel/kernel/fs/ext2.c:3465-3720 | the same for emptying a file, where the only reasons are no regular file and a third-level pointer |
| Ext2Run.PerformCreate | kernel/kernel/fs/ext2.c:3187-3252 | a file created in a healthy volume had a free name, and the volume is healthy again; with the device working it fails only for what is no directory, a name taken or too long or empty, no unused inode or no record with room, the first two with nothing changed |
| Ext2Run.PerformMkdir | kernel/kernel/fs/ext2.c:3722-4067 | the same for a directory, with the reasons mkdir adds |
| Ext2Run.Run | kernel/kernel/fs/ext2.c:1672-4067 | from a healthy volume, after every request of any sequence of writes, truncations, creations and mkdirs the volume is consistent and its name space sound, and each step is what the request asks for, or nothing and for one of the listed reasons; the run ends early only at a request that met a device failure or has such a reason |
| AhciPrdt.BuildDmaPrdt | kernel/kernel/device/ahci.c:680-777 | entry k is the k-th page's piece of the buffer: its physical address, upper half 0, length minus one; together they visit exactly the buffer's physical bytes in order, none across a page, even pieces for an even buffer; succeeds exactly for mapped buffers of at most 248 pages |
| AhciPrdt.PhysicalOf | kernel/kernel/device/ahci.c:680-777 | byte o of a mapped page is byte o of its frame |
| AhciPrdt.CommandFits | kernel/kernel/device/ahci.c:77-85 | at most 17 entries for 128 sectors, and 17 can happen |
| AhciPrdt.GatherReadsBuffer | kernel/kernel/device/ahci.c:1014-1225 | through such a table the controller reads exactly the buffer |
| AhciPrdt.StoreFillsBuffer | kernel/kernel/device/ahci.c:779-1012 | storing through it fills exactly the buffer and no other byte of memory |
| AhciPrdt.ScatteredAt | kernel/kernel/device/ahci.c:779-1012 | each visited address gets its own byte, all others keep theirs |
| AhciCache.Drive.ReadDma | kernel/kernel/device/ahci.c:779-1012 | success puts the disk's sectors in the buffer; a buffer that is not mapped throughout is refused; failure may spoil the buffer only |
| AhciCache.Drive.WriteDma | kernel/kernel/device/ahci.c:1014-1225 | success puts the buffer in the sectors; a buffer that is not mapped throughout is refused and changes nothing; failure may spoil those sectors only |
| AhciCache.Drive.Refill | kernel/kernel/device/ahci.c:1296-1341 | the window is invalid during the command and true after it |
| AhciCache.Drive.CopyOut | kernel/kernel/device/ahci.c:1347-1365 | the copy delivers the sectors exactly when the buffer is mapped throughout, and otherwise ends at the first byte that is not |
| AhciCache.Drive.BlockRead | kernel/kernel/device/ahci.c:1258-1413 | with or without a read-ahead window, in every state reached by reads, writes and failures, a read that succeeds gives the current bytes 512 * lba up to 512 * (lba + count) of the disk; it fails with the device working only out of range or for a buffer not mapped throughout, with a page fault exactly when the sectors are copied out of the window; the check after a refill never fails |
| AhciCache.Drive.ReadChunks | kernel/kernel/device/ahci.c:1372-1413 | commands of at most 128 sectors add up to the whole request, or the buffer is not mapped throughout |
| AhciCache.Drive.BlockWrite | kernel/kernel/device/ahci.c:1415-1495 | the sectors become the buffer's bytes; on failure only they can be damaged; fails with the device working only out of range or for a buffer not mapped throughout; the window is given up either way |
| AhciCache.PartlyNext | kernel/kernel/device/ahci.c:1452-1495 | after each command the disk is the old one with exactly the first chunks replaced |
| Crc32.Crc32Compute | kernel/kernel/fs/partition.c:349-368 | the loop computes the CRC of the whole message: the complement of what is left of message and 32 zeros, the first 32 bits complemented, after division by the generator over GF(2) |
| Crc32.Crc32Update | kernel/kernel/fs/partition.c:370-389 | the loop continues the CRC from a running value: what is left of message and 32 zeros, the running value added in front, after that division |
| Polynomials.DivisionUnique | kernel/kernel/fs/partition.c:349-394 | long division by the generator x^32 + x^26 + ... + 1 gives the only multiple and rest of degree below 32 that make up the dividend |
| Crc32.UpdateDivides | kernel/kernel/fs/partition.c:370-389 | feeding bytes to the register is dividing their bits, the lowest of each byte first, by the generator |
| Crc32.CrcIsRemainder | kernel/kernel/fs/partition.c:349-368 | the CRC as a complemented remainder, with start value and final complement |
| Crc32.CheckValue | kernel/kernel/fs/partition.c:349-368 | the CRC of the digits "123456789" is 0xCBF43926 |
| Crc32.UpdateSplit | kernel/kernel/fs/partition.c:370-394 | continuing after a first piece equals processing both at once |
| Crc32.Crc32Pieces | kernel/kernel/fs/partition.c:370-394 | any split of a message gives crc32_compute of the whole |
| Crc32.BitStepsInjective | kernel/kernel/fs/partition.c:349-368 | bit steps lose nothing |
| Crc32.WordAtOnce | kernel/kernel/fs/partition.c:349-368 | up to four bytes enter the register like one little-endian word |
| Crc32.BurstDetected | kernel/kernel/fs/partition.c:349-394 | two messages of one length that differ only inside at most four consecutive bytes never share a CRC |
| Gpt.ReadTable | kernel/kernel/fs/partition.c:197-230 | reading sector by sector succeeds exactly inside the disk and gives the CRC of the table's bytes |
| Gpt.PartitionFromGpt | kernel/kernel/fs/partition.c:116-313 | one entry, accepted under the checks on header, table and entry |
| Gpt.ScanGpt | kernel/kernel/fs/partition.c:412-574 | the one-pass scan stores, in order and cut at the maximum, exactly what the entry-by-entry form accepts, and nothing beyond |
| Gpt.InsideDisk | kernel/kernel/fs/partition.c:271-312 | an accepted partition is non-empty, on the disk and in the usable range |
| Gpt.AllInsideDisk | kernel/kernel/fs/partition.c:412-574 | so is every partition of a scan |
| Gpt.EntryListed | kernel/kernel/fs/partition.c:412-574 | an entry that gives a partition is listed behind exactly those of smaller index that do |
| Gpt.NoWrap | kernel/kernel/fs/partition.c:197-247 | the 64-bit sums of both forms never wrap and an entry of a valid table is always on the disk |
| Gpt.DamageRefused | kernel/kernel/fs/partition.c:205-236 | damage to at most four consecutive bytes of the entry array makes every entry be refused |
| Gpt.HeaderRoundTrip | kernel/include/kernel/partition.h:33-50 | a header laid out as the packed structure is read back field by field |
| Gpt.HeaderAccepted | kernel/kernel/fs/partition.c:123-186 | a header is accepted if and only if it says "EFI PART", both sizes are in range and its CRC is that of itself with the CRC bytes zero |
| Gpt.TableAccepted | kernel/kernel/fs/partition.c:188-236 | the entry array is accepted if and only if it starts and ends on the disk and its CRC is the header's |
| Gpt.EntryRoundTrip | kernel/kernel/fs/partition.c:271-312 | an entry laid out as the packed structure gives a partition if and only if its type is not zero and its sectors are in order, usable and on the disk, and gives those sectors |
| Gpt.EntryRead | kernel/kernel/fs/partition.c:238-312 | entry i of an accepted disk is read from the place the header's bytes give |
| Gpt.EntryNotRead | kernel/kernel/fs/partition.c:238-262 | an index beyond the table and an entry that crosses a sector's end give none |
| PartitionIo.PartitionRead | kernel/kernel/fs/partition.c:15-35 | the partition's current sectors; refused outside it; a page fault only where the drive copies to a buffer not mapped throughout |
| PartitionIo.PartitionWrite | kernel/kernel/fs/partition.c:37-57 | no sector outside the partition can change, on success or failure |
| Ext2Device.BlockChanged | kernel/kernel/fs/ext2.c:458-489 | a change within the sectors of one block is a change of that block and of no other |
| Ext2Device.BlockBytes | kernel/kernel/fs/ext2.c:436-489 | block n of B bytes is the B bytes from n * B on of the partition |
| Ext2Device.BlockDevice.ReadBlock | kernel/kernel/fs/ext2.c:436-456 | through partition, window and drive the block read is the block the partition holds, as the volume object promises |
| Ext2Device.BlockDevice.WriteBlock | kernel/kernel/fs/ext2.c:458-489 | the block becomes the buffer's bytes and no other block changes; a failed write can damage that block only |
| Ext2Device.WriteThenRead | kernel/kernel/fs/ext2.c:436-489 | whatever the window held, a read after a write gives what was written last |
| Surface.RectIntersect | kernel/kernel/gui/surface.c:486-578 | exactly the common pixels, or failure when there are none |
| Surface.UnionCovers | kernel/kernel/gui/surface.c:581-666 | covers both if and only if the bounding box fits in 32 bits, and then is the smallest that does |
| Surface.UnionCanLose | kernel/kernel/gui/surface.c:581-666 | two rectangles whose union is empty |
| Surface.TouchMeansNeighbours | kernel/kernel/gui/compositor.c:55-98 | rectangles touch exactly when two of their pixels are equal or adjacent |
| Framebuffers.Framebuffer.BlitRgb32 | kernel/kernel/device/framebuffer.c:1157-1266 | the on-screen part of the region shows the source, whose rows are a pitch in bytes apart: the same words in the native format, and in any format with places apart the same red, green and blue; no other pixel changes; nothing at all when the pitch is shorter than a row |
| Framebuffers.PackedExact | kernel/kernel/device/framebuffer.c:236-251 | packing gives every colour's red, green and blue back if and only if no two of the three places overlap |
| Framebuffers.Framebuffer.ShownColors | kernel/kernel/device/framebuffer.c:1222-1262 | the native format stores a colour as it is, every format with places apart stores its red, green and blue |
| Compositors.MergeKeeps | kernel/kernel/gui/compositor.c:296-341 | swapping in the last rectangle and joining two loses no pixel and stays inside every box that held them |
| Compositors.Joins | kernel/kernel/gui/compositor.c:343-366 | a rectangle that touches none keeps the list pairwise apart |
| Compositors.Compositor.Merge | kernel/kernel/gui/compositor.c:292-341 | the repeated merge terminates with a rectangle that touches none of the rest |
| Compositors.Compositor.Damage | kernel/kernel/gui/compositor.c:261-366 | no damaged on-screen pixel is lost, rectangles stay apart and within capacity, and nothing outside the boxes of old and new damage is added; the full flag only from a full list |
| Compositors.Compositor.TakeDamage | kernel/kernel/gui/compositor.c:389-443 | the damage moves out whole and the list is empty |
| Compositors.Compositor.CopyOut | kernel/kernel/gui/compositor.c:445-501 | every pixel of the damage shows the back buffer, word for word in the native format and colour by colour in the others; every other is unchanged |
| Compositors.Compositor.Present | kernel/kernel/gui/compositor.c:389-501 | if every pixel that differs was damaged, none differs afterwards: the screen holds the back buffer's words, or its colours in the screen's format |
| Compositors.Compositor.DrawPixel | kernel/kernel/gui/compositor.c:261-366 | a pixel changed and then reported has its colour in the back buffer and stays accounted for, also while a present is under way; no other pixel of the back buffer changes |
| Compositors.Compositor.PresentAmid | kernel/kernel/gui/compositor.c:389-501 | drawing between the two halves of a present is on the screen afterwards or still damaged |
| Input.Ring.Push | kernel/kernel/gui/input.c:61-161 | a move replaces a waiting last move exactly when there is one, otherwise the event is dropped and counted exactly when 127 wait, and added behind them otherwise |
| Input.Ring.Pop | kernel/kernel/gui/input.c:163-195 | the oldest waiting event, or failure exactly when none waits |
| Input.LastKept | kernel/kernel/gui/input.c:96-125 | the newest waiting event is the newest accepted one |
| Input.KeptReplace | kernel/kernel/gui/input.c:96-125 | replacing it leaves out exactly that event |
| Input.SteadyKept | kernel/kernel/gui/input.c:74-125 | leaving out moves loses and reorders no button or key event |
| Input.RoomMeansAccepted | kernel/kernel/gui/input.c:127-141 | an event published while fewer than 127 wait is among the accepted ones |
| Input.System.PublishStep | kernel/kernel/gui/input.c:61-161 | what the ring does, with queue = permits + unsignalled inserts + unpopped waits kept and the attempt recorded |
| Input.System.SignalStep | kernel/kernel/gui/input.c:153-160 | the signal always succeeds |
| Input.System.TakeStep | kernel/kernel/gui/input.c:532-557 | a pop after a wait is never empty |
| Input.System.Run | kernel/kernel/gui/input.c:532-557 | in every interleaving, every published event is accepted unless 127 were waiting, and delivered then waiting events are the accepted ones without moves that were directly followed by another accepted move |
| Stdio.WriteAtTwice | libc/stdio/fflush.c:50-78 | a file written in two goes is the file written at once |
| Stdio.WriteAtBytes | libc/stdio/fflush.c:50-78 | a written file byte by byte: the data at its place, the old bytes elsewhere, zeros in a gap |
| Stdio.ExtendsTwice | libc/stdio/fwrite.c:54-169 | accounts of successive transfers add up |
| Stdio.File.Flush | libc/stdio/fflush.c:9-87 | succeeds exactly when repeated partial writes take everything pending, which then has left; otherwise exactly the part taken has left and all of it is still pending |
| Stdio.File.FlushTwice | libc/stdio/fflush.c:50-78 | after a failed flush a second one sends as much as the device then takes, from the first pending byte on again; if it succeeds, nothing has been sent twice if and only if nothing had left |
| Stdio.PartLeaves | libc/stdio/fflush.c:50-78 | some device takes a part of n pending bytes and then refuses if and only if n is at least 2 and the offset can grow by one |
| Stdio.PartRepeats | libc/stdio/fflush.c:50-78 | some device takes a part of n pending bytes, refuses, and takes a byte again if and only if n is at least 2 and the offset can grow by two |
| Stdio.AllRepeat | libc/stdio/fflush.c:50-78 | some device takes a part, refuses, and then takes all n if and only if n is at least 2 and the offset can grow by n + 1 |
| Stdio.ByteRepeated | libc/stdio/fflush.c:50-78 | two pending bytes, a device that takes one and refuses once: after two flushes the first byte has been sent twice |
| Stdio.File.PutInLine | libc/stdio/fwrite.c:75-100 | line mode leaves no newline and no full buffer waiting |
| Stdio.File.WriteBuffered | libc/stdio/fwrite.c:48-131 | bytes sent then pending, and the file at the logical position, grow by exactly the data; everything consumed and yet a failure happens only in line mode where the data ends a line or fills the buffer, and leaves that line in the buffer; data that fits in full mode sends nothing |
| Stdio.File.WriteDescriptor | libc/stdio/fwrite.c:133-170 | the same without a buffer: exactly the bytes that repeated partial writes take have left, in order, and it succeeds exactly when that is all of the data |
| Stdio.File.WriteTerminal | libc/stdio/fwrite.c:172-202 | the same byte by byte to the terminal |
| Stdio.File.Fputc | libc/stdio/fputc.c:9-81 | one byte through the stream in every mode; the byte returned means it is through, except at the end of a line in line mode, where a device that does not take the line makes fputc return it with the line still in the buffer |
| Stdio.File.Fwrite | libc/stdio/fwrite.c:9-203 | in every mode the same unbuffered stream; the count is the whole elements among the bytes taken, and sent and pending bytes grow by exactly those, apart from what a failed flush let out; a full count means all of the data is through, except in line mode when its last byte ends a line or fills the buffer, where the line may still be in the buffer |
| Stdio.LineLost | libc/stdio/fwrite.c:75-100 | a newline in line mode to a device that refuses: fputc returns it, nothing has been sent, it is still in the buffer |
| Stdio.File.Setvbuf | libc/stdio/setvbuf.c:9-125 | changing mode or buffer loses nothing and starts with nothing pending |
| Stdio.File.Ftell | libc/stdio/ftell.c:9-79 | the logical position, pending output and pushback included, exactly when it is below 2^32 |
| Stdio.ToldRight | libc/stdio/ftell.c:36-68 | the arithmetic of the answer is right if and only if offset plus pending does not wrap |
| Stdio.ToldWraps | libc/stdio/ftell.c:36-68 | one pending byte at offset 2^32 - 1 gives the answer 0 |
| Stdio.File.Fseek | libc/stdio/fseek.c:9-106 | pending output goes to the old position, the contents seen stay, the new position counts from the one seen |
| Printf.DigitsLength | libc/stdio/printf.c:80-94 | a number below 2^k has at most k digits |
| Printf.FitsBuffer | libc/stdio/printf.c:80-94 | every 64-bit number fits the buffer with room for a sign |
| Printf.DigitAt | libc/stdio/printf.c:80-94 | every digit printed is the one of its place, with letters lower-case for %x and upper-case for %X |
| Printf.NoLeadingZero | libc/stdio/printf.c:80-94 | a positive number starts with no zero, and 0 is one zero |
| Printf.CountDigits | libc/stdio/printf.c:80-86 | the counting loop finds the number of digits |
| Printf.PutDigits | libc/stdio/printf.c:88-94 | the right-to-left loop writes the digits in front of the terminator |
| Printf.PadLeft | libc/stdio/printf.c:114-147 | blanks in front, or zeros behind the sign |
| Scanf.PaddedParts | libc/stdio/printf.c:97-147 | the padded text is sign, digits and blanks, or sign, zeros and digits, or blanks, sign and digits |
| Printf.IntStr | libc/stdio/printf.c:13-150 | sign, digits and padding for every intmax_t including the least, the text ending where the digit table of bases 11 to 15 ends; an empty string for a base outside 2 to 17 |
| Printf.UintStr | libc/stdio/printf.c:152-257 | digits and padding for every uintmax_t, with the same two exceptions |
| Printf.ParseFlags | libc/stdio/printf.c:1103-1141 | the flags set are exactly those that occur, in any order |
| Printf.ParseWidth | libc/stdio/printf.c:1143-1184 | the width is the decimal number or 255, whichever is less |
| Printf.WidthReads | libc/stdio/printf.c:1143-1184 | a width written in decimal stands for that number |
| Printf.FormatInteger | libc/stdio/printf.c:1090-1360 | flags, width and conversion together: '-' or '+' or ' ' or no sign, the digits of %d, %u, %x or %X, padded to the width on the side and with the character the flags say, '-' overriding '0' |
| Scanf.Reader.Fgetc | libc/stdio/fgetc.c:9-77 | takes the first unread character, a pushed-back one first; EOF exactly when nothing can be read, with the flag that tells the end of the file from a failed read or a stream that may not be read |
| Scanf.Reader.Ungetc | libc/stdio/ungetc.c:4-25 | puts one character back in front of the unread input and clears the end-of-file flag; refused for EOF, for a second character and for a stream that may not be read |
| Scanf.ScanSkipSpace | libc/stdio/vfscanf.c:66-82 | drops exactly the leading characters with codes 9 to 13 and 32 |
| Scanf.DigitExact | libc/stdio/vfscanf.c:40-57 | a character has value d in a base if and only if it is the lower- or upper-case digit of d and d is below the base |
| Scanf.ScanDigits | libc/stdio/vfscanf.c:142-165 | takes the longest run of digits within the width, modulo 2^32, and puts the next character back |
| Scanf.RunExact | libc/stdio/vfscanf.c:142-165 | the run taken is all digits, at most the width, and ends only at the width, the end or a character that is no digit |
| Scanf.ScanInteger | libc/stdio/vfscanf.c:101-197 | sign, digits and stored value as Scan defines them, with the unread rest |
| Scanf.AssignedExact | libc/stdio/vfscanf.c:167-197 | the stored value is the signed number modulo 2^32, in the range of its type |
| Scanf.DigitsValue | libc/stdio/vfscanf.c:40-57 | printed digits are digits of the scanner and stand for the number |
| Scanf.NumberScans | libc/stdio/vfscanf.c:101-197 | blanks, sign, zeros and digits scan to the number and leave the rest |
| Scanf.MinusUnsigned | libc/stdio/vfscanf.c:101-197 | a minus sign in front of %u or %x stores 2^32 minus the number |
| Scanf.WidthCuts | libc/stdio/vfscanf.c:101-165 | a width counts sign and digits, and what it cuts off stays unread |
| Scanf.PrintedIntScans | libc/stdio/vfscanf.c:101-197 | for every int, flags, width and rest: %d text has length max(natural, width) and scans back to the value, stopping right behind it |
| Scanf.PrintedUintScans | libc/stdio/vfscanf.c:101-197 | the same for %u, %x and %X |

## Left out

- On-disk layout of superblock, group descriptors and inode records: they are records beside the block array; blocks, bitmaps, pointer tables and directory blocks are bytes.
- Two halves of a group descriptor: block counts belong to `Volume`, inode counts and inode bitmaps to `InodeMaps`, so an outdated copy of one half overwriting the other cannot be expressed.
- Buffers in the ext2 modules are sequences held in fields and variables, not arrays; aliasing between a caller's buffer and driver memory is not expressed there.
- Ext2 transfers are whole blocks; splitting a block into sectors and the device's own range checks are in the AHCI and partition modules only.
- Recovery after a failed write: contracts say nothing about an operation that met a device failure, beyond what the drive layer guarantees.
- Sparse files, triple-indirect blocks, several vnodes for one inode, reference counts and memory exhaustion in the kernel heap. The model gives every cache slot its memory.
- Ext2File.Read: the branch that stops at a missing block is absent, because the block is proved to exist in a hole-free file.
- Ext2Inodes.InodeMaps.Allocate: a free inode's record is taken to have mode 0, while a record freed by another system may keep its old mode; inode counts whose 32-bit sums reach 2^32 are not modelled.
- Ext2Run.Run: nothing is said about the volume after a request that failed half-way. Removing names is not part of the driver, and symbolic links and device files are outside the invariant.
- A reserved inode that has holes or no directory entry, such as the resize inode 7 of a default volume, counts as Unused in the model: its blocks are metadata, its record is never read or written.
- Ext2Volume.AllocationContext.TakeFrom: what a scan behind the last group takes, when the end of that group wraps, is not stated.
- `sector_count` is an unbounded number; it cannot wrap on a volume of fewer than 2^32 sectors.
- Ext2Create.Create: the parent is a well-formed directory whose vnode has the block numbers of its inode; an inode leaked by a failure after allocation is not tracked.
- Ext2Mkdir.Mkdir: the same, and the block size is one that the driver accepts; a leaked block is not tracked either.
- `ext2_list_directory`, permissions, time stamps and the MBR form of the partition scan: they would only add simpler members.
- ATA and AHCI registers, command headers and polling: a command is a transfer that succeeds exactly or fails.
- Gpt: reads of the table fail only outside the disk.
- The locks of the compositor and of the input queue: each critical section is one step, and the copying of a present is one step.
- The uninitialised states of compositor and input queue, in which every operation returns at once.
- Which thread a semaphore wakes and how it blocks: the count is modelled, a wait without a permit is a step that does not happen.
- Keyboard and mouse state, dispatch to windows, rendering, fonts and images.
- Stdio.File.Fwrite: the data is a value, so a caller's data inside the stream's own buffer is not expressed; null pointers are not modelled.
- Append mode, `fopen`, `fclose`, input buffering and reads through `Stdio`; a stream's pushback is only counted in positions there.
- Framebuffers.Framebuffer.BlitRgb32: rows of 32-bit pixels are aligned, as their type demands; a start behind the end of the source is not reached.
- Stdio.Channel.Write: why a device refuses, be it the position or the medium, is not modelled; any refusal is one of its answers.
- Printf.FormatInteger: the '#' flag, precision, length modifiers, '*' and the other conversions are not modelled.
- Scanf.Reader.Fgetc: a read that fails fails again at the same place.
- Scanf: conversions other than integers, and the format walk around them.
