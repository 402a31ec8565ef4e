# Verified model of the VMI workspace

A virtual-machine-introspection workspace reads and writes the memory of guests
and of memory dumps.  This project models its core in Dafny and proves what the
core promises.  `dafny verify dfyconfig.toml` checks everything.

Three kinds of module stand side by side.  Code that changes things step by step
(the session, its cache, the dump readers, the walkers, the traversals, the QMP
client, the view bitmap) is a class or a method with loops, proved equal to a
specification function or directly against its meaning.  Laws about those
specifications are lemmas.  Code whose point is concurrency is a state machine of
atomic steps, with theorems over every schedule.

## Layers

- `Words`, `BitMasks`: 64-bit words as bounded integers; shifts and masks written
  arithmetically, the bitwise operators defined bit by bit, and the identities
  between the two.
- `PhysicalMemory`, `Segments`, `Slices`: memory as a partial byte map with
  injected faults; lists of byte runs, the first listed run wins.
- `Snapshot`, `SegmentOrder`, `SegmentOwners`, `Lime`, `Kdmp`, `KdmpBitmap`,
  `KdmpFile`, `Elf`: the scatter read of a dump and the parsers that build one.
- `FileFields`, `KdmpRunFiles`, `KdmpBitmapFile`, `ElfFile`: dump files as they are
  written, byte by byte, and what the parsers make of them.
- `FakeProvider`, `Backend`: the writable memory under a session.
- `PageWalk`, `Amd64Walker`, `Aarch64Walker`, `Translators`: one recursive walk,
  the two loops that implement it, and its laws.  `WalkMeaning`: what that walk is,
  entry by entry and bit by bit.
- `SessionModel`, `CachedWrites`, `SessionLaws`, `SessionRuns`, `Session`,
  `StaleWrite`, `DumpReads`, `CacheRaces`, `CacheRaceShapes`: the cached,
  page-splitting session and the theorems about it, in sequential runs and among
  threads.
- `Guest`, `RingLists`, `LinuxLists`, `LinuxSockets`, `LinuxPaths`,
  `LinuxPathMeaning`, `WindowsHandles`: traversals of guest structures, run through a session whose
  cache is live, over memory that does not change during the call.
- `Qmp`, `GdbHex`: the QEMU client's request and event protocol, register text.
- `Views`: the 16-bit view allocator.
- `Publication`, `Capture`: concurrent publication to one path, and the two pipe
  readers that share a capacity.
- `EventQueue`: the condition-variable queue, lost wakeups included.
- `ReleaseOrder`: the layered topological sort of the release script.

## Where the code needs a hypothesis

- `write_virtual` uses translations cached before it started.  From a given coherent
  cache all of them are right if and only if no page still cached when the write
  comes to it is remapped by then (`RightFromHere`), and from every coherent cache of
  a session if and only if the write remaps no mapped page of its range before coming
  to it (`RightFromEverySession`).  These two are about the translations taken; that
  memory and result are those of an uncached write is a consequence
  (`RightIsDirect`), which a wrong translation does not always spoil.  `StaleWrite`
  shows a write that it does spoil.  A range that avoids the page-table entries its
  walks read, or none of whose pages is cached, always meets the condition
  (`CacheStaysRightIf`).
- Reading back what was written needs addresses of the range that share a frame to
  carry equal bytes, and this is exact (`WriteThenRead`).
- The neighbour check at the end of the parsers decides disjointness only for
  non-empty segments.  LiME and KDMP segments are never empty; ELF program headers
  of memory size zero are let through (`EmptySegmentHidesOverlap`), and `ElfOwners`
  says exactly when an accepted core is still unambiguous.
- A Windows handle table of level 0 ignores the leaf index (`LevelZeroCapacity`).
- Publication names its temporary file by process id and a per-process counter, and
  a failed exclusive create removes the file of that name.  That publishes a torn
  file, or changes a published one, in some interleaving if and only if three
  processes that share a directory share an id (`SafeExactly`), as processes of
  different id namespaces can.  That at most one publisher succeeds, and that an
  earlier output is kept, needs nothing.
- Translations are inserted after the lock was released since the lookup.  Among
  threads the cache stays coherent if and only if nobody, while no write is under
  way, inserts a translation that memory no longer gives (`CoherentExactly`).  An
  order of actions is safe for every memory and every data if and only if no interval
  from a walk to its insertion that ends while no write is under way contains a write
  (`SafeShapesExactly`).

## Reading the contracts

Error messages are shortened: an error keeps its kind, the addresses and lengths it
carries, and a fixed text.  Names are qualified by module.  `Walk` is the page walk
without a cache, `View` the memory a dump or provider shows, `Sees` the address
space a traversal reads.

## Model

| member | source | states |
|---|---|---|
| `DumpReads.DumpReadExact` | crates/vmi-core/src/lib.rs:189-233 | From every coherent cache, a virtual read of a dump succeeds exactly when every address is below 2^64, walks to a present page and lands on a covered byte; byte i is then the first covering segment's byte at the uncached walk of va+i. |
| `SessionLaws.ReadVirtualExact` | crates/vmi-core/src/lib.rs:189-233 | The same over any readable memory; the cache stays coherent and memory is untouched. |
| `SessionLaws.ReadDirectMeaning` | crates/vmi-core/src/lib.rs:189-233 | Reading page by page without a cache means reading byte by byte through the walk: success exactly when every byte is readable. |
| `SessionModel.ReadTransparent` | crates/vmi-core/src/lib.rs:161-233 | Hits, misses and evictions never change what a read returns, error included. |
| `SessionModel.TranslateTransparent` | crates/vmi-core/src/lib.rs:161-187 | A cached translation equals the bare page walk plus the page offset; on a miss the error names the page, as the code does. |
| `SessionModel.OffsetOfPage` | crates/vmi-core/src/lib.rs:161-187 | Walking the page and adding the low 12 bits is walking the address: same result, or the same error with the page for the address. |
| `SessionModel.InsertKeepsFifo` | crates/vmi-core/src/lib.rs:343-354 | The order queue is duplicate-free, lists exactly the keys, stays within capacity, and an update keeps the queue. |
| `SessionModel.InsertQueues` | crates/vmi-core/src/lib.rs:343-354 | A new key queues up last and an old one keeps its place, so keys are dropped in the order in which they came. |
| `SessionModel.InsertCoherent` | crates/vmi-core/src/lib.rs:161-187 | Caching what a walk just returned keeps every entry equal to its own walk, whichever entry is evicted; rests on distinct cache tags. |
| `Session.TranslationCache.Insert` | crates/vmi-core/src/lib.rs:343-354 | The mutable map and queue follow the specified FIFO insertion. |
| `Session.TranslationCache.Clear` | crates/vmi-core/src/lib.rs:355-358 | Both the map and the queue end empty. |
| `Session.VmiSession.Translate` | crates/vmi-core/src/lib.rs:161-187 | The session method returns and caches what the specified step does. |
| `Session.VmiSession.ReadVirtual` | crates/vmi-core/src/lib.rs:189-233 | The page-splitting loop equals the specified read, buffer and cache included. |
| `Session.VmiSession.WriteChunks` | crates/vmi-core/src/lib.rs:235-277 | The page-splitting write loop equals the specified write, including where it stops. |
| `Session.VmiSession.WriteVirtual` | crates/vmi-core/src/lib.rs:235-277 | The write and the clearing of the cache on every exit. |
| `Session.VmiSession.WriteBytes` | crates/vmi-core/src/lib.rs:154-160 | A physical write; the cache is cleared unless the write capability is missing, when nothing was written. |
| `Session.VmiSession.ReadBytes` | crates/vmi-core/src/lib.rs:146-149 | A physical read. |
| `Session.VmiSession.ClearTranslationCache` | crates/vmi-core/src/lib.rs:279-287 | The cache ends empty, memory unchanged. |
| `SessionLaws.WriteVirtualExact` | crates/vmi-core/src/lib.rs:235-277 | In every outcome the cache ends empty; when no page still cached when the write comes to it is remapped by then, the cached write does exactly what the cache-less one does; and when the range avoids the page-table entries its walks read, each byte ends up where it was mapped. |
| `SessionLaws.WriteDirectMeaning` | crates/vmi-core/src/lib.rs:235-277 | For a range that avoids the page-table entries its walks read: success exactly when every byte is mapped and writable; only the targets of the range change; where addresses alias, the last one prevails. |
| `SessionLaws.WriteFromTransparent` | crates/vmi-core/src/lib.rs:235-277 | From a coherent cache of which no page still cached when the write comes to it is remapped by then, memory and result are those of the write without a cache. |
| `CachedWrites.RightFromEveryCache` | crates/vmi-core/src/lib.rs:235-277 | The exact condition, for every capacity that holds the pages of the range: from every coherent cache of that capacity all translations the write takes are those the memory it meets would give, if and only if no mapped page of the range is remapped by the write itself before it is reached. |
| `CachedWrites.RightFromEverySession` | crates/vmi-core/src/lib.rs:132-277 | The same for the 4096 entries of a session, that is for every write that comes to at most 4096 pages. |
| `CachedWrites.UndisturbedIsRight` | crates/vmi-core/src/lib.rs:235-277 | That condition suffices from every coherent cache, whatever its capacity and however long the write. |
| `CachedWrites.RightFromHere` | crates/vmi-core/src/lib.rs:235-277 | One session, any cache and any write: all translations taken are right if and only if no page still cached when the write comes to it is remapped by then. So they are when no cached page of the range is remapped before it is reached, and, where the cache has room for the pages of the range, only then. |
| `CachedWrites.RightIsDirect` | crates/vmi-core/src/lib.rs:235-277 | Right translations make the cached write and the cache-less one equal, memory and result. |
| `CachedWrites.ColdWrite` | crates/vmi-core/src/lib.rs:235-277 | When no page of the range is cached the two are equal for every memory, even when the write overwrites its own tables. |
| `SessionLaws.CacheStaysRightIf` | crates/vmi-core/src/lib.rs:235-277 | Two conditions to check before a call: the range avoids the entries its walks read, or none of its pages is cached. |
| `SessionLaws.WalksUndisturbed` | crates/vmi-core/src/lib.rs:235-277 | The walks of the range are the same before and after a safe write. |
| `SessionLaws.WriteThenRead` | crates/vmi-core/src/lib.rs:189-277 | One session: from a coherent cache, after a write_virtual that returns Ok over a range that avoids the page-table entries its walks read, read_virtual of the range returns the data if and only if aliased addresses carry equal bytes and no read fault is injected there. |
| `SessionLaws.ReadAfterWriteVirtual` | crates/vmi-core/src/lib.rs:189-277 | The same of the memory after such a write and a read without a cache. |
| `SessionLaws.ByteAfterWrite` | crates/vmi-core/src/lib.rs:235-277 | The same for one address: its target is unchanged and holds its byte. |
| `StaleWrite.StaleTranslationMisdirectsWrite` | crates/vmi-core/src/lib.rs:235-277 | A concrete page table, coherent cache and write that succeeds but stores its last byte through a translation the write itself has outdated. |
| `StaleWrite.CacheGoesStale` | crates/vmi-core/src/lib.rs:235-277 | In that state the exact condition indeed fails: a page still cached is remapped before the write comes to it. |
| `SessionRuns.RunCoherent` | crates/vmi-core/src/lib.rs:129-287 | In every sequential run of session calls the cache is coherent at each call boundary. |
| `SessionRuns.RunTransparent` | crates/vmi-core/src/lib.rs:129-287 | In every run whose virtual writes keep the cache they start from right, all results and the final memory equal those of a session with no cache. |
| `SessionRuns.SafeRunStaysRight` | crates/vmi-core/src/lib.rs:129-287 | Writes that avoid the entries their walks read keep every cache right, whatever the run cached before. |
| `CacheRaces.CoherentExactly` | crates/vmi-core/src/lib.rs:161-277 | Lookup, walk, insert, write and clear of any number of threads, interleaved, with translations between the writes of one call too: the cache is coherent whenever no write is under way if and only if nobody then inserts a translation that memory no longer gives. |
| `CacheRaceShapes.SafeShapesExactly` | crates/vmi-core/src/lib.rs:161-277 | Which orders of misses, walks, insertions, writes and clearings are safe whatever memory holds, whatever is looked up and whatever is written: exactly those in which no interval from a walk to the insertion of its result that ends while no write is under way contains a write. |
| `CacheRaces.NotOvertakenIsCoherent` | crates/vmi-core/src/lib.rs:161-277 | In one run it is enough that no clearing comes between a walk and the insertion of its result. |
| `CacheRaces.StaleEntryStays` | crates/vmi-core/src/lib.rs:161-187 | A schedule of two threads that leaves a stale entry: walk, write, clear, insert. |
| `PageWalk.WalkUniform` | crates/vmi-arch-amd64/src/lib.rs:36-98 | Both AMD64 widths and every accepted AArch64 configuration: all addresses of the block a walk ends in get the same entry, errors included, shifted by their difference. |
| `PageWalk.MappedBlockIsUniform` | crates/vmi-arch-aarch64/src/lib.rs:117-213 | If an address maps to (address, size), every address of the same size-aligned block maps to the address plus the difference, with the same size, and physical and virtual addresses agree below the size. |
| `PageWalk.LeafShape` | crates/vmi-arch-amd64/src/lib.rs:36-98 | A successful walk keeps the low bits below the page size and stays inside the physical width. |
| `PageWalk.WalkOfPage` | crates/vmi-core/src/lib.rs:161-187 | Walking the 4 KiB page of an address and adding the offset is walking the address. |
| `PageWalk.WalkFrame` | crates/vmi-core/src/lib.rs:235-277 | Memory changes outside the entries a walk reads do not change the walk. |
| `PageWalk.FootprintOfPage` | crates/vmi-core/src/lib.rs:235-277 | All addresses of a page read the same page-table entries. |
| `PageWalk.LevelShiftBounds` | crates/vmi-arch-aarch64/src/lib.rs:117-213 | For every accepted configuration each level shift lies below the address width and the physical width. |
| `WalkMeaning.Amd64WalkExact` | crates/vmi-arch-amd64/src/lib.rs:36-98 | The whole AMD64 walk, both widths, errors included, in words of memory and bits of entries: from the table of the root, present entries with bit 7 clear are passed, each naming the next table; the first other entry decides, or the one at level 1: not present, a 4 KiB, 2 MiB or 1 GiB page of its frame and the low bits of the address, or an invalid entry if bit 7 is set at level 1, 4 or 5. |
| `WalkMeaning.Aarch64WalkExact` | crates/vmi-arch-aarch64/src/lib.rs:117-213 | The same for every accepted AArch64 granule and width: valid entries with bit 1 set are passed, and the first other entry decides, or the one at level 3: not present, a page or block, or an invalid entry if bit 1 is clear at level 3 or at level 0. |
| `WalkMeaning.TableFillsPage` | crates/vmi-arch-aarch64/src/lib.rs:40-63 | A table of eight-byte entries fills exactly one granule of 4, 16 or 64 KiB, and one 4 KiB page on AMD64. |
| `WalkMeaning.DeepIsLevels` | crates/vmi-arch-aarch64/src/lib.rs:131-137 | The number of levels is the least whose indices and page offset cover the address. |
| `PhysicalMemory.ReadU64Exact` | crates/vmi-core/src/lib.rs:146-149 | The entries a walk reads are eight bytes, least significant first. |
| `Amd64Walker.DecideIsWalk` | crates/vmi-arch-amd64/src/lib.rs:36-98 | What the loop body decides for one entry, level by level and bit 7 at level 1 included, is one step of the recursive walk. |
| `Amd64Walker.TranslateLevels` | crates/vmi-arch-amd64/src/lib.rs:36-98 | The loop over shifts, reading real memory, equals the recursive walk. |
| `Amd64Walker.Translate` | crates/vmi-arch-amd64/src/lib.rs:100-131 | Both AMD64 translators equal the walk of their width. |
| `Aarch64Walker.New` | crates/vmi-arch-aarch64/src/lib.rs:80-96 | Accepts exactly the sizes above the page shift, within the levels of the granule and at most 48 bits. |
| `WalkMeaning.AcceptedExactly` | crates/vmi-arch-aarch64/src/lib.rs:79-97 | Which widths are accepted: above the page offset of the granule and at most 48; the limit of its levels never decides. |
| `Aarch64Walker.DecideIsWalk` | crates/vmi-arch-aarch64/src/lib.rs:117-213 | What the loop body decides for one descriptor is one step of the recursive walk, for every granule. |
| `Aarch64Walker.TranslateLevels` | crates/vmi-arch-aarch64/src/lib.rs:117-213 | The loop equals the recursive walk; its overflow and underflow branches and its final fall-through are not reached. |
| `Aarch64Walker.LoopInRange` | crates/vmi-arch-aarch64/src/lib.rs:127-204 | Why: for every accepted width no 8-bit level, product or shift and no 64-bit entry address of the loop leaves its range, so no checked operation fails. |
| `Aarch64Walker.Translate` | crates/vmi-arch-aarch64/src/lib.rs:117-213 | The translator, canonical check first, equals the walk. |
| `Translators.Translate` | crates/vmi-core/src/lib.rs:161-187 | Whichever translator a session is given, its loop computes the walk. |
| `Translators.CacheTagInjective` | crates/vmi-arch-aarch64/src/lib.rs:108-115 | Different translators, all AArch64 granules and widths and both AMD64 ones, have different cache tags. |
| `Translators.CacheTagIsJoined` | crates/vmi-arch-aarch64/src/lib.rs:108-115 | The AArch64 tag is a fixed prefix, the granule in KiB shifted by 8 and the width, joined. |
| `Translators.AssembleDigits` | crates/vmi-arch-aarch64/src/lib.rs:117-213 | The per-level indices and the page offset rebuild the address below its width, whatever the number of levels. |
| `Translators.CanonicalAddressIsItsDigits` | crates/vmi-arch-aarch64/src/lib.rs:9-25 | A canonical address is determined by its per-level indices and page offset. |
| `Translators.La57ExtendsAmd64` | crates/vmi-arch-amd64/src/lib.rs:100-131 | A five-level walk whose slots 0 and 511 point to a PML4 agrees with the four-level walk of it on every 48-bit canonical address. |
| `BitMasks.AndBits` | crates/vmi-arch-amd64/src/lib.rs:7-34 | The bitwise and, defined bit by bit, is the operator. |
| `BitMasks.OrBits` | crates/vmi-arch-amd64/src/lib.rs:68-91 | So is the bitwise or. |
| `BitMasks.NotBits` | crates/vmi-arch-aarch64/src/lib.rs:9-25 | And the complement in 64 bits. |
| `BitMasks.AndField` | crates/vmi-arch-amd64/src/lib.rs:7-34 | A contiguous mask selects the field that the walk is stated with, for every position and width. |
| `BitMasks.AndNotLow` | crates/vmi-arch-aarch64/src/lib.rs:9-25 | Clearing the low bits subtracts them. |
| `BitMasks.LeafIsSum` | crates/vmi-arch-amd64/src/lib.rs:71-91 | Joining the frame of an entry with the page offset adds them, for every page size. |
| `BitMasks.Amd64Masks` | crates/vmi-arch-amd64/src/lib.rs:36-98 | The AMD64 masks are those fields. |
| `BitMasks.Aarch64Masks` | crates/vmi-arch-aarch64/src/lib.rs:145-206 | So are the AArch64 physical mask and page or block mask, for every size. |
| `BitMasks.EntryFlags` | crates/vmi-arch-amd64/src/lib.rs:5-91 | Testing an entry against the present, table and large masks is testing bits 0, 1 and 7. |
| `BitMasks.CanonicalIsMasked` | crates/vmi-arch-amd64/src/lib.rs:9-28 | The masked comparison of the canonical check says that the bits above the width are all zero below half the address space and all one above it, for every width. |
| `BitMasks.SmallMasks` | crates/vmi-os-windows/src/lib.rs:236-375 | The page, level, pointer and alignment masks of the session and the handle table are remainders modulo powers of two. |
| `BitMasks.TagIsSum` | crates/vmi-arch-aarch64/src/lib.rs:108-115 | The three parts of the cache tag do not meet. |
| `Backend.Backend.ReadInto` | crates/vmi-core/src/lib.rs:161-233 | A session reads its memory, dump or fake, as the memory model says. |
| `PhysicalMemory.WholeWriteEffect` | crates/vmi-testkit/src/fake_provider.rs:451-497 | A write succeeds exactly when every byte is writable, then stores all of them and nothing else; a failed one changes nothing outside its range. |
| `PhysicalMemory.WriteStopsAt` | crates/vmi-testkit/src/fake_provider.rs:451-497 | A write stops at the first byte that is not writable, keeps what it stored before, and reports that byte: past the end, an injected fault, or not mapped, in this order. |
| `PhysicalMemory.ReadAfterWrite` | crates/vmi-testkit/src/fake_provider.rs:192-240 | Reading back what was written returns it, where no read fault is injected. |
| `PhysicalMemory.ReadFrame` | crates/vmi-core/src/lib.rs:189-233 | Bytes that were not touched read as before. |
| `FakeProvider.StoreByte` | crates/vmi-testkit/src/fake_provider.rs:451-497 | Storing through the first segment that covers an address changes that address only, even where segments overlap. |
| `FakeProvider.FakeSession.ReadSparseInto` | crates/vmi-testkit/src/fake_provider.rs:192-240 | The byte loop reads the first covering segment of each address; errors carry the first failing byte or the request. |
| `FakeProvider.FakeSession.Write` | crates/vmi-testkit/src/fake_provider.rs:451-497 | The byte loop writes in place, stopping at the first fault, as the memory model says. |
| `SegmentOwners.ValidateSegments` | crates/vmi-testkit/src/fake_provider.rs:499-532 | Accepts exactly the lists in which no address has two owners and no non-empty segment passes 2^64; empty segments are dropped first. |
| `Snapshot.SnapshotBundle.ReadInto` | crates/vmi-artifact/src/lib.rs:903-1014 | For any list sorted by start, empty and overlapping segments included: succeeds exactly when every requested address is covered, takes each byte from the first covering segment, and leaves the output alone on failure. |
| `Snapshot.SnapshotBundle.CoveredUpTo` | crates/vmi-artifact/src/lib.rs:903-950 | The first pass finds the first gap exactly. |
| `Snapshot.SnapshotBundle.Scatter` | crates/vmi-artifact/src/lib.rs:950-1014 | The second pass cannot fail once the first succeeded, and fills every byte. |
| `Snapshot.SnapshotBundle.CopyRun` | crates/vmi-artifact/src/lib.rs:950-1014 | One copy takes as much of the request as the segment holds. |
| `SegmentOrder.NeighboursDecide` | crates/vmi-artifact/src/lib.rs:684-692 | On a sorted list of non-empty segments the check of neighbours accepts exactly the pairwise disjoint ones. |
| `SegmentOrder.EmptySegmentHidesOverlap` | crates/vmi-artifact/src/lib.rs:306-315 | With empty segments it does not: [0,6), [0,0), [5,8) passes. |
| `SegmentOwners.NeighboursDecideOwnersWithoutEmpty` | crates/vmi-artifact/src/lib.rs:306-315 | When it does: a sorted list gives no address two owners if and only if its neighbours are disjoint once empty segments are dropped. |
| `SegmentOrder.SortDisjoint` | crates/vmi-artifact/src/lib.rs:684-692 | Sorting changes nothing about disjointness. |
| `SegmentOrder.SortedContents` | crates/vmi-artifact/src/lib.rs:684-692 | Sorting disjoint segments changes no byte of memory. |
| `SegmentOrder.SortStable` | crates/vmi-artifact/src/lib.rs:309-309 | The sort is stable, on which it depends what the neighbour check sees when segments are empty. |
| `SegmentOrder.AssembledMeaning` | crates/vmi-artifact/src/lib.rs:684-692 | The sort and check accept exactly the pairwise disjoint lists, in any order, and the bundle reads as listed. |
| `SegmentOrder.Assemble` | crates/vmi-artifact/src/lib.rs:684-692 | The sort and the loop over neighbours. |
| `Lime.FromLime` | crates/vmi-artifact/src/lib.rs:640-703 | The cursor loop computes the parse of the records, every error case included. |
| `Lime.LimeRoundTrip` | crates/vmi-artifact/src/lib.rs:640-703 | Parsing yields a list of records if and only if the file is what that list writes. |
| `Lime.LimeReadsBack` | crates/vmi-artifact/src/lib.rs:640-703 | A file written from ranges in any order is accepted exactly when there is one and none overlap, and reads back every byte. |
| `Kdmp.FromLegacy` | crates/vmi-artifact/src/lib.rs:368-468 | The run loop computes the parse of a legacy dump. |
| `Kdmp.LegacyExact` | crates/vmi-artifact/src/lib.rs:405-460 | Accepted run tables are exactly those whose payloads sit one after another, inside the file, and whose total is the declared page count. |
| `Kdmp.LegacyReadsBack` | crates/vmi-artifact/src/lib.rs:405-460 | Such a dump is accepted exactly when its runs are disjoint, and reads back every byte. |
| `KdmpRunFiles.LegacyDumpReads` | crates/vmi-artifact/src/lib.rs:405-460 | A dump written byte by byte (machine, run count, page count, table of first pages and page counts at 0x98, payloads from 0x2000, anything in between) is accepted exactly when its runs are disjoint and reads back every byte. |
| `Kdmp.FromRdmp` | crates/vmi-artifact/src/lib.rs:549-638 | The range loop computes the parse of an RDMP dump. |
| `Kdmp.RdmpExact` | crates/vmi-artifact/src/lib.rs:549-638 | Ranges are read exactly when payloads sit one after another and the table ends by a zero base or by its size; its last slot is read where the code reads it, over the first payload bytes. |
| `Kdmp.RdmpReadsBack` | crates/vmi-artifact/src/lib.rs:549-638 | Such a dump is accepted exactly when its ranges are disjoint, and reads back every byte. |
| `KdmpRunFiles.RangeDumpReads` | crates/vmi-artifact/src/lib.rs:549-638 | So is a dump written with a range table at 0x2030 that a zero first page ends, its payloads where the metadata size puts them. |
| `KdmpRunFiles.RangesAreMarked` | crates/vmi-artifact/src/lib.rs:549-585 | Nothing is accepted as a range table without the mark DUMP at 0x2008, a metadata size that is a multiple of 16 from 0x20 on, and payloads 0x2020 after it. |
| `KdmpBitmap.FromBitmap` | crates/vmi-artifact/src/lib.rs:470-547 | Accepts exactly when the declared count is the number of set bits and every set page is stored; the segments are then those of the set pages by rank, disjoint and sorted without a sort. |
| `KdmpBitmap.BitmapReads` | crates/vmi-artifact/src/lib.rs:500-546 | An address is readable exactly when the bit of its page is set, and its byte is at first_page + 4096 * rank + offset. |
| `KdmpBitmapFile.BitmapFileReads` | crates/vmi-artifact/src/lib.rs:470-547 | A bitmap dump written byte by byte, its bitmap taken as a number: accepted exactly when the counts are right and every stored page is inside the file; then page pfn is readable exactly when bit pfn of that number is set, and its bytes follow the pages of the set bits below. |
| `KdmpBitmapFile.AcceptedIsWritten` | crates/vmi-artifact/src/lib.rs:470-498 | Every bitmap dump that is accepted is laid out like that. |
| `KdmpBitmapFile.BitOfBytes` | crates/vmi-artifact/src/lib.rs:505-511 | Testing 1 << (pfn % 8) in byte pfn / 8 is testing bit pfn of the number the bytes denote. |
| `KdmpBitmap.PagesInOrder` | crates/vmi-artifact/src/lib.rs:500-546 | Segments in rank order are sorted and pairwise disjoint. |
| `KdmpBitmap.RankMonotone` | crates/vmi-artifact/src/lib.rs:500-546 | The number of set bits below a page never falls, and is larger after a set page, so set pages have different ranks. |
| `KdmpFile.FromKdmp` | crates/vmi-artifact/src/lib.rs:368-404 | Which of the three layouts a file is parsed as. |
| `KdmpFile.LayoutIsMarked` | crates/vmi-artifact/src/lib.rs:374-390 | Which bytes decide it: PAGEDU64 at the start, then SDMP or FDMP at 0x2000 for a bitmap, 40 00 00 00 RDMP for a range table, anything else for a run table. |
| `Elf.FromElf` | crates/vmi-artifact/src/lib.rs:217-325 | The loop over program headers computes the parse, limit and error order included. |
| `Elf.LoadFromExact` | crates/vmi-artifact/src/lib.rs:245-300 | Loading succeeds exactly when every PT_LOAD header can be met within the limit; each segment is its file bytes followed by zeros, in header order. |
| `Elf.ElfReadsBack` | crates/vmi-artifact/src/lib.rs:217-325 | Zero-sized headers included: a core is accepted exactly when no neighbours of the sorted list overlap, and then, where no address has two owners, every byte reads as its header describes it. |
| `ElfFile.ElfFileReadsBack` | crates/vmi-artifact/src/lib.rs:217-325 | A core written byte by byte, file header and program headers with any virtual addresses, flags, alignments and entry size from 56: accepted exactly when it has type-1 headers, all of them fit the file and together the limit, and the neighbour check passes; unless an address has two owners, each payload is then read at its physical address, followed by zeros, and nothing else is readable. |
| `ElfFile.AcceptedIsElf` | crates/vmi-artifact/src/lib.rs:223-244 | Nothing is accepted without the ELF mark, class 64, little-endian data and entries of at least 56 bytes. |
| `Elf.ElfOwners` | crates/vmi-artifact/src/lib.rs:306-325 | In an accepted core no address has two owners if and only if the sorted list without zero-sized segments passes the same check. |
| `Elf.ElfWithoutEmpty` | crates/vmi-artifact/src/lib.rs:306-325 | Without zero-sized headers a core is accepted exactly when its ranges are disjoint, and then no address has two owners. |
| `SegmentOrder.OwnersContents` | crates/vmi-artifact/src/lib.rs:306-325 | Where no address has two owners, sorting changes no byte, empty segments or not. |
| `SegmentOwners.SortOwners` | crates/vmi-artifact/src/lib.rs:306-325 | Sorting does not change who owns what. |
| `RingLists.LoopNeverReturns` | crates/vmi-os-linux/src/lib.rs:149-228 | A node met again never leads back to the head, so detecting it only replaces one error by another. |
| `RingLists.NodesDistinct` | crates/vmi-os-linux/src/lib.rs:149-228 | A list that returns to its head names each node once. |
| `Guest.Reader.ReadBytes` | crates/vmi-os-linux/src/lib.rs:761-775 | Reads through a session with a live cache see the guest as it is. |
| `Guest.WordsExact` | crates/vmi-os-linux/src/lib.rs:720-775 | Words of guest memory are little-endian, of eight bytes and of four. |
| `LinuxLists.Modules` | crates/vmi-os-linux/src/lib.rs:194-228 | The loop with its seen-set succeeds exactly when the traversal without one does, with the same output; they differ only in which error. |
| `LinuxLists.ModulesExact` | crates/vmi-os-linux/src/lib.rs:194-228 | Success exactly when next-pointers return to the head within the limit and every entry is readable; the output is the entries in order, none twice. |
| `LinuxLists.ModuleExact` | crates/vmi-os-linux/src/lib.rs:695-718 | What is listed for a module is what memory holds at the offsets: base and size in eight little-endian bytes each, the name before its first zero byte. |
| `LinuxLists.Processes` | crates/vmi-os-linux/src/lib.rs:149-192 | The same for tasks: success and output do not depend on the seen-set. |
| `LinuxLists.ProcessesExact` | crates/vmi-os-linux/src/lib.rs:149-192 | Success exactly when the ring of tasks closes within the limit; the output is the tasks in order from the initial one, none twice. |
| `LinuxLists.ProcessExact` | crates/vmi-os-linux/src/lib.rs:667-693 | So it is for a task: process id in four little-endian bytes, command before its first zero byte. |
| `LinuxLists.CStringExact` | crates/vmi-os-linux/src/lib.rs:681-686 | The bytes before the first zero, or all of them. |
| `LinuxSockets.SocketsFromHashTable` | crates/vmi-os-linux/src/lib.rs:538-599 | The bucket and chain loops list the decoded sockets of the table's nodes. |
| `LinuxSockets.HashTableExact` | crates/vmi-os-linux/src/lib.rs:538-599 | Success exactly when every chain is null-terminated, no node occurs twice in the whole table, all fit the limit and all decode; the nodes are the concatenated chains in bucket order. |
| `LinuxSockets.SockExact` | crates/vmi-os-linux/src/lib.rs:601-665 | A socket is decoded exactly when memory holds it: family 2 or 10 in little-endian bytes, ports in network order, addresses of the length of the family. |
| `LinuxSockets.BucketExact` | crates/vmi-os-linux/src/lib.rs:559-573 | The head of bucket i is the word at table + i * stride + first. |
| `LinuxPaths.MountedPath` | crates/vmi-os-linux/src/lib.rs:404-474 | Returns the path of the recursive walk (cross at a mount root, else prepend and go to the parent) whenever that walk ends with fewer names than the limit, and an error only when no such walk exists. |
| `LinuxPathMeaning.MountedPathExact` | crates/vmi-os-linux/src/lib.rs:404-474 | A path is returned if and only if the arguments are valid and it is the path of the place, with fewer components named than the limit: a slash at the root of a mount that is its own parent; the path of the mount point at the root of another mount; elsewhere the path of the parent directory, a slash and the name, or the path of the parent itself when the name is empty or a slash. In words of guest memory. |
| `LinuxPathMeaning.AnswerSplits` | crates/vmi-os-linux/src/lib.rs:464-474 | The answer joins exactly the collected names that are neither empty nor a slash, last collected first, given by their indices; splitting it at slashes gives them back. |
| `LinuxPaths.MountedNames` | crates/vmi-os-linux/src/lib.rs:404-474 | The loop collects exactly the names of that walk; it ends because visited places never repeat. |
| `LinuxPaths.RevisitLeadsNowhere` | crates/vmi-os-linux/src/lib.rs:404-474 | A (dentry, mount) pair met again leads nowhere: the cycle check rejects no walk that would have ended. |
| `LinuxPaths.LeadsOnce` | crates/vmi-os-linux/src/lib.rs:404-474 | From one place at most one list of names leads to the root. |
| `LinuxPaths.DentryPath` | crates/vmi-os-linux/src/lib.rs:328-402 | Without mounts: the path up to a self-parent dentry, whenever the kept names fit the limit; an error only when no such ascent exists. |
| `LinuxPathMeaning.DentryPathExact` | crates/vmi-os-linux/src/lib.rs:328-402 | A path is returned if and only if the arguments are valid and it is the path of the dentry: each visible name after the path of its parent and a slash, up to a dentry that is its own parent, with fewer components below that one than the limit. |
| `LinuxPaths.DentryNames` | crates/vmi-os-linux/src/lib.rs:328-402 | The loop collects exactly the visible names of that ascent. |
| `LinuxPaths.OneMountIsDentryPath` | crates/vmi-os-linux/src/lib.rs:328-474 | On a self-parent mount whose root dentry is self-parent and nameless, mounted_path succeeds exactly when dentry_path does after a climb to that root with fewer names than the limit, and then both return the same bytes. |
| `LinuxPaths.WalkIsClimb` | crates/vmi-os-linux/src/lib.rs:328-474 | There the mounted walk and the climb to the root dentry are the same, in both directions. |
| `LinuxPaths.AscendsOnce` | crates/vmi-os-linux/src/lib.rs:328-402 | A dentry has at most one ascent and so one list of names. |
| `LinuxPaths.JoinAbsolutePath` | crates/vmi-os-linux/src/lib.rs:825-848 | The loop joins the components, each after a slash; no components give the root. |
| `LinuxPaths.JoinedSplits` | crates/vmi-os-linux/src/lib.rs:825-848 | Splitting a joined path at slashes gives back the components. |
| `WindowsHandles.HandleEntryAddress` | crates/vmi-os-windows/src/lib.rs:320-360 | Follows the mixed-radix (512, 512, entries per page) digits of the index through the table pages. |
| `WindowsHandles.EntryAddressExact` | crates/vmi-os-windows/src/lib.rs:320-375 | Where an entry is: in the base page, in the page that entry i of its table names, or in the page named by entry i % 512 of the table that entry i / 512 of the directory names; each name is a word less its low four bits, page aligned and not null. |
| `WindowsHandles.DigitsInCapacity` | crates/vmi-os-windows/src/lib.rs:320-360 | Below a level's capacity every digit indexes inside its page and the digits determine the index. |
| `WindowsHandles.SlotsDisjointExactly` | crates/vmi-os-windows/src/lib.rs:320-360 | Different indices get non-overlapping entries if and only if the leaf pages reached are distinct. |
| `WindowsHandles.EntryInsideLeaf` | crates/vmi-os-windows/src/lib.rs:320-360 | Every entry lies inside its leaf page. |
| `WindowsHandles.LevelZeroCapacity` | crates/vmi-os-windows/src/lib.rs:338-341 | At level 0 the leaf index is ignored: entries are apart if and only if they fit one page. |
| `WindowsHandles.ReadTablePointer` | crates/vmi-os-windows/src/lib.rs:362-375 | A pointer with its low four bits cleared, rejected when null or not page aligned. |
| `WindowsHandles.SignExtendExact` | crates/vmi-os-windows/src/lib.rs:583-604 | The result is the one word that keeps the low bits and whose signed value fits in them. |
| `WindowsHandles.Shl64Bits` | crates/vmi-os-windows/src/lib.rs:292-296 | Bit k of the shifted word is bit k - n of the word, and the low n bits are clear. |
| `WindowsHandles.ObjectRoundTrip` | crates/vmi-os-windows/src/lib.rs:288-305 | An aligned object that is the sign extension of its low bits comes back from what those bits are when shifted down. |
| `WindowsHandles.EntryDenotes` | crates/vmi-os-windows/src/lib.rs:285-316 | Which handle an entry denotes: the object whose shifted low bits its word holds under the mask, with the access word of the entry, whatever the other bits; none when nothing is under the mask. |
| `WindowsHandles.HandlesExact` | crates/vmi-os-windows/src/lib.rs:289-318 | A list is returned if and only if every entry is readable and the list has each non-null one exactly once, in ascending multiples of 4. |
| `WindowsHandles.HandlesOfExact` | crates/vmi-os-windows/src/lib.rs:236-318 | The call returns a list if and only if its arguments are valid and the process has no table and the list is empty, or its table names an entry array with a level in the low two bits and a count within the limit, and that is the listing of the entries. |
| `WindowsHandles.ReadEntries` | crates/vmi-os-windows/src/lib.rs:289-318 | The loop over indices computes that list, stopping at the first error. |
| `WindowsHandles.Handles` | crates/vmi-os-windows/src/lib.rs:236-318 | The whole call: argument, level, alignment and limit checks in order, then the entries. |
| `Qmp.QmpClient.Execute` | crates/vmi-driver-qemu/src/lib.rs:437-486 | The receive loop takes an id, queues events, skips foreign replies and ends as specified. |
| `Qmp.QmpClient.NextEvent` | crates/vmi-driver-qemu/src/lib.rs:488-523 | Queued events first, then the stream until an event, the deadline or a failure. |
| `Qmp.QmpClient.TakeRequestId` | crates/vmi-driver-qemu/src/lib.rs:533-539 | Ids count up and end after 2^64-1. |
| `Qmp.QmpClient.EnqueueEvent` | crates/vmi-driver-qemu/src/lib.rs:573-584 | Appends, or refuses when 1024 events are queued. |
| `Qmp.AnswerExact` | crates/vmi-driver-qemu/src/lib.rs:437-486 | A command is answered exactly when its own reply arrives after turns that do not end the wait and events that fit the queue; it consumes no more and queues them all. |
| `Qmp.AnswersAreOwn` | crates/vmi-driver-qemu/src/lib.rs:437-539 | Any command of any run, the first included, is answered only by a reply that carries the id it took, and that reply is the last turn that this command itself consumed. |
| `Qmp.IdsDiffer` | crates/vmi-driver-qemu/src/lib.rs:437-539 | In every run no id is used twice, so a late reply is never given to a later command. |
| `Qmp.EventsConserved` | crates/vmi-driver-qemu/src/lib.rs:437-523 | In every run the events delivered, then those queued, are the events read, in order, if and only if no command ran into a full queue; each that did lost one. |
| `Qmp.RunIds` | crates/vmi-driver-qemu/src/lib.rs:533-539 | Over a run the ids taken ascend from the next free one. |
| `Qmp.RunIdsExact` | crates/vmi-driver-qemu/src/lib.rs:533-539 | They are handed out one by one: a command is sent exactly when ids are left, and carries the first one plus the number of commands sent before it. |
| `Qmp.AwaitEventExact` | crates/vmi-driver-qemu/src/lib.rs:488-523 | A wait for an event ends at the first event, failure or, with a deadline, timeout, takes all turns up to there, and reports what that one was; replies never end it. |
| `GdbHex.EncodeLittleHex` | crates/vmi-driver-qemu/src/lib.rs:243-272 | The loop writes two lower-case digits per byte, least significant byte first. |
| `GdbHex.DecodeLittleHex` | crates/vmi-driver-qemu/src/lib.rs:274-302 | Succeeds exactly on the right number of hex digits of either case, with the number the bytes denote. |
| `GdbHex.HexDigitsExact` | crates/vmi-driver-qemu/src/lib.rs:243-302 | Digits are written as 0-9a-f and read as these or 0-9A-F. |
| `GdbHex.RegisterRoundTrip` | crates/vmi-driver-qemu/src/lib.rs:204-302 | A value that passes the width guard is read back unchanged. |
| `Views.LiveAfterFlip` | crates/vmi-views/src/lib.rs:18-72 | Setting or clearing one bit of one word adds or removes exactly one id. |
| `Views.MemoryViewManager.constructor` | crates/vmi-views/src/lib.rs:80-89 | Starts with the default view alone, active, and next id 1. |
| `Views.MemoryViewManager.Contains` | crates/vmi-views/src/lib.rs:29-35 | The default view and the ids whose bit is set. |
| `Views.MemoryViewManager.Insert` | crates/vmi-views/src/lib.rs:37-53 | Adds an id that was free; the count stays one plus the set bits. |
| `Views.MemoryViewManager.Remove` | crates/vmi-views/src/lib.rs:55-71 | Removes an id that was live; the count stays right. |
| `Views.MemoryViewManager.Create` | crates/vmi-views/src/lib.rs:91-106 | Returns the first free id cyclically from the next one, and fails exactly when all 65536 are live, changing nothing. |
| `Views.MemoryViewManager.Destroy` | crates/vmi-views/src/lib.rs:108-126 | Succeeds exactly for a live id that is neither the default nor the active one; nothing else changes. |
| `Views.MemoryViewManager.Views` | crates/vmi-views/src/lib.rs:128-141 | The live ids, ascending, as many as the count. |
| `Views.MemoryViewManager.SwitchView` | crates/vmi-views/src/lib.rs:153-162 | Only to a live id; the active view stays live. |
| `Views.ReusedLast` | crates/vmi-views/src/lib.rs:91-126 | Searching on from an id, that id itself is chosen only when every other one is live. |
| `Publication.NeverChanges` | crates/vmi-driver-virtualbox/src/lib.rs:586-630 | In every interleaving, where no process id is shared by three processes, an existing destination is never removed or rewritten. |
| `Publication.AlwaysWhole` | crates/vmi-driver-virtualbox/src/lib.rs:586-630 | There a destination that appears holds all the bytes of one publisher at every moment. |
| `Publication.OneSucceeds` | crates/vmi-driver-virtualbox/src/lib.rs:586-630 | Whatever the process ids: at most one publisher succeeds, it has linked the destination, and there was none before. |
| `Publication.ExistingIsKept` | crates/vmi-driver-virtualbox/src/lib.rs:586-630 | Whatever the process ids: with an output there from the start nobody succeeds and it keeps its bytes, whatever the racy first check saw. |
| `Publication.NameStays` | crates/vmi-driver-virtualbox/src/lib.rs:586-630 | Whatever the process ids: the destination, once linked, stays linked to the same file. |
| `Publication.SuccessIsPublished` | crates/vmi-driver-virtualbox/src/lib.rs:586-630 | Where no id is shared by three processes the one that succeeds has published its own bytes. |
| `Publication.NoTemporaryLeft` | crates/vmi-driver-virtualbox/src/lib.rs:586-630 | With distinct ids the temporary name of a success is gone. |
| `Publication.SafeExactly` | crates/vmi-driver-virtualbox/src/lib.rs:586-630 | The exact condition: among processes with given ids some interleaving publishes a torn file, and some changes a published one, if and only if three of them share an id. |
| `Publication.StepKeepsOrder` | crates/vmi-driver-virtualbox/src/lib.rs:586-630 | Each atomic step keeps what makes this true: an open file is known by its temporary name only, and a name that was removed is not created again. |
| `Publication.StepKeepsInv` | crates/vmi-driver-virtualbox/src/lib.rs:586-630 | Each atomic step keeps, whatever the ids: sequences unique in a process, one writer per file, at most one winner. |
| `Publication.SharedIdTears` | crates/vmi-driver-virtualbox/src/lib.rs:586-630 | For any three processes with one id, a schedule in which the success of the first publishes an empty file that the third then writes to. |
| `Capture.ExceededExactly` | crates/vmi-driver-virtualbox/src/lib.rs:38-49 | When both readers have finished, the limit was reported if and only if the output exceeds the capacity, and otherwise all of it was kept, whatever the interleaving. |
| `Capture.WithinCapacity` | crates/vmi-driver-virtualbox/src/lib.rs:155-235 | The bytes kept by the two readers never exceed the capacity and are prefixes of the streams. |
| `Capture.StepKeepsInv` | crates/vmi-driver-virtualbox/src/lib.rs:38-49 | Each load, compare-exchange, spurious failure or read keeps the counter equal to what was counted. |
| `EventQueue.Shared.constructor` | crates/vmi-events/src/lib.rs:24-44 | An empty, open queue of the given capacity, nothing accepted or handed out. |
| `EventQueue.Shared.Push` | crates/vmi-events/src/lib.rs:46-60 | Accepts exactly when the queue is open and has room; keeps accepted equal to handed out followed by queued, and the capacity. |
| `EventQueue.Shared.Close` | crates/vmi-events/src/lib.rs:62-67 | Closes; accepted is still handed out followed by queued. |
| `EventQueue.Shared.Next` | crates/vmi-events/src/lib.rs:78-104 | Hands out the oldest event exactly when there is one, and nothing exactly when there is none and the queue is closed or the time is up; keeps accepted equal to handed out followed by queued. |
| `EventQueue.FromTheStart` | crates/vmi-events/src/lib.rs:46-104 | In every interleaving of producers, consumers, spurious wakeups, timeouts and close: pushed is delivered followed by queued, the capacity holds, no event waits while only sleepers are left, and after close nobody sleeps. |
| `EventQueue.StepKeepsInv` | crates/vmi-events/src/lib.rs:46-104 | Each critical section keeps this; a notified consumer that also timed out still takes its event. |
| `EventQueue.ClosedForGood` | crates/vmi-events/src/lib.rs:46-67 | After close nothing more is accepted. |
| `EventQueue.LeavesEmptyHanded` | crates/vmi-events/src/lib.rs:78-104 | A consumer returns nothing if and only if, at a locked moment, the queue is empty and it is closed or its time is up; otherwise the oldest event. |
| `ReleaseOrder.PublicationOrder` | scripts/verify-package-metadata.py:82-102 | The layered order, every layer sorted. In terms of the packages: each name once, and every workspace name that the last package of a name declares as a dependency before that name; failing if and only if such declarations form a circle, with the largest set of packages each of which needs another of the set. |
| `ReleaseOrder.OnePlan` | scripts/verify-package-metadata.py:82-102 | The same packages always give the same plan: order and report are deterministic. |
| `ReleaseOrder.DependenciesExact` | scripts/verify-package-metadata.py:84-92 | The dictionary has exactly the dependencies that the last package of each name declares on names of the workspace. |
| `ReleaseOrder.BeforeExact` | scripts/verify-package-metadata.py:96-96 | Names are sorted in dictionary order: by the first character that differs, a prefix first. |
| `ReleaseOrder.LayeredOnce` | scripts/verify-package-metadata.py:93-102 | The layered order is one order. |
| `ReleaseOrder.EntangledHasCycle` | scripts/verify-package-metadata.py:96-99 | No ready package means a cycle. |
| `ReleaseOrder.CycleHasNoOrder` | scripts/verify-package-metadata.py:82-102 | Packages on a cycle have no valid order. |
| `ReleaseOrder.SortedNames` | scripts/verify-package-metadata.py:96-96 | The sorted list of a set of names. |
| `ReleaseOrder.LayerKeeps` | scripts/verify-package-metadata.py:95-102 | Appending a layer of ready packages keeps the order valid. |

## Left out

- CachedWrites.RightFromEveryCache: for a write that comes to more pages than the cache holds, that the condition is needed is not stated over all caches, since entries of the range are evicted before they are used; it is stated exactly for each cache (`RightFromHere`).
- CacheRaces.CoherentExactly: a page walk and a write to memory are one atomic step each; a walk that reads some entries before a write and some after it is not part of this model.
- Allocation failure (`try_reserve`), lock poisoning and 32-bit hosts.
- Error texts, and which of two texts is used where two checks of one field overflow or run past the file.
- Files, sockets, processes, clocks, decompressors, JSON and command-line handling: memory is a byte map, a QMP peer is a script of turns, a directory is a map from names to files.
- Manifest and raw snapshots, the provider registry, capability plumbing beyond "can read" and "can write", the other drivers, the C ABI.
- `read_scalar` and big-endian scalars, beyond the little-endian words the walkers read.
- LinuxLists.Modules: names are the bytes before the first NUL; lossy UTF-8 decoding rests on the standard library.
- LinuxPaths.MountedPath: path components are the bytes of names; lossy UTF-8 decoding rests on the standard library.
- `open_files`, `socket_from_file` and `sockets_from_list` of the Linux adapter: the same reads and the same chain loop as `sockets_from_hash_table`, without its buckets.
- `processes`, `modules`, `file_object` and UTF-16 names of the Windows adapter: the list loops have the shape of the Linux module loop.
- Guest memory that changes during a traversal.
- Qmp.QmpClient.Execute: a message is read whole or not at all; a line cut by a timeout, the greeting and the capabilities negotiation are not part of this model.
- Publication.SafeExactly: other programs that write to the directory, crashes between steps, and what `sync_all` promises about them.
- Capture.StepKeepsInv: the child process, its deadline and the thread that polls the flag.
- EventQueue.Shared.Next: durations; whether a deadline has come is an input of each step.
- ReleaseOrder.PublicationOrder: reading package metadata; a package is its name and the names it depends on.
