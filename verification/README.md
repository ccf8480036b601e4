# EMK: a verified model of the kernel's data structures and protocols

EMK is a bare-metal kernel for x86-64, written in Rust. This project models the parts of it that manage
memory and shared tables, in Dafny, and proves what they keep over every run:

* the page-frame allocator: a bitmap of 32-bit words, and the word behind it, which the searches also look at. No
  allocator writes it; where it happens to be filled it is a guard (`Bits`, `Bitmap`, `Allocators`, `AllocatorRuns`);
* the four-level pager over a heap of 512-entry tables, against the hardware's own translation (section 4.5 of
  the Intel 64 and IA-32 Architectures Software Developer's Manual, Volume 3A): mapping small and 2 MiB pages,
  splitting a large page, mapping regions, merging two address spaces, tearing one down, and how many frames
  each of these takes, on any allocator whose range ends below 32 GiB, and what the write and user bits of all levels
  (section 4.6 of the same volume) then allow (`Plans`, `Paging`, `PagingSteps`, `PagerEffects`, `Rights`, `Pagers`,
  `RegionEffects`, `Mapping`, `Merging`, `Releasing`, `LifeCycles`);
* the one-slot mailbox through which a core tells the others about new pages, as a step relation with free
  interleaving, the encoding and decoding of page runs on both of its ends for all four tables of the file system,
  and the page tables of all cores in one physical memory beside it (`FileTableSync`, `Mailboxes`, `CrossCore`);
* the splitting of NVMe transfers into commands and the PRP entries and lists that describe their memory
  (section 4.3 of the NVM Express Base Specification 1.4), and the place of an ext2 inode reached through them
  (`Nvme`, `Ext2`);
* the stores of the ACPI namespace (section 5.3 of the ACPI Specification): association lists in fragments,
  interned paths with owners, nested frames, and the walk through enclosing scopes and devices (`Texts`,
  `Stacks`, `Names`, `NameRuns`, `Paths`, `Scopes`);
* the directory index: a slab of short strings in three sizes, a hash map with growing buckets, and its rehash
  (`Slabs`, `SlabRuns`, `Hashes`, `Placements`, `Directories`, `DirectoryRuns`).

Objects whose methods change their fields are classes, loops are loops, and each such method is proved
against a specification stated on values; the theorems about runs are lemmas about those specifications, or
methods that play an arbitrary run. Names follow the source. Physical memory is a map from frame numbers to
tables of 512 entries; an entry is a record of its flag bits and its frame. A `hide` statement keeps a
definition out of a proof that does not need it.

## What the code does that its callers may not expect

Each of these is the behaviour of the code, stated in the contract or the lemma named.

* `occupation_check` reads the last directory of its own address space twice instead of once each
  (`emkk/src/hal/memory/pager.rs:528`). It therefore never misses a collision, but it also answers true when the
  other address space merely has the upper tables for a mapped region: `Merging.OccupationCheck` says exactly when
  it answers true, `Merging.FalseAlarm` is such a case.
* `bind_other` hands the page-size bit on with the flags of a 2 MiB page, and every mapping function rejects
  that bit, so it fails with `InvalidFlags` for any present 2 MiB page of the other pager
  (`Merging.BindLarge`; `Merging.BindOther` says exactly when it succeeds).
* `page_4_kb` does not make a table entry present that exists without being present. The new page is reached
  exactly when every entry that was on its path was present (`PathOpen` in the contract of `Pagers.Pager.Page4Kb`);
  `page_2_mb` depends on the two upper ones only. A page mapped without the present flag closes the paths through the
  tables that are created for it, and no others, so a later page behind the same new table is not reached although
  mapping it succeeds (`LifeCycles.BlockedByNeighbour`). So `map` and `map_efficient` give the same translation exactly
  when no page of the middle lies below a directory entry that is there but not present
  (`RegionEffects.SameRegionSameWalk`, `RegionEffects.ClosedByDirectoryEntry`).
* `page_4_kb` grants writing in the two upper entries of a path, but not in the directory entry. A writable page in a
  2 MiB slot whose directory entry was made for a page that is only read, or that was split off such a 2 MiB page,
  cannot be written. The user bit is granted nowhere: user code reaches a page exactly when all entries that were on
  its path let it (`Rights.RightsOfPage` says both exactly).
* `page_2_mb` checks alignment to 1 MiB only. A frame that is not aligned to 2 MiB translates nothing
  (`PagerEffects.MisalignedHugeFaults`); a virtual address half-way between two boundaries translates to a place
  1 MiB further up (`Mapping.HalfwayIsOff`). A slot that already holds a 2 MiB page loses its page-size bit, and
  the walk then reads the data frame as a page table (`PagerEffects.RemappedSlotReadsPage`).
* `map_efficient` with the PAT flag set fails at its first 2 MiB page, where the flag is not cleared, although
  `map` accepts it (`Mapping.MapEfficient`; `Mapping.RefusedExactly` has the one other reason).
* `page_2_mb` stores the "table allocated" bit in its entry when it creates an upper table in the same call, or when
  it gives the slot's own table back (`StoredMark` in the contract of `Pagers.Pager.Page2Mb`). `release` takes a page
  with that bit for a table and gives its data frame back: it frees exactly the tables if and only if there is no such
  page (`Releasing.Release`). One 2 MiB page on a new pager is enough to get one (`LifeCycles.BuildLarge`), and the
  frame is lost with the pager (`LifeCycles.LargePageTornDown`).
* `get_physical` answers the base of a 2 MiB page for every page in it, and reads frame 0 where there is no last-level
  table (`Pagers.Pager.GetPhysical`, `Pagers.ReportedFrame`). The frames `sync` sends to the other cores are the
  host's for small pages and for the first page of each large one only (`CrossCore.EveryCoreAgrees`).
* In `sync` the loops over the pages of the directories, the hash maps and the strings run up to the number of pages of
  the files (`emkk/src/vfs/gfs/mod.rs:259`, `284` and `309`), and an incomplete last page of the hash maps is counted as a
  page of the directories (`emkk/src/vfs/gfs/mod.rs:213-215`). The pages of such a table are sent exactly when it has no
  new ones or as many pages as the files (`FileTableSync.StaysRightExactly`); with fewer pages of files some are passed
  over (`FileTableSync.CoveredExactly`), and those are never sent later (`FileTableSync.NeverCaughtUp`).
* Requests of up to 32 pages are served inside one bitmap word only (`AllocatorRuns.SmallRequestsStayInsideAWord`).
* `is_occupied` tests whole interior words for being non-zero only, so every run with such a word passes on some
  bitmap with free pages in it (`Bitmap.LongRunsTestedLoosely`, `Bitmap.TestedExactly`).
* Both bitmap searches look at word number `bitmap_entries`, which is no part of the range. A small request is served
  from there exactly when that word has room and no other has, or the search begins there (`Allocators.Allocator.Alloc`,
  `Allocators.EmptyGuardStrays`, `Allocators.FullAllocatorStrays`).
* `NameSystem::add` accepts the number of the system that is handed out next; what it adds there is lost
  (`NameRuns.EarlyAddIsLost`).
* `PathSystem::append` with a name of no segments gives the current path a second id; interning is canonical
  exactly for names of at least one segment (`Paths.AppendedStaysCanonical`).
* When the table of paths is full, a new path gets an id that denotes nothing (`Unlisted` in the contract of
  `Paths.PathSystem.Append`); with names of at least one segment the text runs out first (`Paths.CanonicalIsListed`).
* `unwrap_namestring` asks the devices only after every path up to the root had a scope; a path without one is a panic,
  also when a device on it has the name (`Scopes.DeviceNeedsScopes`).
* When the bulk size is not a multiple of the sector size, the second command of a long NVMe transfer takes its
  bytes from the wrong place (`Nvme.InStepExactly`).
* A PRP list of more than 512 entries is right exactly when their number is a multiple of 511; otherwise the rest of
  the entries goes to the wrong place in the page behind the tables (`Nvme.LongListDescribes`, `Nvme.NotByChance`).
* Freeing a name flips the bit of slot offset / 8 whatever the size of the slots. That is right exactly for names of up
  to 8 bytes and for the first slot of a table (`Slabs.FreedExactly`, `Slabs.FreedInstead`); elsewhere another name can
  be lost (`SlabRuns.FreeSpoilsAnother`). Storing a name of more than 32 bytes panics whenever there is room for it
  (`Slabs.StringAllocator.Allocate`).
* The rehash of a directory places entries by the old number of buckets. A lookup by the new number finds a stored
  name exactly when its hash is the same for both (`Directories.FoundAfterRehash`); the name "a" is missed after the
  first rehash of a directory of 640 buckets (`Hashes.ShortNameMoves`).
* The rehash places the slots that are not in use too. Those of zeroed memory all read as the name at offset 0, and a
  bucket that has to take more than 16 is a panic, so it cannot succeed with more than 16 slots to spare
  (`Directories.FreeSlotsPreventRehash`). When they read as other names, a lookup can answer a link from a slot out of
  use (`Placements.LookedUpAfter`).
* An insertion that needs a rehash for which there are no buckets or no entries halves the directory's count of
  entries, which was not doubled (`Directories.DirectoryHashmap.InsertRehashing`).
* The makefile uses debug builds of the kernel, in which arithmetic that overflows its type panics; the byte that
  counts the entries of a bucket and the byte that counts the segments of a path are modelled so.

## Model

| member | source | states |
|---|---|---|
| `Bits.MaskUpdate` | emkk/src/hal/memory/allocator.rs:741-747 | or-ing a shifted mask into a word sets exactly the bits of its range, and-ing its complement clears exactly those |
| `Bits.NonZeroBit` | emkk/src/hal/memory/allocator.rs:87-91 | a word that is not zero has a bit, which is all that the test of an interior word shows |
| `Bitmap.FromAddress` | emkk/src/hal/memory/allocator.rs:39-50 | word and bit of an address are those of its page number |
| `Bitmap.IsOccupied` | emkk/src/hal/memory/allocator.rs:72-101 | answers whether the run looks occupied: ends exact, interior words non-zero |
| `Bitmap.OccupiedRunLooksOccupied` | emkk/src/hal/memory/allocator.rs:72-101 | a run whose pages are all in use always passes the test |
| `Bitmap.ShortRunsTestedExactly` | emkk/src/hal/memory/allocator.rs:72-101 | without interior words the test is exact, in both directions |
| `Bitmap.LongRunsTestedLoosely` | emkk/src/hal/memory/allocator.rs:87-91 | every run with an interior word passes the test on some bitmap on which it is not fully in use |
| `Bitmap.TestedExactly` | emkk/src/hal/memory/allocator.rs:72-101 | the test is exact on all bitmaps if and only if the run has no interior word |
| `Bitmap.SetOne` | emkk/src/hal/memory/allocator.rs:133-162 | marks exactly the pages of the run, in partial first and last words too |
| `Bitmap.SetZero` | emkk/src/hal/memory/allocator.rs:102-132 | clears exactly the pages of the run |
| `Bitmap.SamePages` | emkk/src/hal/memory/allocator.rs:133-162 | bitmaps with the same pages in use are the same words |
| `Bitmap.MarkThenClear` | emkk/src/hal/memory/allocator.rs:102-162 | marking a free run and clearing it restores every word |
| `Allocators.Allocator.IsEntryValid` | emkk/src/hal/memory/allocator.rs:748-758 | finds a free run inside one word, or there is none |
| `Allocators.Allocator.NextFreeEntry` | emkk/src/hal/memory/allocator.rs:672-688 | finds the lowest word with room for a small request and the lowest place in it, or none of the words has room; the word behind the range is one of them |
| `Allocators.OneStartPerWord` | emkk/src/hal/memory/allocator.rs:689-740 | trying one start per word loses nothing: if the run right above the highest used bit is blocked, no run starting in that word is free |
| `Allocators.Allocator.NextFreeEntryEx` | emkk/src/hal/memory/allocator.rs:689-740 | finds the lowest run of more than 32 free pages, or no such run exists; stays within the range when the guard is there, or when some such run lies in the range |
| `Allocators.Allocator.AllocEx` | emkk/src/hal/memory/allocator.rs:640-671 | allocates that lowest run and marks exactly its pages |
| `Allocators.Allocator.Alloc` | emkk/src/hal/memory/allocator.rs:764-794 | succeeds exactly when a placement exists, with free pages of the range that are then marked, and nothing else changes; where a small request is placed, exactly; when it is served from behind the range, exactly |
| `Allocators.EmptyGuardStrays` | emkk/src/hal/memory/allocator.rs:551-580 | with an empty word behind the range, as `subdivide` leaves it, a small request leaves the range exactly when no word of the range has room, or the search begins behind it |
| `Allocators.FullAllocatorStrays` | emkk/src/hal/memory/allocator.rs:764-794 | an allocator of 32 pages, all in use and without a guard, hands out page 32 |
| `Allocators.Allocator.Free` | emkk/src/hal/memory/allocator.rs:808-826 | the error of each malformed block, and else clears exactly the pages of a block that looks occupied |
| `Allocators.AllocOneFrame` | emkk/src/hal/memory/allocator.rs:764-794 | one page: a frame that was not in use joins the set in use; failure only when every frame is in use |
| `Allocators.FreeOneFrame` | emkk/src/hal/memory/allocator.rs:808-826 | giving a frame back succeeds exactly when it is in use, and then it leaves the set in use |
| `AllocatorRuns.RunAccounted` | emkk/src/hal/memory/allocator.rs:764-826 | over every run of alloc and free, requests served from behind the range included, live blocks are pairwise disjoint and the pages in use are those of the start plus those of the live blocks |
| `AllocatorRuns.FreeNeverFails` | emkk/src/hal/memory/allocator.rs:808-826 | in every state of every run, freeing any live block succeeds, when what can be handed out ends at or below 32 GiB |
| `AllocatorRuns.LiveBlockFrees` | emkk/src/hal/memory/allocator.rs:808-826 | freeing a live block succeeds exactly when it ends at or below 32 GiB, and clears exactly its pages |
| `AllocatorRuns.NothingLiveNothingLost` | emkk/src/hal/memory/allocator.rs:764-826 | a run that ends with no live block ends with the bitmap it began with, word for word |
| `AllocatorRuns.AllocThenFree` | emkk/src/hal/memory/allocator.rs:764-826 | alloc followed by free succeeds and restores the bitmap bit for bit |
| `AllocatorRuns.SmallRequestsStayInsideAWord` | emkk/src/hal/memory/allocator.rs:748-758 | two neighbouring free pages in different words do not serve a request for two |
| `Paging.TranslateInto` | emkk/src/hal/memory/pager.rs:388-407 | splitting the address built from four indices gives the indices back |
| `Paging.IntoTranslate` | emkk/src/hal/memory/pager.rs:388-407 | building the address from the indices of a page address gives the address back, modulo 2^48 |
| `Paging.TranslateBits` | emkk/src/hal/memory/pager.rs:395-407 | the four indices are bits 47 to 39, 38 to 30, 29 to 21 and 20 to 12 of the address, as the processor takes them |
| `Paging.WalkIsWalkFrom` | emkk/src/hal/memory/pager.rs:408-437 | the hardware walk is the walk down the tree of tables the pager keeps |
| `Plans.CostIsAllNewTables` | emkk/src/hal/memory/pager.rs:693-807 | the frames that mapping a list of small and 2 MiB pages takes, less those it gives back, are the tables there are more of afterwards |
| `PagerEffects.AlienUntouched` | emkk/src/hal/memory/pager.rs:693-807 | whatever keeps the frames of others, as every operation of a pager does, leaves every address of another pager in the same memory with its translation |
| `Pagers.AllocZero` | emkk/src/hal/memory/allocator.rs:796-806 | a zeroed frame that was not in use, all other memory unchanged; fails exactly when no frame of the range is left |
| `Pagers.Pager.AllocateIfNecessary` | emkk/src/hal/memory/pager.rs:139-157 | a missing table is created zeroed and linked without changing any translation or page entry, and its entry has the flags that were asked for; takes a frame exactly if the table was missing, and fails exactly if there is none |
| `Pagers.Pager.GetPdAllocated` | emkk/src/hal/memory/pager.rs:408-437 | the directory on the path exists afterwards, no address translates differently, no page entry changes, no 2 MiB page is lost; the two upper entries allow writing if that was asked for, and otherwise what they did; fails exactly when the missing tables outnumber the free frames |
| `Pagers.Pager.Unfold` | emkk/src/hal/memory/pager.rs:107-131 | splitting a 2 MiB page into 512 small ones changes no translation, and keeps the tables a tree of distinct frames; all 512 entries and the one above them have the flags of the large page |
| `Pagers.Pager.Page4Kb` | emkk/src/hal/memory/pager.rs:693-746 | a point update of the hardware walk: this address gives the new frame if the entries that were on its path are present, every other address walks as before, also when tables are created or a 2 MiB page is split; the entry of the page is the frame with the flags, the PAT bit moved to bit 7, all other pages keep their entries, and what the entries above tables allow is stated for every table; which paths are open afterwards: without the present flag exactly those through no new table; success and each error, exactly; a failure changes no translation and no page entry, and leaves exactly the tables the frames reached for |
| `Pagers.Pager.Page2Mb` | emkk/src/hal/memory/pager.rs:772-807 | the walk of every address after any success: one 2 MiB slot changes, to the new page, or, for a slot that held a 2 MiB page or a frame that is not aligned, to what the hardware makes of the entry; the entry with its flags, while all other pages keep theirs, and what the entries above tables allow; which paths are open afterwards; the "table allocated" bit that is stored; success and each error, exactly |
| `Rights.AccessIs` | emkk/src/hal/memory/pager.rs:710-742 | the write and user bits that the walk collects over all levels are those of the page entry and of the entries above the tables on its path |
| `Rights.RightsOfPage` | emkk/src/hal/memory/pager.rs:419-435 | after `page_4_kb` the walk with rights, exactly: the frame, writable if and only if that was asked for and the directory entry, or the 2 MiB page that was split, allowed it; open to user code if and only if that was asked for and all entries that were there allowed it; a request to write leaves both upper entries writable |
| `Rights.RightsOfOthers` | emkk/src/hal/memory/pager.rs:419-435 | every other page is reached exactly when it was, keeps its user bit, and can be written at least as before; one gains that only below the same top-level entry and if writing was asked for |
| `Rights.RightsOfLarge` | emkk/src/hal/memory/pager.rs:772-807 | the pages of a new 2 MiB page are writable exactly when that was asked for |
| `PagerEffects.MisalignedHugeFaults` | emkk/src/hal/memory/pager.rs:779-783 | a 2 MiB entry at a frame that is not aligned to 2 MiB translates nothing |
| `PagerEffects.RemappedSlotReadsPage` | emkk/src/hal/memory/pager.rs:788-806 | after a 2 MiB page is stored over another one, the walk takes the data frame for a page table |
| `Pagers.Pager.Deallocate` | emkk/src/hal/memory/pager.rs:166-178 | succeeds exactly when the frame is in use; then it leaves the set in use and only the flag of its entry changes |
| `Pagers.Pager.GetPhysical` | emkk/src/hal/memory/pager.rs:939-960 | the frame it answers, with or without a last-level table; fails exactly when there is no directory, or for an address inside a page |
| `Pagers.ReportedFrame` | emkk/src/hal/memory/pager.rs:939-960 | for an address that translates, that frame is the one of the hardware walk exactly when the page is small or the first one of a 2 MiB page |
| `RegionEffects.SameRegionSameWalk` | emkk/src/hal/memory/allocator.rs:256-346 | mapping a region page by page and mapping it with a middle of 2 MiB pages give the same translation of every address exactly when each page of the middle with open upper entries has an open path |
| `RegionEffects.ClosedByDirectoryEntry` | emkk/src/hal/memory/allocator.rs:277-346 | that condition fails for a page exactly when its directory entry is there and not present |
| `Mapping.Map` | emkk/src/hal/memory/allocator.rs:256-276 | maps the whole pages of a block in order, each reached if the entries that were on its path are present with the flags in its entry and, when writing is asked for, below upper entries that allow it, and touches nothing outside them, whatever was mapped before; succeeds exactly for accepted addresses and flags and enough frames |
| `Mapping.MapEfficient` | emkk/src/hal/memory/allocator.rs:277-346 | its head, 2 MiB middle and tail map the block, page by page or by 2 MiB pages, with the flags in every entry and, when writing is asked for, below upper entries that allow it; on success each byte of the block is found at its place in the frames, and in any case a page that holds no byte of the block is untouched; succeeds exactly when the addresses and flags are accepted, its middle is not refused, and the frames suffice; with the PAT flag and a middle it stops before the middle; the "table allocated" bits it stores |
| `Mapping.MiddleExactly` | emkk/src/hal/memory/allocator.rs:284-312 | a page of the block belongs to the middle exactly when the 2 MiB of physical memory around it begin behind the start of the block and end within its pages |
| `Mapping.RefusedExactly` | emkk/src/hal/memory/allocator.rs:314-327 | the middle is refused exactly for the PAT flag, or when the two addresses are not congruent modulo 1 MiB |
| `Mapping.HalfwayIsOff` | emkk/src/hal/memory/pager.rs:779-783 | at a virtual address half-way between two 2 MiB boundaries the page is stored for the whole slot around it: the address translates to the frame 1 MiB further up |
| `Merging.OccupationCheck` | emkk/src/hal/memory/pager.rs:497-570 | true exactly when some address translates here while both upper entries for it are present there |
| `Merging.NoAlarmNoCollision` | emkk/src/hal/memory/pager.rs:497-570 | when the check is false, no address is mapped in both address spaces |
| `Merging.FalseAlarm` | emkk/src/hal/memory/pager.rs:526-530 | two address spaces, each a proper tree of tables, on which the check is true although the second maps nothing at all |
| `Merging.BindLarge` | emkk/src/hal/memory/pager.rs:585-612 | a present 2 MiB page of the other pager always ends the binding, with the error named |
| `Merging.BindOther` | emkk/src/hal/memory/pager.rs:572-650 | every page below the point reached is taken over with its frame and the low twelve bits of its entry, reached if the entries that were on its path are present, and every other address walks as before and keeps its entry; succeeds exactly when the other address space has no 2 MiB page, only accepted flags, an aligned base and there are frames enough; the other address space is unchanged |
| `Merging.BoundIsDisjointUnion` | emkk/src/hal/memory/pager.rs:572-650 | with the check false and base 0 every old mapping is kept and each new one is there if its path was open; the result is the disjoint union of both translations exactly when all those paths were |
| `Releasing.NoHugeNoMarked` | emkk/src/hal/memory/pager.rs:652-691 | a pager without 2 MiB pages has none that `release` would mistake for a table |
| `Releasing.NoMarkedPage` | emkk/src/hal/memory/pager.rs:652-691 | no 2 MiB page has the "table allocated" bit exactly when there is no entry with that bit that has no table of the pager |
| `Releasing.Release` | emkk/src/hal/memory/pager.rs:652-691 | every table, the root, and the data frame of every 2 MiB page with the "table allocated" bit are freed, each exactly once and nothing else; succeeds exactly when those frames are in use, different from each other and from the tables; frees just the tables if and only if there is no such page |
| `LifeCycles.Populate` | emkk/src/hal/memory/pager.rs:693-746 | after any run of requests, failing ones included, the translation of every address, the tables, the free frames and which paths are open are those of a ledger worked out from the requests alone, and so is which of them succeed; with enough frames exactly the accepted ones |
| `LifeCycles.LastRequestWins` | emkk/src/hal/memory/pager.rs:693-746 | in that ledger an address has what its last successful request mapped, if that one was present and no table on its path had been created without being present, and else nothing |
| `LifeCycles.PresentClosesNothing` | emkk/src/hal/memory/pager.rs:693-746 | requests that are all present never block a path |
| `LifeCycles.BlockedByNeighbour` | emkk/src/hal/memory/pager.rs:693-746 | two requests below one new directory entry, the first without the present flag: both succeed, and the present page is not reached |
| `LifeCycles.BuildAndTearDown` | emkk/src/hal/memory/pager.rs:652-746 | creating, filling and releasing a pager leaves exactly the frames in use that were in use before; it fails only when there is no frame for the root |
| `LifeCycles.StillNoMarkedHuge` | emkk/src/hal/memory/allocator.rs:277-346 | a pager without marked 2 MiB pages has none after `map_efficient` when no bit was stored |
| `LifeCycles.BuildLarge` | emkk/src/hal/memory/pager.rs:772-807 | one 2 MiB page on a new pager has the "table allocated" bit |
| `LifeCycles.LargePageTornDown` | emkk/src/hal/memory/pager.rs:652-691 | releasing that pager gives the data frame back too; it succeeds exactly when that frame was in use, which then is lost |
| `FileTableSync.CollectRuns` | emkk/src/vfs/gfs/mod.rs:228-251 | coalesces new pages into runs of neighbouring frames; expanding the runs gives back exactly the pages with the frames `get_physical` answered, none when the loop ends before it begins; panics exactly when it has no answer for one of them, or for the first |
| `FileTableSync.FileSystemSync.Sync` | emkk/src/vfs/gfs/mod.rs:197-334 | all four tables: the pages of the files are sent once, in order, over any number of calls, and a page of the files table has been sent exactly when it holds a byte of the table; the others are sent from their mark up to the number of pages of the files, each page with the frame it has; panics exactly when a table has shrunk or a page has no frame to answer |
| `FileTableSync.StaysRightExactly` | emkk/src/vfs/gfs/mod.rs:252-278 | when exactly the pages of a table have been sent, a call keeps it so if and only if there are no new pages or the files have as many |
| `FileTableSync.CoveredExactly` | emkk/src/vfs/gfs/mod.rs:213-278 | after a call the first `n` pages have been sent if and only if they were before, or there are new ones and the files have `n` pages at least; with the pages counted for the hash maps this says when their last one is sent |
| `FileTableSync.NeverCaughtUp` | emkk/src/vfs/gfs/mod.rs:252-278 | a page that a call has passed over is not sent by any later call |
| `FileTableSync.FileFrameIsHostFrame` | emkk/src/vfs/gfs/mod.rs:228-251 | the frame that is sent for a page is the one behind it exactly when the page is small or the first one of a 2 MiB page |
| `FileTableSync.ExpandConcat` | emkk/src/vfs/gfs/mod.rs:228-251 | requests sent one after the other stand for the pages of the first followed by those of the second |
| `Mailboxes.RunInv` | emkk/src/multithreading/mod.rs:187-232 | the invariant of the mailbox holds in every state of every interleaving |
| `Mailboxes.AwaitTrueMeansServed` | emkk/src/multithreading/mod.rs:213-232 | when the polling loop sees a completed request, the handler is through with the request just sent and every page of it is mapped |
| `Mailboxes.HandlerServesCurrentRequest` | emkk/src/multithreading/per_processor_function.rs:17-66 | a handler that is at work serves the request its sender waits for, so it never overwrites a later one |
| `Mailboxes.RequestNotOverwritten` | emkk/src/multithreading/mod.rs:187-211 | from the interrupt to completion the data of a request does not change |
| `Mailboxes.FinishedMeansAllServed` | emkk/src/vfs/gfs/mod.rs:178-191 | when the sender is through, every core has mapped the pages of all requests sent to it, in order, and nothing else |
| `CrossCore.KernelIpiDst` | emkk/src/multithreading/per_processor_function.rs:17-66 | on real page tables: maps the pages of the request and no others, present and writable in their entries and the upper ones, and completes the packet; panics exactly when a page cannot be mapped, with the request still marked as received |
| `CrossCore.HandledPagesTranslate` | emkk/src/multithreading/per_processor_function.rs:29-40 | after the handler the hardware walk of a page of the request gives its frame if the entries that were on its path are present, and else nothing |
| `CrossCore.ServedBroadcast` | emkk/src/vfs/gfs/mod.rs:178-191 | sending each request to each core in turn leaves every core with all requests applied in order |
| `CrossCore.CoresAgree` | emkk/src/multithreading/per_processor_function.rs:17-66 | in every state of every run, with one allocator for all cores and the rest of the kernel using it in between, the hardware walk through the page tables of each core agrees with the pages its handler has mapped, on every open path, and the tables of different cores stay apart |
| `CrossCore.EveryCoreTranslates` | emkk/src/vfs/gfs/mod.rs:178-191 | whatever the interleaving, when the sender is through, the hardware walk of every new page on every other core gives the frame that was sent if the entries on its path were present at the start, and else nothing |
| `CrossCore.EveryCoreAgrees` | emkk/src/vfs/gfs/mod.rs:197-334 | from the host to the other cores, for each of the tables: that walk gives the frame `sync` read for the page if its path was open, and equals the host's own walk exactly when it was and the page is small or the first one of a 2 MiB page |
| `Texts.Text.Compare` | emkk/src/utils/string.rs:68-82 | equality of two stretches, false past the end |
| `Texts.Text.CompareExtern` | emkk/src/utils/string.rs:83-96 | equality of a stretch with given bytes, false past the end |
| `Texts.Text.Copy` | emkk/src/utils/string.rs:98-116 | the new content after a forward copy from anywhere to anywhere in the buffer, overlapping or not, and the new length; panics exactly beyond the capacity |
| `Texts.CopyRepeats` | emkk/src/utils/string.rs:104-115 | a copy to a later place repeats the bytes between the two places over and over |
| `Texts.Text.PushBackRaw` | emkk/src/utils/string.rs:122-137 | appends, or panics when it does not fit |
| `Stacks.Stack.Push` | emkk/src/utils/stack.rs:97-105 | a stack, and the slots above its top are untouched |
| `Stacks.Stack.Pop` | emkk/src/utils/stack.rs:114-121 | a stack: what was there is what is left followed by the result; panics exactly when empty |
| `Names.NameSystem.constructor` | emkk/src/aml/name_system.rs:66-89 | an empty store that holds exactly the six built-in names |
| `Names.LastContinues` | emkk/src/aml/name_system.rs:95-109 | a system uses its fragments from the front, and only the last of them can end with the last entry |
| `Names.PartitionGrows` | emkk/src/aml/name_system.rs:130-139 | continuing a bucket keeps every entry in exactly one bucket |
| `Names.PartitionExtends` | emkk/src/aml/name_system.rs:114-128 | so does attaching a new one |
| `Names.AddedToOneList` | emkk/src/aml/name_system.rs:130-139 | a new entry is seen at the end of one system's list, and every other list is as before |
| `Names.NameSystem.CanContinue` | emkk/src/aml/name_system.rs:95-109 | finds the bucket to continue, or none of the system's buckets ends with the last entry |
| `Names.NameSystem.AttachReferenceBucket` | emkk/src/aml/name_system.rs:114-128 | puts a new bucket in the first unused fragment; none is left exactly when all four are used |
| `Names.NameSystem.AllocateNewEntry` | emkk/src/aml/name_system.rs:130-139 | buckets stay disjoint and cover the entries; panics exactly when the bucket to continue has 255 entries, or a fifth fragment is needed |
| `Names.NameSystem.InsertName` | emkk/src/aml/name_system.rs:144-153 | the number of the name; stored names stay different from each other, and every list is as before; panics exactly for a new name in a full store |
| `Names.NameSystem.Add` | emkk/src/aml/name_system.rs:156-171 | appends to the association list of one system and leaves all others alone; panics exactly as the code does |
| `Names.NameSystem.Get` | emkk/src/aml/name_system.rs:173-195 | the value of the first item with the name in the system's list, across its fragments |
| `Names.NameSystem.NewSystem` | emkk/src/aml/name_system.rs:221-228 | the next number, with an empty list; other lists unchanged |
| `NameRuns.FoundIsFirstAddSinceCreation` | emkk/src/aml/name_system.rs:156-228 | for every interleaving, what is found is the first value added since the system was handed out |
| `NameRuns.FoundIsFirstAdd` | emkk/src/aml/name_system.rs:156-228 | when only systems that were handed out are added to, it is the first value ever added, or none |
| `NameRuns.EarlyAddIsLost` | emkk/src/aml/name_system.rs:157-159 | a value added under the number that is handed out next is found until then and lost after |
| `NameRuns.PlayThenGet` | emkk/src/aml/name_system.rs:95-229 | the arrays do what the lists say over any run; it goes through exactly when each operation fits, told from the operations alone: systems, entries and buckets to spare, room for a new name, at most four fragments to a system and 255 entries to a fragment; it panics exactly as the code does; then what is found is the first value added |
| `NameRuns.InARow` | emkk/src/aml/name_system.rs:95-171 | entries added to a new system in a row share one fragment, and the 256th panics |
| `Paths.PathSystem.constructor` | emkk/src/aml/path_system.rs:55-75 | the three built-in paths, byte for byte, behind the empty one, and their owners |
| `Paths.PathSystem.Find` | emkk/src/aml/path_system.rs:104-139 | the first other id that holds the base followed by the name, if any; panics exactly on overflow |
| `Paths.PathSystem.Append` | emkk/src/aml/path_system.rs:209-246 | the id returned denotes the current path followed by the name, found or new, or nothing when the table is full; earlier ids keep their content; the owner is the current path; panics exactly without room |
| `Paths.PathSystem.Insert` | emkk/src/aml/path_system.rs:248-291 | the id returned denotes the name, or nothing when the table is full; the owner of a new id is the first id other than 0 that holds all its segments but the last, and 0 when there is none; panics exactly without room and for a name of no segments |
| `Paths.CanonicalIsListed` | emkk/src/aml/path_system.rs:209-291 | in a canonical table every id that is handed out denotes its path |
| `Paths.AppendedStaysCanonical` | emkk/src/aml/path_system.rs:209-246 | appending keeps all ids different and owned by a beginning of theirs exactly when the name has a segment |
| `Paths.InsertedStaysCanonical` | emkk/src/aml/path_system.rs:248-291 | inserting does so for every name of at least one segment |
| `Paths.PathSystem.PushFrame` | emkk/src/aml/path_system.rs:89-94 | a new blank frame, with the one below marked as extended and else as it was |
| `Paths.PathSystem.PushAs` | emkk/src/aml/path_system.rs:198-206 | the path becomes current and the frame remembers that it did |
| `Paths.PathSystem.PopFrame` | emkk/src/aml/path_system.rs:95-102 | leaves the frame and the path it made current; the frame below is not extended any more; unused slots stay zero |
| `Paths.EmptyReadsZero` | emkk/src/utils/stack.rs:66-72 | with no active path the top slot reads 0, while the current path is the root |
| `Scopes.Interpret` | emkk/src/aml/mod.rs:1560-1618 | after any tree of nested blocks the current path and all frames are as before, every id keeps its path, no two ids share one, and exactly the paths named in it were added; panics exactly when a path is too long or new without room for its text, or blocks are nested too deeply, and never at the end of a block |
| `Scopes.NamesOfABlock` | emkk/src/aml/mod.rs:1560-1618 | a block that is run through has its own path and the paths of the names in it: a relative name lies below the path of its block, an absolute one where it says |
| `Scopes.OwnersAreBeginnings` | emkk/src/aml/path_system.rs:209-291 | the walk through owners goes through ever shorter beginnings of the path |
| `Scopes.InsertedIsFollowed` | emkk/src/aml/path_system.rs:268-286 | on the walk an inserted path is followed by the path one segment shorter, if that was there, and by none if not |
| `Scopes.LookUp` | emkk/src/aml/mod.rs:712-772 | one walk, through scopes or through devices: ends for every start, with the value of the nearest that has one; panics exactly at a path without one before that |
| `Scopes.NearestIsFirst` | emkk/src/aml/mod.rs:712-741 | the answer of the walk is that of the first path in the chain of owners that has one, all before it having a scope without the name |
| `Scopes.UnwrapNameString` | emkk/src/aml/mod.rs:692-775 | the value found in the scopes, or else in the devices; a panic in all other cases |
| `Scopes.ScopesBeforeDevices` | emkk/src/aml/mod.rs:712-772 | the nearest scope with a value decides; a device is heard when every path of the chain has a scope and none of them a value |
| `Scopes.DeviceNeedsScopes` | emkk/src/aml/mod.rs:712-772 | a path without a scope makes the search panic whatever the devices have |
| `Nvme.LongListDescribes` | emkk/src/drivers/disk/nvme.rs:209-239 | a list of more than 512 entries describes the transfer if and only if their number is a multiple of 511, or what happens to lie behind the tables is right |
| `Nvme.NotByChance` | emkk/src/drivers/disk/nvme.rs:209-239 | an incomplete list is not right by chance where the page behind the tables holds zeros and is no part of the buffer |
| `Nvme.NvmeController.ConstructPrp` | emkk/src/drivers/disk/nvme.rs:185-261 | the controller finds every byte `k` of the transfer at the buffer address plus `k` if and only if the list fits one page or consists of full tables, or by chance; panics exactly when there is no room for the tables |
| `Nvme.NvmeController.Dispatch` | emkk/src/drivers/disk/nvme.rs:78-97 | one command per round, which describes its bytes under that same condition, and the allocator for lists ends as it began, word for word; panics exactly without tables or when the number of blocks does not fit 16 bits |
| `Nvme.OneTable` | emkk/src/drivers/disk/nvme.rs:241-256 | with a free frame in its range the allocator always serves a list of one page, from the range |
| `Nvme.ShortListsComplete` | emkk/src/drivers/disk/nvme.rs:185-261 | with at most 2 MiB to a command every list of a transfer is complete |
| `Nvme.TransferAll` | emkk/src/drivers/disk/nvme.rs:69-97 | the commands issued are those of the plan, each describing exactly the bytes of its part if its list is complete; panics exactly when one of the rounds does, after the commands before it |
| `Nvme.WriteFromBuffer` | emkk/src/drivers/disk/nvme.rs:44-99 | the errors in order, out of the disk exactly when the last byte of the buffer is; otherwise the planned writes, up to a panic: as few commands as the transfer limit allows, none beyond it by a sector, and, with complete lists in step, each byte of the buffer to its place on the disk exactly once, and nothing but the buffer rounded up to whole sectors is carried |
| `Nvme.ReadIntoBuffer` | emkk/src/drivers/disk/nvme.rs:101-154 | the errors in order, out of the disk exactly when the last byte of the buffer is; otherwise the planned reads, up to a panic: as few commands as the transfer limit allows, none beyond it by a sector, and, with complete lists in step, each byte of the buffer from its place on the disk exactly once, and nothing but the buffer rounded up to whole sectors is touched |
| `Nvme.EveryByteOnce` | emkk/src/drivers/disk/nvme.rs:44-154 | with complete lists every byte of the sector range is carried by exactly one command and PRP page, to or from the buffer address plus its offset, and no other byte is |
| `Nvme.InStepExactly` | emkk/src/drivers/disk/nvme.rs:69-97 | the commands keep disk and buffer in step if and only if one command is enough or the sector size divides the bulk size |
| `Ext2.InodeIsInPlace` | emkk/src/pfs/linux.rs:413-431 | sector and slot together make up byte index * 128 of the group's inode table, and the slot lies inside one block |
| `Ext2.InodesApart` | emkk/src/pfs/linux.rs:316-324 | different inodes of a group do not overlap |
| `Ext2.InodeIsRead` | emkk/src/pfs/linux.rs:413-438 | the read of the disk driver brings each byte of the record to its offset in the buffer, exactly once |
| `Slabs.NamesApart` | emkk/src/vfs/gfs/string_allocator.rs:58-73 | two slots never share a byte, across all three sizes |
| `Slabs.StringAllocator.NameIsAtOffset` | emkk/src/vfs/gfs/string_allocator.rs:101-145 | the bytes of a name begin at its offset, counted from the start of its table |
| `Slabs.SizeClass.Allocate` | emkk/src/vfs/gfs/string_allocator.rs:188-206 | stores in the lowest free slot, fails only when all are in use, and leaves every other slot alone |
| `Slabs.SizeClass.Read` | emkk/src/vfs/gfs/string_allocator.rs:129-145 | reads up to the first zero or the size of the slot |
| `Slabs.SizeClass.Rename` | emkk/src/vfs/gfs/string_allocator.rs:284-292 | the slot reads back the new name, with no remains of a longer old one; all others as before |
| `Slabs.SizeClass.Flip` | emkk/src/vfs/gfs/string_allocator.rs:275-278 | a slot in use becomes free, or a free one reads as what is left in it; all others as before |
| `Slabs.StringAllocator.Allocate` | emkk/src/vfs/gfs/string_allocator.rs:147-209 | adds one name at the lowest free offset for its length: a multiple of 8 below 32768 for up to 8 bytes, of 16 below 65536 for up to 16, of 32 below 81920 for up to 32; fails exactly when all of those are in use or the name is longer than 32 bytes, then with a panic if there is room |
| `Slabs.StringAllocator.AsString` | emkk/src/vfs/gfs/string_allocator.rs:101-145 | the name stored at an offset, or what the bytes there read as |
| `Slabs.FreedExactly` | emkk/src/vfs/gfs/string_allocator.rs:275-278 | freeing a name removes it and changes nothing else if and only if it is in the table for 8 bytes or in the first slot of its table |
| `Slabs.FreedInstead` | emkk/src/vfs/gfs/string_allocator.rs:275-278 | which offset is freed instead: one that lies behind the name by its distance from the start of the table, or three times that |
| `Slabs.StringAllocator.Rename` | emkk/src/vfs/gfs/string_allocator.rs:217-293 | every case: replaces a name in place, moves it to the table for the new length, or frees it, each with the bit that is really flipped; the results and panics, exactly |
| `Slabs.FullExactly` | emkk/src/vfs/gfs/string_allocator.rs:190-208 | no name of a length can be stored exactly when its table holds as many names as it has slots: 4096, 2048 or 512 |
| `SlabRuns.FreeSpoilsAnother` | emkk/src/vfs/gfs/string_allocator.rs:211-293 | after freeing the second of three names of 9 to 16 bytes and storing a fourth, the third reads as the fourth |
| `SlabRuns.PlayThenRead` | emkk/src/vfs/gfs/string_allocator.rs:101-293 | over any run of stores, replacements, and moves and frees of names of up to 8 bytes, every name reads back its own current value, and nothing is stored that is not one of them; the run goes through exactly when no change needs a slot in a table that holds 4096, 2048 or 512 names already, or more than 32 bytes |
| `Hashes.HashStr` | emkk/src/vfs/gfs/directory_hashmap.rs:230-239 | the hash over 64 bits, always a bucket number |
| `Hashes.HashDoubles` | emkk/src/vfs/gfs/directory_hashmap.rs:230-239 | with twice the buckets a name hashes to its old bucket or to the one that many further on |
| `Hashes.ShortNameMoves` | emkk/src/vfs/gfs/directory_hashmap.rs:125-239 | the name "a" hashes to different buckets of 640 and of 1280 |
| `Placements.FitsExactly` | emkk/src/vfs/gfs/directory_hashmap.rs:256-281 | placing the slots one by one, with buckets that double from 4 to 16, succeeds exactly when no more than 16 go to one bucket and there are blocks enough for the growing |
| `Placements.ManyAlikeNeverFit` | emkk/src/vfs/gfs/directory_hashmap.rs:264-279 | it never succeeds when more than 16 slots read the same, in use or not |
| `Placements.LookedUpAfter` | emkk/src/vfs/gfs/directory_hashmap.rs:256-445 | after a rehash a lookup meets the first slot, in use or not, that reads as the name, if the name hashes as before, and nothing if it does not |
| `Directories.FoundAfterRehash` | emkk/src/vfs/gfs/directory_hashmap.rs:256-445 | a stored name is found after the rehash if and only if its hash is the same over twice the buckets; with its own link unless a slot out of use reads as it too |
| `Directories.FreeSlotsPreventRehash` | emkk/src/vfs/gfs/directory_hashmap.rs:264-279 | with more than 16 slots of zeroed memory that are not in use no rehash succeeds |
| `Directories.DirectoryHashmap.Lookup` | emkk/src/vfs/gfs/directory_hashmap.rs:434-444 | exactly what a plain map has, as long as there was no rehash, and after one the first entry in use of the name's bucket that reads as it |
| `Directories.Grown` | emkk/src/vfs/gfs/directory_hashmap.rs:80-96 | a bucket that moves to a larger block keeps its names and links |
| `Directories.Appended` | emkk/src/vfs/gfs/directory_hashmap.rs:20-29 | an entry appended to the bucket of its name keeps the bucket in agreement with the plain map |
| `Directories.DirectoryHashmap.InsertPlain` | emkk/src/vfs/gfs/directory_hashmap.rs:376-433 | insertion while the bucket has room or can grow: which outcome when, exactly; the plain map gains the name on success and is unchanged otherwise, also when a bucket grew; which bucket grows, and that the count of entries stays the room of all buckets together |
| `Directories.DirectoryHashmap.RehashBucket` | emkk/src/vfs/gfs/directory_hashmap.rs:256-281 | every slot of a bucket, in use or not, goes to the end of the new bucket its text hashes to over the old number; ends where placing them does |
| `Directories.DirectoryHashmap.Rehash` | emkk/src/vfs/gfs/directory_hashmap.rs:283-374 | twice as many buckets, each with exactly the slots sent to it, in their order; the old ones stay when there is no room; which outcome and when it panics, exactly; what it does to the count of entries |
| `Directories.DirectoryHashmap.InsertRehashing` | emkk/src/vfs/gfs/directory_hashmap.rs:376-433 | insertion into a bucket of 16: each outcome of the rehash, and after one the bucket of the new number is enlarged and gets the name, unless a slot there reads as it; a stored name whose hash has changed is inserted again |
| `Directories.DirectoryHashmap.ForEach` | emkk/src/vfs/gfs/directory_hashmap.rs:241-254 | visits each name exactly once, with its link |
| `DirectoryRuns.FirstWinsIsFirst` | emkk/src/vfs/gfs/directory_hashmap.rs:376-433 | after any run the link of a name is that of its first insertion |
| `DirectoryRuns.InsertThenLookup` | emkk/src/vfs/gfs/directory_hashmap.rs:376-444 | the buckets do what the plain map says over any run of insertions; it goes through exactly when none of them meets 16 names with its hash, is new and longer than 32 bytes, or is new while the table for its length holds 4096, 2048 or 512 names |

## Left out

- Allocators.Allocator.Alloc: without the guard, a request for more than 32 pages requires a place for it in the range; otherwise the search reads words behind the bitmap, which are not part of the model.
- Allocators.Allocator.Free: requires that what is not rejected lies within the bitmap; the code reads and writes behind it otherwise.
- Pagers.Pager.Page4Kb: with an allocator that has no guard, the tables that are missing must not outnumber its free frames, because the allocator then hands out frames from behind its range; so for every operation of a pager.
- Mapping.MapEfficient: a virtual address half-way between two 2 MiB boundaries, and a middle with 2 MiB pages in it already, whose effect is stated for one page in `Pagers.Pager.Page2Mb` and `Mapping.HalfwayIsOff`.
- Mapping.Map: regions of more than 2^36 pages, which would overlap themselves; so for `map_efficient` and the handler of page requests.
- Releasing.Release: requires the frame of a 2 MiB page with the "table allocated" bit to be in the allocator's range, or above the limit of `free`.
- CrossCore.KernelIpiDst: requests to start an application, whose branch of the handler does not come back.
- Nvme.NvmeController.ConstructPrp: what the entry that is written behind the tables of a long list overwrites there, and an allocator that would serve the tables from behind its range.
- Directories.DirectoryHashmap.InsertPlain: blocks of entries come from a supply with any content, in place of `NodeAllocator`, and a bucket's slice of the entry table is a sequence of its own; `insert` is split by its first test into this and `InsertRehashing`.
- Directories.DirectoryHashmap.InsertRehashing: requires that every slot holds an offset at which a name may begin, as zeroed memory and old entries do, and that the count of entries is at least four to a bucket; below that, which only a failed rehash brings about, the new buckets lie outside of the block that is allocated for them.
- Directories.DirectoryHashmap.Rehash: requires the same.
- Slabs.StringAllocator.Allocate: `NodeAllocator`, which stores names above 32 bytes, is a parameter that says whether it has room.
- Names.NameSystem.Add: requires room for one more entry, and for one more bucket if a new one is needed; the code does not check the two tables and writes behind them when they are full. The runs in `NameRuns` stop there.
- Names.NameSystem.AllocateNewEntry: requires that room for the same reason.
- Names.NameSystem.AttachReferenceBucket: requires room for one bucket for the same reason.
- Names.NameSystem.NewSystem: requires room in the tables of systems and of buckets, which the code does not check either.
- Names.NameSystem.Get: values are of an arbitrary type; `get_mut`, which differs by returning a place, is not modelled apart.
- Scopes.Interpret: machine code is a tree of blocks; reading bytes, package lengths and opcodes is not modelled.
- Mailboxes.RunInv: requests to start an application, as in `CrossCore.KernelIpiDst`.
- The constructor of `Allocator` from the firmware's memory map, `expand`, and the handing out of page ranges to sub-allocators.
- Mapping.MapEfficient: for a whole block, what the directory entries above its small pages allow, which is stated for each page in `Pagers.Pager.Page4Kb`; so for `map` and the handler of page requests.
- Merging.BindOther: what the entries above the pages that are taken over allow, which is stated for each page in `Pagers.Pager.Page4Kb`.
- Permissions in the hardware walk beyond presence, write and user rights: execute rights, accessed bits, caching.
- Invalidation of cached translations, and the order in which other cores see writes to memory.
- Physical addresses of 2^52 and above, and 64-bit overflow of virtual addresses and byte counts; 32-bit overflow in the products of the ext2 lookup.
- `unpage_4k`, and the 2 MiB cases of `activate`, `deactivate`, `switch_permission` and `is_active`, which rewrite an entry with the flags of the top-level one.
- `NodeAllocator` list editing, `MarkTable`, NVMe queues and interrupts, and the drivers for other devices.
