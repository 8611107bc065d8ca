# A verified model of kernel data structures

This Dafny project models the cores of a small 32-bit kernel and proves what they keep: its
string search, its slab allocator, its ext2 driver, its pipes, and the lists, trees, queues and
paths around them.  Each module carries the name of the part it models; code that changes state
step by step is a method (on a class where the source has an object) proved against a
specification function or predicate, and the properties of that specification are lemmas.

- **String search** (`Bytes`, `Words`, `CString`, `CriticalFactorization`, `MaximalSuffix`, `StrStr`).
  The specification is the naive first occurrence (section 7.24.5.7 of ISO C11).  The proof goes
  through the critical factorization theorem: the two loops compute maximal suffixes, the shorter of
  which begins at a critical position, and every shift of the search loop, also the one that combines
  the table with the remembered prefix, passes over no occurrence.
- **Allocator** (`SkipSpec`, `SkipList`, `HeapSpec`, `HeapSmall`, `HeapBig`, `HeapKept`, `BinSize`,
  `Kmalloc`, `HeapRuns`).  Memory is a flat map of words, so headers, free stacks and skip-list
  links live where the source keeps them, between the blocks of the users.  The invariant of the heap
  (`HeapSpec.HeapOk`) says that the skip list is well linked on each level, that stacks and page lists
  are what they should be, and that blocks and free cells partition the pages.  `HeapRuns` shows that a
  client of any run sees private blocks.
- **ext2** (`Ext2Bytes`, `Ext2Device`, `Ext2Disk`, `Ext2Map`, `Ext2Files`, `Ext2Layout`, `Ext2Frames`, `Ext2Steps`,
  `Ext2Space`, `Ext2Growth`, `Ext2Splice`, `Ext2Write`, `Ext2Content`, `Ext2`, `Ext2Plan`, `Ext2Runs`,
  `Ext2Small`, `Ext2Cache`).
  The disk is a map from block numbers to bytes; every counter, bitmap, table and inode is read and
  written in these bytes.  A ghost map says what each block is for, which gives the separation of
  metadata, tables and data that all frame arguments rest on.  `Ext2Runs` shows that whole runs act on
  independent files, `Ext2Layout` where on the device every byte is, and the block cache is proved to refine
  the bare device over whole runs.
- **Pipe** (`Pipe`, `PipeConservation`, `PipeChecks`, `PipeRaces`, `PipeSafety`, `PipeCalls`).  A state
  machine whose steps are single loads and stores of any number of readers and writers.
- **Structures**: `LinkedList`, `SleepQueue`, `TreeSpec` and `ProcessTree`, `Paths` and `PathLaws`,
  `MountSpec` and `MountTree`, `Throttle`, `Decimal`, `MemMove`.

Run `dafny verify dfyconfig.toml` to check the project.

## Properties that fail, and when they hold

- The pipe does not conserve bytes.  `pipe_unread` may see the write index equal to the size, between
  its increment and its wrap, and then a reader at index 0 collects bytes never written;
  `pipe_available` loads the read index twice, and a wrap in between makes its result underflow, so a
  writer overwrites what nobody has read.  `PipeConservation.ConservedIffNoBadStep` says exactly which
  steps break the property, `PipeChecks.ConservedWithoutRacyChecks` that these two loads are the only
  causes, and `PipeRaces` gives the runs, for every size above one.  It is safe with only readers or
  only writers (`PipeSafety.SafeIffOneSided`, an equivalence), and for calls that do not overlap
  (`PipeSafety.SerialIsConserved`).
- A write beyond the end of a file after opening it with truncation does not extend it with zeros: the
  blocks were kept, and old bytes come back (`Ext2Content.WriteZeroExtends`,
  `Ext2Content.TruncationIsDirty`, `Ext2Content.OldBytesReturn`, each an equivalence, and
  `Ext2Small.OldByteReturns`, a run).
- `ext2_read` computes a wrong length for an offset beyond the end of the file and when offset plus size
  wraps (`Ext2Content.ReadLengthIsRight`, an equivalence; `Ext2Content.ReadLengthWraps`).
- `allocate_inode_block` does not look at the result of `set_block_number`; without space for a table it
  counts a block that is not mapped (`Ext2.Driver.AllocateInodeBlock`).  So a write without as many free
  blocks as it takes new blocks and missing tables (`Ext2Space.Space`) ends in one of two ways.  If the
  free blocks suffice for more than the blocks before the last one, the loop of `inode_write_block` ends
  with the last block counted and unmapped, and the source then takes its number from a buffer it has
  not filled; otherwise the loop makes no more progress and never ends.  `Ext2.Driver.GrowTo` and
  `Ext2.Driver.InodeWriteBlock` say so by equivalences, `Ext2Small.OutOfSpace` has a device for each.
- Byte offsets on the device have 32 bits: blocks are distinct exactly if the device ends within 2^32
  bytes (`Ext2Device.DistinctIffAddressable`), which is part of the geometry everywhere.
- The victim of the cache is a least recently used entry exactly if no other entry was used in an earlier
  round of the 32-bit clock (`Ext2Cache.OldestIsLeastRecent`).  That is so in every state up to the
  first wrap, with one entry always, and with two also at the end of each round; at every other time a run gets the
  cache into a state in which it is not (`Ext2Cache.LeastRecentUntilWrap`, `Ext2Cache.RunOver`).
- There is an entry to replace in every state but at the end of a round of the clock, when it has gone
  around at least once for each entry; at all those times a run gets the cache into a state in which there
  is none (`Ext2Cache.RoomUntilRoundsUp`, `Ext2Cache.RunDry`).
- `canonicalize_path` does not resolve dots of the working directory: the result has none exactly if the
  part of the directory that the input leaves in place has none (`Paths.CanonicalIsClean`,
  `Paths.DotsInCwdStay`).
- `print_dec` prints a leading zero for values above 1410065407 at any width, because ten nines are
  that number modulo 2^32 (`Decimal.WidthIsEnough`, `Decimal.PrintDec`); the value printed is right all the same.
- Deleting a node of the skip list that is not the first of its size changes nothing
  (`SkipList.Delete`); the allocator deletes only what `findbest` returns, which is
  the first of its size (`Kmalloc.BestFit`).

## Model

| member | source | states |
|---|---|---|
| StrStr.StrStr | src/libc/libc.cpp:375-394 | for every haystack and needle, the search returns the first occurrence: the smallest position at which the needle matches, or nothing if there is none |
| StrStr.FirstOccurrenceUnique | src/libc/libc.cpp:375-394 | the first occurrence is unique, so the contract of the search fixes its result |
| StrStr.TwoWay | src/libc/libc.cpp:235-373 | the Two-Way loop with its shift table, remembered prefix and incremental end pointer returns the first occurrence |
| StrStr.StrStr2 | src/libc/libc.cpp:214-219 | the 2-byte rolling window finds the first occurrence |
| StrStr.StrStr3 | src/libc/libc.cpp:221-226 | the 3-byte rolling window, shifted left by a byte, finds the first occurrence |
| StrStr.StrStr4 | src/libc/libc.cpp:228-233 | the 4-byte rolling window finds the first occurrence |
| StrStr.SameWord4 | src/libc/libc.cpp:228-233 | two windows are equal as numbers exactly if they are equal byte by byte |
| StrStr.Scan | src/libc/libc.cpp:242-250 | the scan gives the length of the needle or finds the haystack too short, and the table says for every byte how far its last place is from the end |
| StrStr.ChooseCut | src/libc/libc.cpp:252-309 | the longer left part of the two maximal suffixes is a critical factorization, and `p` is the smallest period of the right part |
| StrStr.Factorize | src/libc/libc.cpp:311-319 | the comparison of the left part decides whether the period is that of the whole needle; either way the shift skips no match |
| StrStr.Compare | src/libc/libc.cpp:358-371 | comparing the right half and then the left half either finds the needle or gives a shift that passes over no occurrence and a prefix known to match after it |
| StrStr.SkipByTable | src/libc/libc.cpp:342-356 | the shift by the last byte, also when it is raised to `l - p`, passes over no occurrence |
| StrStr.SkipWithMemory | src/libc/libc.cpp:346-346 | with a remembered prefix and a mismatched last byte no occurrence begins within `l - p` |
| StrStr.SkipPastMismatch | src/libc/libc.cpp:358-364 | after a mismatch at `k` of the right half no occurrence begins at a distance less than `k - ms` |
| StrStr.SkipPeriod | src/libc/libc.cpp:365-371 | after a mismatch in the left half no occurrence begins within the period |
| StrStr.UnborderedShift | src/libc/libc.cpp:311-315 | without a common period every period of the needle is longer than both halves |
| StrStr.PeriodicShift | src/libc/libc.cpp:316-318 | otherwise the period of the right half is the smallest one of the needle |
| MaximalSuffix.FindMaximalSuffix | src/libc/libc.cpp:252-303 | the loop finds the maximal suffix under the byte order or its reverse, and that suffix has `p` as its smallest period |
| MaximalSuffix.ScanComplete | src/libc/libc.cpp:257-276 | at the end of the loop no suffix beats the one found, and no smaller period fits it |
| MaximalSuffix.StepEqual | src/libc/libc.cpp:258-266 | an equal byte extends the candidate or completes a period |
| MaximalSuffix.StepSmaller | src/libc/libc.cpp:267-271 | a smaller byte makes the whole stretch the period |
| MaximalSuffix.StepLarger | src/libc/libc.cpp:272-275 | a larger byte makes the candidate win over every earlier start |
| CriticalFactorization.ShorterMaximalSuffixIsCritical | src/libc/libc.cpp:304-309 | the shorter of the maximal suffixes under an order and its reverse begins at a critical position |
| CriticalFactorization.RepetitionExceedsLeft | src/libc/libc.cpp:304-309 | no repetition around the start of a maximal suffix fits into the left part |
| CriticalFactorization.PeriodsOfUnbordered | src/libc/libc.cpp:311-315 | if the period of the right part is not one of the whole string, every period of the string is longer than either part |
| CString.MemChr | src/libc/libc.cpp:27-38 | `memchr` returns the first place of the byte among `n`, reading word by word, and nothing exactly if it does not occur |
| CString.StrLen | src/libc/libc.cpp:102-111 | `strlen` stops at the first NUL byte, reading word by word |
| CString.StrChrNul | src/libc/libc.cpp:170-186 | `strchrnul` stops at the first place of the byte or at the terminator, for the NUL byte at the terminator |
| CString.StrChr | src/libc/libc.cpp:188-191 | `strchr` returns the first place of a byte in a string, the terminator for the NUL byte, or nothing |
| CString.MemCmp | src/libc/libc.cpp:20-25 | `memcmp` is zero exactly if all bytes agree, and otherwise the difference of the first two that differ, behind which nothing is read |
| CString.WordContains | src/libc/libc.cpp:34-34 | the bit trick on a word xored with the mask is true exactly if one of its four bytes is the one looked for |
| Words.HasZeroIffContains | src/libc/libc.cpp:34-34 | on the bits of a word: the test for a zero byte after the xor is exact in every lane |
| MemMove.MemMove | src/libc/libc.cpp:49-91 | `memmove` leaves in every byte of the destination the original byte of the source and changes no other byte, for all overlaps, lengths and alignments |
| MemMove.MoveDown | src/libc/libc.cpp:59-71 | the upward loops (aligned prefix, words, tail) do so for a destination below the source |
| MemMove.MoveUp | src/libc/libc.cpp:72-88 | the downward loops do so for a destination above the source |
| MemMove.MemCpy | src/libc/libc.cpp:12-17 | `memcpy` copies exactly when the source is not below an overlapping destination |
| MemMove.PieceAbove | src/libc/libc.cpp:60-70 | a further piece above a stretch already moved reads bytes that are still the original ones |
| MemMove.PieceBelow | src/libc/libc.cpp:73-87 | the same for a piece below |
| Decimal.PrintDec | src/libc/kprintf.cpp:4-29 | `print_dec` writes digits that denote the value, at least `width` of them, touches nothing else, and the first is a zero exactly for the value 0, for values above 1410065407, and for values with fewer digits than `width` |
| Decimal.Width | src/libc/kprintf.cpp:5-11 | the width loop ends at the first all-nines number modulo 2^32 that is not below the value |
| Decimal.WidthIsEnough | src/libc/kprintf.cpp:5-11 | the width it finds is always enough for the value, and has no spare digit exactly up to 1410065407 |
| Decimal.NinesTable | src/libc/kprintf.cpp:7-11 | ten nines are 1410065407 modulo 2^32, and 32 nines are 2^32 - 1, so the loop ends |
| Decimal.WriteDigits | src/libc/kprintf.cpp:20-28 | the digit loop writes the value from the last digit to the first |
| Decimal.Atoi | src/libc/libc.cpp:414-433 | `atoi` reads a sign and a run of digits behind white space as the number they denote, up to INT_MAX, or its negative down to INT_MIN |
| Decimal.Characters | src/libc/libc.cpp:396-433 | it skips exactly tab to carriage return and blank, and reads exactly `0` to `9`, each as its value |
| Decimal.PrintAndRead | src/libc/libc.cpp:414-433 | `atoi` of what `print_dec` has printed is the value again, for every value up to INT_MAX and every width |
| Decimal.LeadingDigit | src/libc/kprintf.cpp:4-29 | a digit string begins with a nonzero digit exactly if it denotes at least the power of its length less one |
| Pipe.MutualExclusion | src/task/spin.cpp:21-48 | in every run of any number of threads, at most one thread is inside for the read lock and at most one for the write lock |
| Pipe.ExclusivePreserved | src/task/spin.cpp:21-48 | each single load or store keeps this |
| PipeConservation.ConservedIffNoBadStep | src/modules/fs/pipe.cpp:24-115 | bytes collected followed by bytes in the ring are the bytes written, after every step of a run, exactly if no reader copied with nothing left and no writer stored an index that laps the reader |
| PipeConservation.GoodPreserved | src/modules/fs/pipe.cpp:51-115 | every other step keeps the invariant that ties both indices, the laps around the ring and the buffer to the bytes written |
| PipeConservation.BadStepBreaks | src/modules/fs/pipe.cpp:51-59 | each such step does break the conservation |
| PipeChecks.ConservedWithoutRacyChecks | src/modules/fs/pipe.cpp:24-45 | conservation holds in every run in which no thread reads an index of the other side in one of two windows: between its increment and its wrap, or across a wrap within one check |
| PipeChecks.UnreadIsSound | src/modules/fs/pipe.cpp:24-31 | outside the first window a positive `pipe_unread` means there is a byte |
| PipeChecks.AvailableIsSound | src/modules/fs/pipe.cpp:37-45 | outside the second window a positive `pipe_available` means there is room |
| PipeRaces.StaleRun | src/modules/fs/pipe.cpp:24-59 | for every size above 1 there is a run in which a reader that sees the write index equal to the size collects a byte never written |
| PipeRaces.TornRun | src/modules/fs/pipe.cpp:37-59 | for every size above 1 there is a run in which a writer that loads the read index before and after its wrap overwrites a ring of bytes nobody has read; the load is a racy check in the sense above |
| PipeSafety.SafeIffOneSided | src/modules/fs/pipe.cpp:24-115 | for every list of threads: all runs conserve bytes exactly if the size is 1, or nobody reads, or nobody writes |
| PipeSafety.OnlySizeOneIsSafe | src/modules/fs/pipe.cpp:24-115 | so all runs of all threads do exactly for pipes of size 1 |
| PipeSafety.SerialIsConserved | src/modules/fs/pipe.cpp:51-115 | calls that do not overlap conserve every byte, in runs of any number of threads |
| PipeCalls.CallsReturn | src/modules/fs/pipe.cpp:64-115 | in every run of any threads: a `write_pipe` that has returned has published exactly the bytes it was given, in their order, and a `read_pipe` that has returned has collected at least one byte and at most as many as it asked for |
| PipeCalls.PublishedInOrder | src/modules/fs/pipe.cpp:94-115 | at every moment of a call the bytes published are the first ones it was given |
| PipeCalls.SerialWrites | src/modules/fs/pipe.cpp:64-115 | when calls that do not overlap have all returned, the bytes written are the data of the calls one after the other, and the bytes collected the first of them |
| PipeCalls.ChecksAreExact | src/modules/fs/pipe.cpp:24-45 | when nobody moves an index, `pipe_unread` answers how many bytes are in the ring and `pipe_available` how many more fit, one less than the size in all |
| PipeSafety.StaleRunAmong | src/modules/fs/pipe.cpp:24-59 | among any threads, a reader and a writer are enough for a run that does not |
| PipeRaces.StuckRun | src/modules/fs/pipe.cpp:37-45 | a pipe of size 1 never carries a byte |
| SkipList.FindBest | src/memory/alloc.cpp:338-360 | the search on any number of levels returns the first node on level 0 that is large enough, or null |
| SkipList.Insert | src/memory/alloc.cpp:365-434 | insertion at any drawn level gives the well-linked list, on all levels, with the node before all nodes of its size, and writes no other word |
| SkipList.Delete | src/memory/alloc.cpp:440-499 | deletion of the first node of its size gives the well-linked list without it on every level, with the level lowered to the highest in use; for another node of equal size the list is left as it was |
| SkipList.Search | src/memory/alloc.cpp:393-401 | on every level the search leaves the last node before the place of the size |
| SkipList.UnlinkAll | src/memory/alloc.cpp:485-494 | the loop over the levels removes the node from exactly the levels it is on, or from none if it is not the first of its size |
| SkipList.LowerLevel | src/memory/alloc.cpp:496-498 | the highest level in use again has a node |
| SkipList.RaiseLevel | src/memory/alloc.cpp:407-416 | a node above the levels in use hangs on the head there |
| SkipSpec.LinkLevel | src/memory/alloc.cpp:427-432 | linking a node on one level gives the well-linked level of the longer list |
| SkipSpec.UnlinkLevel | src/memory/alloc.cpp:485-494 | unlinking gives that of the shorter list |
| SkipSpec.LevelsNest | src/memory/alloc.cpp:299-334 | each level is the part of the level below it whose nodes reach higher, so a subsequence |
| SkipSpec.LevelEmpty | src/memory/alloc.cpp:496-498 | a level above all nodes is empty |
| HeapRuns.RunAll | src/memory/alloc.cpp:567-949 | over every run of malloc, valloc, realloc, free and stores of a client that names only blocks it holds: the client holds exactly the live blocks, with the sizes asked for and every word it stored, moved along by realloc, and no two overlap |
| HeapRuns.Serve | src/memory/alloc.cpp:567-949 | each request refines the same request on a collection of private blocks |
| Kmalloc.Heap.Malloc | src/memory/alloc.cpp:567-718 | a block not in use, of a cell of the smallest bin that fits or of a smallest free big bin that fits; the heap grows, by exactly what is needed, only if there is none; the contents of all blocks are kept |
| Kmalloc.Heap.Free | src/memory/alloc.cpp:723-857 | exactly this block is given back, whatever its kind, and all others keep their contents |
| Kmalloc.Heap.Valloc | src/memory/alloc.cpp:861-872 | a block that begins on a page boundary, with room for the size |
| Kmalloc.Heap.Realloc | src/memory/alloc.cpp:875-949 | a block of the new size in which every word of the old one is found again; no other block changes |
| Kmalloc.MaskFindsHeader | src/memory/alloc.cpp:892-896 | the mask of `realloc` finds the header of a block exactly if the block is not page-aligned; of one from `valloc` it finds the user's own first word |
| Kmalloc.Heap.UserStore | src/memory/alloc.cpp:567-718 | a store of a user into its block harms neither the allocator nor another block |
| Kmalloc.Heap.TakeCell | src/memory/alloc.cpp:627-631 | the topmost cell is taken, and a page whose last cell it was leaves its list |
| Kmalloc.Heap.NewPage | src/memory/alloc.cpp:586-626 | a new page has all its cells on its stack and comes first on its list |
| Kmalloc.Heap.TakeBin | src/memory/alloc.cpp:638-647 | a bin found by the search leaves the skip list and is busy |
| Kmalloc.Heap.NewBin | src/memory/alloc.cpp:692-717 | a bin at the break, rounded up to pages with its header |
| Kmalloc.Heap.FreeCell | src/memory/alloc.cpp:845-857 | a cell goes on top of the stack, and a page that was full comes back to its list |
| Kmalloc.Heap.FreeBin | src/memory/alloc.cpp:757-844 | a bin goes back to the skip list |
| Kmalloc.Heap.Sbrk | src/memory/mem.cpp:402-412 | fresh zeroed pages at the break |
| Kmalloc.Heap.constructor | src/memory/mem.cpp:398-400 | the heap begins empty at a page boundary |
| Kmalloc.BlocksAreApart | src/memory/alloc.cpp:567-949 | at every moment two live blocks are disjoint |
| Kmalloc.BlockIsInside | src/memory/alloc.cpp:567-949 | a live block lies in its own page or pages below the break and overlaps no header |
| Kmalloc.CellsAreConserved | src/memory/alloc.cpp:586-631 | every cell of a page is free or live and never both |
| Kmalloc.ListedIfRoom | src/memory/alloc.cpp:627-631 | a page is on the list of its bucket exactly if its free stack is not empty |
| Kmalloc.BestFit | src/memory/alloc.cpp:637-643 | the bin the search finds is a smallest one that fits, the first of its size, and there is one whenever any free bin fits |
| HeapSpec.LiveBlocksDisjoint | src/memory/alloc.cpp:567-949 | even the spare room behind a block ends before the next one |
| HeapSpec.LiveBlocksAvoidHeaders | src/memory/alloc.cpp:210-234 | no block, with its spare room, overlaps the header of any page or bin |
| HeapSpec.CellsApart | src/memory/alloc.cpp:610-625 | cells of one page do not overlap |
| HeapSmall.PopCell | src/memory/alloc.cpp:510-531 | popping keeps the stack threaded through the remaining cells |
| HeapSmall.PushCell | src/memory/alloc.cpp:540-551 | pushing keeps the stack threaded through the cells |
| HeapSmall.PageIsCut | src/memory/alloc.cpp:610-625 | a page of 4096 bytes is cut into as many cells as fit behind a header of 16 bytes |
| HeapSmall.BucketAdd | src/memory/alloc.cpp:276-279 | a page put in front keeps the list the pages with room, each once |
| HeapSmall.BucketDrop | src/memory/alloc.cpp:263-267 | decoupling the first page keeps this |
| HeapBig.TakeBig | src/memory/alloc.cpp:638-647 | taking a bin from the skip list keeps the invariant of the whole heap |
| HeapBig.GiveBig | src/memory/alloc.cpp:838-843 | giving one back keeps it |
| HeapKept.StoreInBlock | src/memory/alloc.cpp:567-949 | no store inside a live block breaks the invariant of the heap |
| BinSize.BinIsSmallestFit | src/memory/alloc.cpp:187-206 | the bin size is the smallest whose cells hold the request, and the big bin exactly if none does |
| BinSize.CellsArePowers | src/memory/alloc.cpp:187-206 | cells are powers of two from 4 to 2048, larger requests go to big bins, and a cell is less than twice its request, or of 4 bytes |
| BinSize.PowerOfTwoTest | src/memory/alloc.cpp:202-206 | `size & (size - 1)` is zero exactly for powers of two |
| Ext2Runs.RunAll | src/modules/fs/ext2.cpp:399-448 | over every run of writes, truncations and reads of several files that the device has space for: each read answers exactly the slice of the file as the operations before it have made it, and at the end every file, every byte of it and also the bytes behind its end, is what they have made; nothing is refused as long as files keep to lengths for which the free blocks suffice and reads begin inside the file |
| Ext2Runs.Serve | src/modules/fs/ext2.cpp:399-448 | each operation refines the same operation on a collection of independent files |
| Ext2Layout.FileByteOnDevice | src/modules/fs/ext2.cpp:409-448 | byte x of a file is byte x % size of the block whose number is entered for block x / size, and there are bytes up to the sector count of the inode |
| Ext2Layout.InodeFields | src/modules/fs/ext2.h:136-155 | the size is in bytes 4 to 7 of an inode, the sectors in bytes 28 to 31, the block numbers in bytes 40 to 99, lowest byte first |
| Ext2Layout.GroupFields | src/modules/fs/ext2.h:118-127 | where a group descriptor has the block of its bitmap, the block of its inode table and its free count |
| Ext2Layout.SuperOnDevice | src/modules/fs/ext2.cpp:741-744 | the superblock is at byte 1024 of the device for every block size, and bytes 12 to 15 of it count the free blocks of all groups |
| Ext2Layout.TableOnDevice | src/modules/fs/ext2.cpp:1080-1081 | the descriptors lie on the device one after the other |
| Ext2Layout.BlockPlace | src/modules/fs/ext2.cpp:1062-1066 | group and bit of a block are quotient and remainder of its number by the size of a group |
| Ext2Layout.BitBytes | src/modules/fs/ext2.cpp:1061-1076 | bit n of a bitmap is bit n % 8, from the lowest one, of byte n / 8 |
| Ext2Layout.WordBytes | src/modules/fs/ext2.h:136-155 | words and half words are stored lowest byte first |
| Ext2Small.SmallFiles | src/modules/fs/ext2.cpp:399-448 | a device with any small number of free blocks and one empty file meets all that the driver asks for |
| Ext2Small.RunSmall | src/modules/fs/ext2.cpp:399-448 | any run on it answers as on a file in memory, up to the first operation that exceeds the capacity of the device or reads from behind the end of the file |
| Ext2Small.OldByteReturns | src/modules/fs/ext2.cpp:94-102 | after a write, a truncation and a write at offset 1, a read answers the byte from before the truncation |
| Ext2Small.WriteSmall | src/modules/fs/ext2.cpp:1116-1133 | how the write of any block to the empty file goes, by the number of free blocks |
| Ext2Small.OutOfSpace | src/modules/fs/ext2.cpp:1116-1133 | a full device on which the write never ends, and one on which the thirteenth block is counted but not mapped |
| Ext2Runs.OtherFileIs | src/modules/fs/ext2.cpp:543-587 | an operation on one file leaves size and bytes of every other as they are |
| Ext2.Driver.AllocateBlock | src/modules/fs/ext2.cpp:1053-1091 | null exactly if no block is free; otherwise the block of the first clear bit, whose bit is number block modulo group size in the bitmap of group block divided by group size, all bits before it in that group and all bits of the groups before being set; it was nobody's, is zeroed, its bit is set, and all counters are one less in memory and on the device |
| Ext2.Driver.AllocateAll | src/modules/fs/ext2.cpp:1053-1091 | over any run of allocations no block is handed out twice, there are exactly as many as were free, and nothing else changes |
| Ext2.Driver.FindFree | src/modules/fs/ext2.cpp:1059-1068 | the scan finds the first clear bit of the first group that has one, exactly if a counter says there is one, and stays inside the group |
| Ext2Disk.Allocated | src/modules/fs/ext2.cpp:1076-1087 | an allocation keeps every group count equal to the clear bits of its bitmap and the superblock count equal to their sum |
| Ext2Disk.ExactlyOneBit | src/modules/fs/ext2.cpp:1076-1077 | exactly the bit of the block changes, in all bitmaps |
| Ext2Disk.ScanEnds | src/modules/fs/ext2.cpp:1060-1064 | a positive count means there is a clear bit below the end of the group |
| Ext2Disk.SumIsZero | src/modules/fs/ext2.cpp:1059-1074 | the sum of the counts is zero exactly if every group is full |
| Ext2Disk.StoresAreStep | src/modules/fs/ext2.cpp:1076-1087 | the four stores to bitmap, descriptors, superblock and block amount to one allocation |
| Ext2Bytes.BitStored | src/modules/fs/ext2.cpp:1076-1076 | setting a bit in a bitmap of bytes sets this one and no other |
| Ext2Bytes.ClearAfterSet | src/modules/fs/ext2.cpp:1076-1076 | the number of clear bits goes down by one if the bit was clear |
| Ext2.Driver.GetBlockNumber | src/modules/fs/ext2.cpp:809-864 | word 10 + i of the inode for a direct block i; behind them word i - 12 of the table named by word 22; behind that range, with b blocks into it, word b % p of the table named by word b / p of the table named by word 23 |
| Ext2.Driver.SetBlockNumber | src/modules/fs/ext2.cpp:874-980 | enters the number in exactly that word and leaves every other index as it was; it fails exactly if the device cannot provide the missing tables, and then the map is unchanged |
| Ext2.Driver.SetInTable | src/modules/fs/ext2.cpp:884-897 | the single range: the number is word i - 12 of the table named by word 22 |
| Ext2.Driver.SetInRow | src/modules/fs/ext2.cpp:900-928 | the double range: the number is in word b % p of the table named by word b / p of the table named by word 23 |
| Ext2Layout.EntryPlace | src/modules/fs/ext2.cpp:809-864 | once its tables are there, block i has its number in one of these three places |
| Ext2Growth.SetThenGet | src/modules/fs/ext2.cpp:809-980 | after a successful set, a get at the index returns the number, and at every other index what it returned before |
| Ext2Map.SlotsDiffer | src/modules/fs/ext2.cpp:816-838 | different indices use different entries of different or the same tables |
| Ext2Map.SetDirect | src/modules/fs/ext2.cpp:880-882 | a direct entry changes no other |
| Ext2Map.SetInSingle | src/modules/fs/ext2.cpp:890-897 | an entry of the single table changes no other, since all tables are distinct blocks |
| Ext2Map.SetInDouble | src/modules/fs/ext2.cpp:921-928 | an entry of an inner table changes no other |
| Ext2Map.AttachInner | src/modules/fs/ext2.cpp:914-919 | a fresh inner table is all zero and maps nothing new |
| Ext2Map.AttachSingle | src/modules/fs/ext2.cpp:884-889 | nor does a fresh single table |
| Ext2Map.AttachDouble | src/modules/fs/ext2.cpp:904-909 | nor does a fresh double table |
| Ext2.Driver.NeedTable | src/modules/fs/ext2.cpp:884-909 | a top-level table is there or is allocated, or the device is full |
| Ext2.Driver.NeedRow | src/modules/fs/ext2.cpp:911-922 | the same for an inner table |
| Ext2.Driver.AllocateInodeBlock | src/modules/fs/ext2.cpp:789-800 | it fails, changing nothing, exactly if no block is free; with enough space the file grows by exactly one zeroed block; with a block left but none for the tables the count grows and nothing is mapped |
| Ext2.Driver.GrowTo | src/modules/fs/ext2.cpp:1122-1126 | the loop has enough exactly if there are as many free blocks as new ones and tables that the file lacks; it ends with the last block counted but not mapped exactly if they suffice for more than the blocks before, and otherwise has come to a state with no free block in which it goes on for ever |
| Ext2Growth.CountedInVain | src/modules/fs/ext2.cpp:789-800 | a count stored without an entry in the map leaves a file whose last block is missing |
| Ext2.Driver.InodeReadBlock | src/modules/fs/ext2.cpp:1102-1111 | the content of a block of the file, zeros beyond the last one |
| Ext2.Driver.InodeWriteBlock | src/modules/fs/ext2.cpp:1116-1133 | with enough free blocks the block has the new content, the file has grown by zeroed blocks if it had to, no other block of any file has changed, and what has gone from the free blocks is what the file needs less; otherwise one of two failures, each under its exact condition |
| Ext2Growth.DataWritten | src/modules/fs/ext2.cpp:1130-1132 | a write to a block of a file changes this block only |
| Ext2Growth.GrownThenWritten | src/modules/fs/ext2.cpp:1122-1133 | growing and then writing amounts to one rewritten block |
| Ext2Space.SpaceStep | src/modules/fs/ext2.cpp:789-800 | a new block with its tables uses up exactly what the file needs less from then on |
| Ext2Space.AbsentIsNeeded | src/modules/fs/ext2.cpp:884-922 | as many tables are absent on the way to a block as have to be allocated for it |
| Ext2Space.MissingIs | src/modules/fs/ext2.cpp:874-980 | a table counts as missing exactly if it is not on the device and some block of the range needs it |
| Ext2Space.SpaceGrows | src/modules/fs/ext2.cpp:1122-1126 | a longer file needs more free blocks |
| Ext2Plan.OtherSpace | src/modules/fs/ext2.cpp:543-587 | an operation on one file leaves what any other file needs as it is |
| Ext2Plan.StillProvided | src/modules/fs/ext2.cpp:399-448 | if there was enough for planned lengths of all files together, there still is for the rest |
| Ext2Growth.MissingIsUnmapped | src/modules/fs/ext2.cpp:809-864 | a missing table means the index is not mapped |
| Ext2.Driver.WriteInode | src/modules/fs/ext2.cpp:1162-1179 | with the inode table of a group laid end to end, inode j of the group is written to the bytes from (j - 1) * inodeSize on |
| Ext2.Driver.ReadInode | src/modules/fs/ext2.cpp:1135-1160 | with the inode table of a group laid end to end, inode j of the group is read from the bytes from (j - 1) * inodeSize on |
| Ext2Layout.InodeStores | src/modules/fs/ext2.cpp:1162-1179 | in every block of the device, a written inode changes exactly these bytes |
| Ext2Layout.InodeOnDevice | src/modules/fs/ext2.cpp:1135-1160 | byte k of the inode is byte (j - 1) * inodeSize + k of the table |
| Ext2Files.InodeWritten | src/modules/fs/ext2.cpp:1135-1179 | reading an inode after writing one gives the new one at the same number and the old one at every other |
| Ext2Files.InodesApart | src/modules/fs/ext2.cpp:1135-1179 | different inode numbers have disjoint places |
| Ext2Files.InodeInside | src/modules/fs/ext2.cpp:1135-1179 | an inode does not cross the end of its block |
| Ext2Frames.OneFileKept | src/modules/fs/ext2.cpp:543-587 | a step on one file keeps the inode and all contents of every other |
| Ext2Frames.BooksKept | src/modules/fs/ext2.cpp:1116-1133 | a write to a block of a file keeps the bitmaps and counts consistent |
| Ext2.Driver.WriteInodeBuffer | src/modules/fs/ext2.cpp:543-587 | a write of any length at any offset patches every block it touches with its part of the buffer and raises the size if needed |
| Ext2.Driver.Write | src/modules/fs/ext2.cpp:399-407 | the same for the file by its number; what has gone from the free blocks is what the file needs less |
| Ext2Write.SplicingEnds | src/modules/fs/ext2.cpp:550-584 | after the first, middle and last block the whole buffer is in place |
| Ext2Splice.FirstPatch | src/modules/fs/ext2.cpp:563-566 | the first of several blocks takes the beginning of the buffer |
| Ext2Splice.MiddlePatch | src/modules/fs/ext2.cpp:570-573 | blocks in between are filled |
| Ext2Splice.LastPatch | src/modules/fs/ext2.cpp:579-583 | the last block takes the rest |
| Ext2Content.SplicedBytes | src/modules/fs/ext2.cpp:543-587 | byte by byte: the buffer in its range, everywhere else what was there |
| Ext2Content.WriteZeroExtends | src/modules/fs/ext2.cpp:543-587 | the file afterwards is the zero-extended file with the buffer spliced in, exactly if the gap between its old end and the offset is clean |
| Ext2Content.CleanTailKept | src/modules/fs/ext2.cpp:543-587 | writes keep the space behind the end of a file clean |
| Ext2Content.OtherFilesUntouched | src/modules/fs/ext2.cpp:543-587 | no inode and no byte of any other file changes |
| Ext2Content.TruncationIsDirty | src/modules/fs/ext2.cpp:94-102 | opening with truncation keeps the blocks, and the space behind the end is clean only if the file held nothing but zeros |
| Ext2Content.OldBytesReturn | src/modules/fs/ext2.cpp:94-102 | a write after truncation zero-extends exactly if the old file had only zeros before the offset; otherwise old bytes come back |
| Ext2.Driver.Open | src/modules/fs/ext2.cpp:94-102 | with truncation the size becomes zero and nothing else changes |
| Ext2.Driver.Read | src/modules/fs/ext2.cpp:409-448 | exactly the requested slice, cut at the end of the file |
| Ext2.Driver.ReadBlocks | src/modules/fs/ext2.cpp:429-444 | the blocks of a range are joined to the slice |
| Ext2Content.WrittenIsRead | src/modules/fs/ext2.cpp:409-587 | reading where a buffer was written gives the buffer |
| Ext2Content.ReadLengthIsRight | src/modules/fs/ext2.cpp:413-422 | the length `ext2_read` computes is that of the slice exactly if the offset is not beyond the end and offset plus size does not wrap |
| Ext2Content.ReadLengthWraps | src/modules/fs/ext2.cpp:413-422 | two reads for which it is 2^32 - 1 |
| Ext2.Driver.WriteDescriptors | src/modules/fs/ext2.cpp:1080-1081 | the descriptor blocks on the device are those in memory |
| Ext2.Driver.RewriteSuper | src/modules/fs/ext2.cpp:741-744 | so is the superblock |
| Ext2Device.RunOneMore | src/modules/fs/ext2.cpp:1188-1308 | runs on the bare device extend operation by operation |
| Ext2Device.DistinctIffAddressable | src/modules/fs/ext2.cpp:1195-1195 | with offsets in 32 bits and a size that divides 2^32, different blocks begin at different bytes of the device exactly if the whole device is within 2^32 bytes |
| Ext2Device.OffsetIs | src/modules/fs/ext2.cpp:1195-1195 | within that bound no offset wraps |
| Ext2Device.StoreIsStep | src/modules/fs/ext2.cpp:1194-1197 | storing a block at its byte offset changes this block and no other |
| Ext2Cache.Cache.RunAll | src/modules/fs/ext2.cpp:1188-1308 | any run of reads and writes returns what it returns on a bare device, and the logical contents are those of that device, up to the first operation for which no entry can make room; that happens only at the end of a round of the clock, and not within as many ticks as entries times 2^32 |
| Ext2Cache.Cache.Serve | src/modules/fs/ext2.cpp:1188-1308 | one operation, if there is room |
| Ext2Cache.Cache.ReadBlock | src/modules/fs/ext2.cpp:1246-1308 | a read returns the last write to the block; a miss replaces an entry with the smallest stamp, after writing it back if dirty; exactly this entry gets the next stamp |
| Ext2Cache.Cache.WriteBlock | src/modules/fs/ext2.cpp:1188-1235 | a write changes the logical contents of this block only |
| Ext2Cache.Cache.Sync | src/modules/fs/ext2.cpp:1018-1027 | afterwards the device is the logical contents and no entry is dirty |
| Ext2Cache.Cache.Search | src/modules/fs/ext2.cpp:1266-1283 | the entry of the block if there is one, and otherwise one with the smallest stamp, the first of those, unless all are the largest number |
| Ext2Cache.Cache.Flush | src/modules/fs/ext2.cpp:1045-1049 | writing an entry back changes no logical contents |
| Ext2Cache.Cache.Tick | src/modules/fs/ext2.cpp:1035-1043 | stamps are the clock modulo 2^32 |
| Ext2Cache.OldestIsLeastRecent | src/modules/fs/ext2.cpp:1266-1283 | the victim is a least recently used entry exactly if no other was used in an earlier round of the clock |
| Ext2Cache.LeastRecentUntilWrap | src/modules/fs/ext2.cpp:1266-1283 | for a number of entries and a number of ticks: every state of such a cache has a least recently used victim, or none, exactly if there are fewer than two entries, or at most 2^32 ticks, or two entries at the end of a round of the clock |
| Ext2Cache.RunOver | src/modules/fs/ext2.cpp:1035-1043 | for every other number of entries and of ticks, a run from the empty cache after which the victim was used in a later round than another entry |
| Ext2Cache.RoomUntilRoundsUp | src/modules/fs/ext2.cpp:1266-1283 | likewise: every state has room for every block exactly if the clock has not yet made 2^32 ticks for each entry, or is not at the end of a round |
| Ext2Cache.LastOfRounds | src/modules/fs/ext2.cpp:1266-1283 | all stamps can be the largest number only after that many ticks and at the end of a round, since they are distinct and one is the last tick |
| Ext2Cache.RunDry | src/modules/fs/ext2.cpp:1266-1283 | for every other number of ticks, a run from the empty cache after which no entry can be replaced |
| Ext2Cache.Cache.Repeat | src/modules/fs/ext2.cpp:1246-1308 | reading one block over and over stamps its entry only |
| Ext2Cache.Replaced | src/modules/fs/ext2.cpp:1285-1303 | replacing a clean entry changes the logical contents of the new block only, and cached numbers stay distinct |
| Ext2Cache.Flushed | src/modules/fs/ext2.cpp:1045-1049 | a dirty entry written back leaves the logical contents |
| Ext2Cache.AllClean | src/modules/fs/ext2.cpp:1018-1027 | with all entries clean the device is the logical contents |
| LinkedList.List.Append | src/libc/data_struct/list.cpp:25-42 | the sequence of nodes with the node at the end and the items with its item; links mutually inverse, length exact, exactly the members naming the list as owner if that was so |
| LinkedList.List.Insert | src/libc/data_struct/list.cpp:44-54 | a fresh node with the item, which comes last |
| LinkedList.List.AppendAfter | src/libc/data_struct/list.cpp:57-81 | the node and its item behind the given one, or first for null; owners as above |
| LinkedList.List.AppendBefore | src/libc/data_struct/list.cpp:93-117 | the node and its item in front of the given one, or last for null; owners as above |
| LinkedList.List.Delete | src/libc/data_struct/list.cpp:168-187 | the sequences without the node and its item; the node belongs to no list and has no links; owners as above |
| LinkedList.List.Pop | src/libc/data_struct/list.cpp:189-198 | the last node leaves with its item, or null for an empty list |
| LinkedList.List.Dequeue | src/libc/data_struct/list.cpp:200-205 | the first node leaves with its item, or null for an empty list |
| LinkedList.List.Merge | src/libc/data_struct/list.cpp:217-235 | the concatenation of nodes and of items, all nodes owned by the target, for empty and non-empty lists |
| LinkedList.LinksInserted | src/libc/data_struct/list.cpp:57-117 | rewiring around an inserted node gives the links of the longer sequence |
| LinkedList.LinksDeleted | src/libc/data_struct/list.cpp:168-187 | rewiring around a deleted node gives those of the shorter one |
| LinkedList.LinksMerged | src/libc/data_struct/list.cpp:217-235 | joining two ends gives the links of the concatenation |
| SleepQueue.Queue.SleepUntil | src/task/process.cpp:216-241 | the task goes behind all entries with a deadline not after its own and before all others, so equal deadlines stay in order of arrival; nothing happens if the current task is in a queue already |
| SleepQueue.Queue.WakeupSleepers | src/task/process.cpp:116-137 | exactly the entries due are removed, from the front, and the rest stays in order |
| SleepQueue.InsertedInOrder | src/task/process.cpp:216-241 | an entry put where the search stops keeps the queue sorted by deadline and then by arrival |
| SleepQueue.NoneDue | src/task/process.cpp:116-137 | if the first entry is not due, none is |
| SleepQueue.DueIsTime | src/task/process.cpp:116-137 | with a fixed number of subticks in a tick, an entry is due exactly if its time is not after the time now |
| Throttle.DutyCycle | src/task/task.cpp:57-76 | after any number of decisions, the next `ttl_fscale` admit the task exactly floor(d * fscale / 100) times, or if that is zero, one of the next `fscale + 1` |
| Throttle.PeriodShare | src/task/task.cpp:57-76 | from any phase, one period admits the share and ends in the same phase |
| Throttle.NoShare | src/task/task.cpp:57-76 | with a share of zero the period is one longer and admits once |
| Throttle.AdmissionsSplit | src/task/task.cpp:57-76 | decisions in a row add up |
| Throttle.Task.CanLive | src/task/task.cpp:57-76 | one decision, in both modes, and the counter after it |
| Throttle.Task.SetTtl | src/task/task.cpp:237-248 | the duty cycle sets start and counter, in both modes |
| Throttle.Task.Decide | src/task/task.cpp:57-76 | a run of decisions refines the count of admissions |
| Throttle.Task.SetAndCount | src/task/task.cpp:57-248 | a duty cycle is set, any number of decisions made, and then one period counted: admitted at most duty percent of the period, and more than that less one; once if that is none |
| Throttle.ShareIs | src/task/task.cpp:237-248 | the share is duty percent of the period, rounded down |
| ProcessTree.CountIsDescendants | src/libc/data_struct/tree.cpp:92-101 | `tree_count_children` is the number of descendants |
| ProcessTree.CountFromRoot | src/libc/data_struct/tree.cpp:92-101 | from the root it is the number of nodes less one |
| ProcessTree.MovedOk | src/libc/data_struct/tree.cpp:103-156 | removing a node whose children move to its parent or to the root keeps a tree whose parent links match its child lists, with exactly one node less |
| ProcessTree.MovedKids | src/libc/data_struct/tree.cpp:103-156 | the children go to the end of the new list in order, and no other list changes |
| ProcessTree.MovedLists | src/libc/data_struct/tree.cpp:103-156 | every list and parent afterwards, by slices of the lists before: the node leaves its place, the others keep their order, its children come last at the target and have it as parent |
| ProcessTree.SubtreeIntact | src/libc/data_struct/tree.cpp:144-156 | every subtree that does not hold the node or its target has the same members as before |
| ProcessTree.InsertedOk | src/libc/data_struct/tree.cpp:57-69 | a new child keeps the tree, with one node more |
| ProcessTree.InsertedLists | src/libc/data_struct/tree.cpp:57-69 | it comes last in the list of its parent, and all other lists and parents stay |
| ProcessTree.PrunedOk | src/libc/data_struct/tree.cpp:103-121 | removing a branch keeps the tree and takes away the node and its descendants |
| ProcessTree.PrunedLists | src/libc/data_struct/tree.cpp:103-121 | everybody left keeps parent and children, except that the node leaves its place in the list of its parent |
| ProcessTree.BranchIs | src/libc/data_struct/tree.cpp:34-41 | freeing a branch reaches the node and all its descendants |
| ProcessTree.Processes.InsertChild | src/libc/data_struct/tree.cpp:57-69 | the new tree and its count |
| ProcessTree.Processes.RemoveReparentRoot | src/libc/data_struct/tree.cpp:144-156 | nothing for the root; for any other node its children move under the root |
| ProcessTree.Processes.Remove | src/libc/data_struct/tree.cpp:123-142 | nothing for the root; for any other node its children move to its parent |
| ProcessTree.Processes.Unlink | src/libc/data_struct/tree.cpp:132-142 | one node less, its children moved, and a tree again |
| ProcessTree.Processes.MoveChildren | src/libc/data_struct/tree.cpp:134-142 | deleting the node from its list, giving each child its new parent, appending the children and freeing the node amount to one move |
| ProcessTree.Processes.RemoveBranch | src/libc/data_struct/tree.cpp:103-121 | the branch is gone and the count is right |
| TreeSpec.AllBelowRoot | src/libc/data_struct/tree.cpp:57-156 | every node is below the root, so all are reachable and there is no cycle |
| TreeSpec.NotBelowItself | src/libc/data_struct/tree.cpp:57-156 | no node is below itself |
| Paths.CanonicalizePath | src/vfs.cpp:357-465 | the path of the stack that the components of input, and of the working directory for a relative input, lead to; `PathLaws` says by paths alone which one that is |
| PathLaws.RelativeIsAppended | src/vfs.cpp:357-385 | a relative input means what it means behind a clean working directory |
| PathLaws.AbsoluteAlone | src/vfs.cpp:357-385 | for an absolute input the working directory does not matter, and no input at all is the root |
| PathLaws.CleanIsAppended | src/vfs.cpp:386-456 | a relative path of clean components comes behind the directory |
| PathLaws.DotChangesNothing | src/vfs.cpp:412-416 | the component `.` changes nothing, wherever it stands |
| PathLaws.UpTakesNameBack | src/vfs.cpp:402-411 | a component and `..` behind it change nothing, wherever they stand |
| PathLaws.UpFromRoot | src/vfs.cpp:402-411 | at the root, `..` changes nothing |
| PathLaws.SeparatorChangesNothing | src/vfs.cpp:386-429 | a separator more changes nothing, between components or at the end |
| PathLaws.Examples | src/vfs.cpp:357-465 | in `/a/b`, `c` is `/a/b/c` and `./../c` is `/a/c` |
| Paths.CanonicalIsClean | src/vfs.cpp:357-465 | for every working directory and input, the result is `/` or its components joined, none is empty, and none is `.` or `..` exactly if none of the components of the working directory that stay in place is |
| Paths.CleanInCleanDirectory | src/vfs.cpp:357-465 | so the result is clean for every absolute input, and in a clean directory for every input |
| Paths.DotsAreLost | src/vfs.cpp:386-429 | the components keep their number only if they have no dots: no component adds more than itself, and dots are never pushed |
| Paths.ResolvedIsClean | src/vfs.cpp:386-429 | what is pushed is clean, so only what is never popped matters |
| Paths.CanonicalIsIdempotent | src/vfs.cpp:357-465 | canonicalising the result again, from any directory, changes nothing exactly if it is clean |
| Paths.TokensOfPath | src/vfs.cpp:430-456 | parsing a joined path gives its components back |
| Paths.DotsInCwdStay | src/vfs.cpp:357-385 | in the directory `/..` the path `b` becomes `/../b` |
| Paths.StrTok | src/libc/libc.cpp:448-468 | each call returns the next component and leaves the rest |
| Paths.GetParent | src/vfs.cpp:468-491 | the last component, and a path that canonicalises to the path of all others |
| Paths.ParentOf | src/vfs.cpp:468-491 | a path with `/..` behind it canonicalises to its parent, from any directory |
| MountTree.Mounts.Mount | src/vfs.cpp:59-141 | without a file or an absolute path nothing happens; otherwise the map from component lists to files changes at the target of the path and nowhere else, for every path |
| MountTree.Mounts.GetMountPoint | src/vfs.cpp:540-581 | the file of the longest mounted prefix, the number of its components, and the place in the chopped path where the others begin |
| MountTree.Mounts.Locate | src/vfs.cpp:598-624 | chopping a canonical path and looking it up |
| MountTree.CanonicalTarget | src/vfs.cpp:78-130 | the target of a canonical path is the list of its components |
| MountTree.TargetOfPieces | src/vfs.cpp:78-130 | any other absolute path is mounted at the pieces between its separators, empty ones included unless the first or the last is empty; one separator at the end does not count |
| MountTree.SlashesOfJoined | src/vfs.cpp:599-611 | a canonical path has as many separators as components |
| MountTree.Mounts.MountBelow | src/vfs.cpp:104-135 | the walk that makes missing directories mounts at the pieces of the path |
| MountTree.Mounts.constructor | src/vfs.cpp:41-51 | at first nothing is mounted |
| MountSpec.WalkIsInjective | src/vfs.cpp:106-130 | two different component lists never lead to the same node |
| MountSpec.DirectoryMounts | src/vfs.cpp:122-128 | making a directory mounts nothing |
| MountSpec.FileSet | src/vfs.cpp:132-135 | setting the file of a node changes what is mounted at its path only |

## Left out

- Heap growth that the address space has no room for: `sbrk` has no error path, so the methods require room (`Heap.Room`); `HeapRuns.RunAll` stops at the first request without it.
- The lock around the allocator, `calloc`, the code disabled by `#if 0` (splitting and coalescing), the physical `prev` links of big bins (they are written but never read), and the generator behind the random level, which is a parameter.
- Kmalloc.Heap.Realloc: does not model size 0, for which the source calls the public `free` with the lock of the allocator held, nor blocks from `valloc`, whose header the page mask does not find (`Kmalloc.MaskFindsHeader`, an equivalence).
- Kmalloc.Heap.Copy: copies whole words of memory, in which only addresses divisible by four are used; `memcpy` byte by byte is `MemMove.MemCpy`.
- Devices larger than 2^32 bytes, on which the 32-bit offsets of the source wrap and blocks coincide (`Ext2Device.DistinctIffAddressable`).
- The triple-indirect arms of the block map, whose bounds and last store are wrong in the source, the 1 KiB `first_data_block` offset, and inode numbers divisible by `inodes_per_group`, which the source places wrongly (`Ext2Files.Placed` excludes them).
- Ext2.Driver.Write: requires as many free blocks as it takes for data and missing tables (`Ext2Space.Space`), since without them a block is not written, as `Ext2.Driver.InodeWriteBlock` says, an end below 2^32 and within the double-indirect range, and a geometry whose sector counts fit 32 bits.
- Ext2.Driver.Read: requires an offset within the file and no wrap, outside which the length is wrong (`Ext2Content.ReadLengthIsRight`).
- Ext2.Driver.GetBlockNumber: requires the tables of the index to be there; without them the source reads a buffer it has not filled.
- `allocate_inode`, directory entries, `ext2_unlink`, symbolic links and mounting an ext2 volume.
- The ext2 driver works on the bare device; that the cached device behaves the same is `Ext2Cache.Cache.RunAll`.  The cache has `cache_entries` entries; the source allocates fewer bytes than that and leaves the cache out by default.
- Ext2Cache.Cache.ReadBlock: requires a victim (`Ext2Cache.HasRoom`), because with all stamps at 2^32 - 1 the source uses the entry at index -1; `Ext2Cache.RoomUntilRoundsUp` says when there always is one.
- Pipe: `sleep_on` is an arbitrary pause; wake-ups, signals and dead pipes, and whether a blocked call ever returns, are not stated.
- `list_copy`, `list_remove`, `list_find` and indexing; the 32-bit wrap of the list length.
- The tree is a map from nodes to child sequences, whose list operations are stores to that map; the same operations on linked nodes are `LinkedList`.  Finding a node by value, `tree_break_off` and removing the root with `tree_node_remove` are left out.
- SleepQueue.Queue.SleepUntil: the variable `before`, which the source does not initialise, starts as null, as `list_append_after` expects; that a task is asleep already is a parameter.
- Throttle: duty cycles are percentages from 0 to 100, as the source's comment says; `task_set_ttl_fscale` and the other setters, and what the scheduler does with a blocked task, are left out.
- MountTree.Mounts.GetMountPoint: takes a chopped canonical path, as its only caller passes it, and returns the mounted file itself, not a copy.
- MountTree: an uninitialised VFS tree, console messages, and reference counts; `kopen` beyond finding the mount point.
- Paths: strings are sequences of bytes, so out-of-memory and the buffers of `strtok_r` between calls are not modelled; the delimiter is the path separator.
- Decimal.Atoi: requires a result that fits an `int`, since the source overflows a signed integer otherwise.
- CString.MemChr: reads whole words, so memory is taken to be a whole number of words, here and in the searches built on it.
- `strcat`, `strcpy`, `strspn` and the other simple string functions, `print_hex`, ring buffer and hash map: easier versions of what is here.
- The regular-expression library, device drivers, interrupts, paging beyond `sbrk`, context switches, terminals, and ELF and module loading.
