# A model of the potatoes kernel

This project models the parts of the potatoes teaching kernel whose state is hard to follow by reading, and proves what
they promise. `dafny verify dfyconfig.toml` checks all of it. Each part has functions on values that say what the code
computes, theorems about these functions, and, where the code changes memory in place, a class with the code's fields
and loops whose methods are proved to compute the functions.

- **Brainfuck interpreter** (`Brainfuck*.dfy`). `BrainfuckLanguage` has programs as trees and their meaning;
  `BrainfuckMachine` the streaming interpreter as a function of its mode state; `BrainfuckRefinement` the induction that
  relates the two; `BrainfuckTheorems` the results, `BrainfuckOutput` that earlier output does not matter for them;
  `BrainfuckReset` and `BrainfuckGuard` what reset_bf does and does not undo; `BrainfuckInterpreter` the class with
  tape, marks and buffer as arrays. Programs may run for ever, so both sides take fuel, and the theorem holds for all
  fuel. A fresh half of a grown tape holds whatever memory held: an arbitrary function of the logical position, the
  same on both sides.
- **Files** (`Fs*.dfy`). `FsLayout` is the format of blocks on disk, `FsVolume` the operations on a whole volume,
  `FsOwnership`, `FsGrowth` and `FsLookup` who owns which block, `FsFiles` reading and writing, `FsRoom` when growing
  succeeds, `FsTruncate` and `FsTruncateExact` truncation, `FsFormat` a new file system and loading one, `FsLifetime`
  and `FsDeletion` the blocks of files that come and go, `FsNewDisk` the first steps on a new disk, `FsDriver` the code
  with its caches. `FsDirectory` and `FsDirectoryDriver` are about the names in one directory.
- **Heap** (`Heap*.dfy`, `Frames.dfy`). `HeapBlocks` is the list of blocks and malloc, `HeapTheorems` and `HeapRealloc`
  what users rely on, `HeapList` the linked headers, `HeapManager` the code, `Frames` page frames and mappings,
  `HeapExpansion` both together.
- **Processes and monitors** (`Process*.dfy`). `Processes` has the ring, the monitor table and the calls as functions,
  `ProcessSchedule`, `ProcessTurns` and `ProcessRuns` the results, `ProcessScheduler` the circular list of process
  objects that is edited while it is walked.
- **Semaphores** (`Semaphore*.dfy`). Any number of threads of the eight kinds of the demonstrations, as interleaved
  steps: `SemaphoreLocks` and `SemaphoreProgress` single instructions around the swapped lock word, the others whole
  operations.
- **Numbers as text** (`NumberText.dfy`).

What the proofs showed about the code, where it is not what its comments or a reader would expect:

- reset_bf does not reset loop_marks, and a '[' of an outermost loop never sets the mark it relies on. One ']' too many
  in a text can leave that mark wrong, after which such loops repeat only a part of their body: after `bf -i "]+[+["` a
  file with `++[-]` never ends. A text in which no ']' comes too early is safe (`ResetWorksIffMarkIsZero`,
  `ResetDoesNotRepair`, `GuardedSessionsRunAll`).
- The interpreter writes its repair notices to the descriptor the program's output goes to
  (`OutputIsCleanIffTapeSuffices`).
- A write that runs past the largest file stores the bytes that fit but leaves the size as it was, so that they cannot
  be read (`ReadBackIffInRange`).
- Truncation stops at the first NULL of the double indirect block, and loses what hangs behind it
  (`TruncateIsPreciseIffNoStrays`, `TruncateKeepsExactIff`); three operations on a new disk show it
  (`SparseFileLosesBlocks`). Deleting a file truncates it first, and frees none of its blocks if its size is 0, as it is
  after a single write that runs past the largest file (`DeleteIsRight`).
- Creating a file system writes only the blocks of the bitmap it marks in, and does not write the root inode
  (`FormatOwnsIff`, `FormatSyncsIff`); the first lookup makes up for the inode (`FirstUseSavesRoot`), and only
  write_bmap at shutdown for the bitmap.
- Inserting a name looks for it only up to the first free entry (`InsertKeepsNamesUniqueIff`).
- The alignment test of the heap compares before it masks; that every expansion still ends on a page boundary is due to
  the 1 that the size has too many (`ExpansionIsExact`).
- A comment says that killing a background process blows up the monitors (src/kernel/pm/pm_main.c:273-280). In the code as it is
  the table stays consistent and the active monitor stays where it is (`ReapKeepsInv`, `WalkShows`).
- The bounded buffer can get stuck exactly if there are ten consumers or more, which then all wait for their second
  element, or none (`GetsStuckIff`, `StuckIffTenHalfServed`, `ProducersStuckIffFull`).
- mm_init allocates nframes / 32 bytes for the bitmap of the frames, and the code uses as many words.
- strtol gathers the number negated so that the lowest int fits; for what itoa writes of negative numbers in other bases
  it overflows (`NegativeOverflows`).

## Model

| member | source | states |
|---|---|---|
| BrainfuckTheorems.InterpreterIsTreeSemantics | src/apps/brainfuck_interpreter.c:275-388 | for every program and every way of cutting its text into writes, with any other characters in between: if the recursive semantics of the language ends, the interpreter ends in the same tape, pointer, remaining input and output and is idle again; if the interpreter ends, so does the semantics; it never uses a nesting mark or buffer place out of bounds |
| BrainfuckTheorems.WellBracketed | src/apps/brainfuck_interpreter.c:326-366 | the command texts with matching brackets are exactly the texts of programs, so that the theorem above covers every well-bracketed text |
| BrainfuckTheorems.ChunkingIsInvisible | src/kernel/pm/dev_brainfuck.c:48-64 | however text is split into writes to the device, and whatever else is in it, the interpreter is in the state it reaches from the bare commands |
| BrainfuckTheorems.OutputIsCleanIffTapeSuffices | src/apps/brainfuck_interpreter.c:369-387 | from any idle state, what arrives at the output descriptor after what was there is the program's output and nothing else exactly if its pointer never leaves the first 10000 cells, since repair notices go to the same descriptor |
| BrainfuckTheorems.FirstOutputIsCleanIffTapeSuffices | src/apps/brainfuck_interpreter.c:244-249 | in particular for the first program after start-up |
| BrainfuckTheorems.BootIsIdle | src/apps/brainfuck_interpreter.c:36-50 | after start-up the interpreter is idle and its tape is 10000 zero cells, and beyond them whatever memory holds |
| BrainfuckOutput.FeedBehind | src/apps/brainfuck_interpreter.c:275-388 | what was written earlier only stays in front of what a text writes; it changes nothing else |
| BrainfuckReset.ResetIsIdleIff | src/apps/brainfuck_interpreter.c:252-273 | reset sets up a new tape, but leaves the interpreter idle only if loop_marks[1][0] was 0, because it does not touch the marks; and then only |
| BrainfuckReset.ResetWorksIffMarkIsZero | src/apps/brainfuck_interpreter.c:252-273 | after a reset from any state every admissible program, however it is written to the device, ends as the tree semantics has it, and conversely, if and only if loop_marks[1][0] was 0 |
| BrainfuckReset.WrongMarkNeverEnds | src/apps/brainfuck_interpreter.c:340-354 | with any other mark the rounds of an outermost loop never end, or read outside the buffer |
| BrainfuckReset.StrayBracketLeavesMark | src/apps/brainfuck_interpreter.c:326-366 | from an idle state on a zero cell the text ]+[+[ leaves the mark at 2 |
| BrainfuckReset.ResetDoesNotRepair | src/apps/shell_cmds.c:436-463 | a run that shows it: that text after start-up, a reset as the shell makes it, and then the program ++[-] never ends |
| BrainfuckGuard.GuardedTextMayBeReset | src/apps/shell_cmds.c:436-463 | a text in which no closing bracket comes too early, complete or not, keeps the mark 0, so that a reset after it leaves the interpreter idle |
| BrainfuckGuard.GuardedSessionsRunAll | src/apps/shell_cmds.c:436-463 | after any number of such texts with a reset after each, every admissible program ends as the tree semantics has it |
| BrainfuckGuard.CloseKeeps | src/apps/brainfuck_interpreter.c:338-366 | a closing bracket, with all its rounds, leaves the recorded bodies of the loops around it where their marks say |
| BrainfuckTheorems.Parse | src/apps/brainfuck_interpreter.c:326-366 | a text whose brackets match from depth d on splits into a program and, below depth 0, a rest that starts with the closing bracket |
| BrainfuckRefinement.Runs | src/apps/brainfuck_interpreter.c:275-367 | at every depth, live or in replay, handing over the text of a program does to tape, input and output what its meaning does, and leaves the recording, the marks and the locks as they have to be |
| BrainfuckRefinement.LoopRuns | src/apps/brainfuck_interpreter.c:326-366 | a loop, recorded in its first round and replayed in the others, behaves as the while loop it stands for |
| BrainfuckRefinement.RoundsMatch | src/apps/brainfuck_interpreter.c:340-354 | replaying the recorded body while the cell is not zero matches the remaining rounds of the loop, one by one |
| BrainfuckRefinement.SkipsLoop | src/apps/brainfuck_interpreter.c:286-303 | a loop that is entered on a zero cell changes nothing but the recording, however deep its brackets nest |
| BrainfuckRefinement.GrowKeepsTape | src/apps/brainfuck_interpreter.c:369-387 | doubling the tape at either end keeps the value of every cell at its logical position and puts the pointer on the cell that was asked for |
| BrainfuckRefinement.BasicSim | src/apps/brainfuck_interpreter.c:306-325 | each of the six simple commands, with the repair that may follow it, does to the relocated tape what it does to the unbounded one |
| BrainfuckInterpreter.Interpreter.Interpret | src/apps/brainfuck_interpreter.c:275-388 | the class with its arrays, run one character at a time, computes the state function that the theorems are about |
| BrainfuckInterpreter.Interpreter.Repair | src/apps/brainfuck_interpreter.c:369-387 | reallocation of the tape array at either end computes the growth of the tape |
| BrainfuckInterpreter.Interpreter.PlayBack | src/apps/brainfuck_interpreter.c:345-352 | the inner replay loop over the recorded body computes the replay |
| BrainfuckInterpreter.Interpreter.DeviceWrite | src/kernel/pm/dev_brainfuck.c:48-64 | the filter and feed loop of the device computes the write |
| BrainfuckInterpreter.Interpreter.constructor | src/apps/brainfuck_interpreter.c:244-249 | a new interpreter is in the state after start-up |
| BrainfuckInterpreter.Interpreter.ResetBf | src/apps/brainfuck_interpreter.c:252-273 | reassigning the variables and clearing a new tape computes the reset, which keeps loop_marks and what was written |
| FsLayout.InodeRoundTrip | src/kernel/fs/fs_inode_table.c:168-202 | an inode copied to its disk block and read back is the same inode, all pointers included |
| FsLayout.MarkByteSetsOneBit | src/kernel/fs/fs_bmap.c:135-177 | rotating a byte, changing its highest bit and rotating back changes the one bit that the test looks at and no other |
| FsLayout.AddrUpdated | src/kernel/fs/fs_block_dev.c:121-231 | replacing one address in an address block leaves all other addresses in it as they were |
| FsOwnership.MarkSavesBitmap | src/kernel/fs/fs_bmap.c:135-161 | marking a block keeps the copy of the bitmap on disk equal to the one in memory |
| FsOwnership.EnlargeTakesFreeBlock | src/kernel/fs/fs_block_dev.c:241-248 | growth takes a block that was free, marks it, clears it on disk, and disturbs no block that any file holds |
| FsOwnership.AttachedIsOwned | src/kernel/fs/fs_block_dev.c:121-231 | hanging a loose block into an empty pointer keeps all blocks of all files pairwise distinct, marked, and apart from the metadata |
| FsGrowth.EnsurePtrGrows | src/kernel/fs/fs_block_dev.c:134-160 | filling an empty pointer of an inode grows the file by one free, zeroed block and nothing else |
| FsGrowth.EnsureEntryGrows | src/kernel/fs/fs_block_dev.c:160-231 | filling an empty entry of an address block does the same |
| FsLookup.LocateIsRight | src/kernel/fs/fs_block_dev.c:121-231 | through direct, single and double indirect pointers the block found is the one the file's tree leads to; growth on the way keeps every other file's and every earlier block |
| FsLookup.GetDataBlockIsRight | src/kernel/fs/fs_block_dev.c:121-231 | looking up a position answers with the block of that position, with or without growth, inside the range of an inode, and with nothing beyond it; all contents stay |
| FsFiles.WriteIsRight | src/kernel/fs/fs_read_write.c:92-143 | writing changes exactly the bytes of the range, in this file and no other; new blocks read as zeros; the size becomes the end of the write if it lies within the range of an inode and beyond the old size |
| FsFiles.ReadIsRight | src/kernel/fs/fs_read_write.c:45-80 | reading, across any number of blocks, yields the bytes of the file: all that were asked for if they have blocks and no block starts beyond the size, and otherwise those before the first block edge where that fails |
| FsFiles.ReadLengthIsFixed | src/kernel/fs/fs_read_write.c:45-80 | which fixes the bytes that are read, also where reading stops early |
| FsFiles.ReadBackIffInRange | src/kernel/fs/fs_read_write.c:45-143 | what was written at any position is what is read there exactly if the write ends within the range of an inode |
| FsFiles.OtherReadsStay | src/kernel/fs/fs_read_write.c:45-143 | whatever could be read outside the written range, or in any other file, is read unchanged after the write |
| FsFiles.WriteKeepsExact | src/kernel/fs/fs_read_write.c:92-143 | writing keeps the bitmap exact: what is marked behind the metadata is what some file holds |
| FsFormat.FormatMarksMetadata | src/kernel/fs/fs_bmap.c:67-78 | on a new file system just the blocks before the first data block are marked |
| FsFormat.FormatOwnsIff | src/kernel/fs/fs_bmap.c:67-78 | a new file system has no two pointers with one block and accounts for every marked block; the bitmap on disk is the one in memory if and only if the blocks of the old one that init_bmap does not write were blank |
| FsFormat.FormatSyncsIff | src/kernel/fs/fs_inode_table.c:56-68 | the new root inode is on the disk only if it happened to be there: create_root does not write it |
| FsFormat.SavedRootIsStable | src/kernel/fs/fs_main.c:95-108 | once the root inode has been written all invariants of the file system hold |
| FsFormat.LoadsWhatWasSaved | src/kernel/fs/fs_main.c:81-90 | at any time between two operations, loading the disk gives the bitmap and the root inode that are in memory |
| FsRoom.EnlargesIff | src/kernel/fs/fs_bmap.c:115-127 | a block is found exactly if one is free from the start of the search on, and it is the lowest |
| FsRoom.GetDataBlockRoom | src/kernel/fs/fs_block_dev.c:121-231 | making any logical block of a file succeeds if three blocks are free above its inode and address blocks |
| FsRoom.WriteSucceeds | src/kernel/fs/fs_read_write.c:92-143 | a write succeeds if so many are free for each block that it reaches into |
| FsTruncate.TruncateIsRight | src/kernel/fs/fs_create_delete.c:152-259 | truncation keeps the blocks below the new end with their contents, in this file and all others; which blocks it drops and frees is stated for every pointer |
| FsTruncate.DroppedIffLost | src/kernel/fs/fs_create_delete.c:152-259 | a block is freed exactly if its pointer is dropped and the loops come to it |
| FsTruncate.GrowingIsRight | src/kernel/fs/fs_create_delete.c:250-254 | making a file longer makes the one block its new end lies in and sets the size; all contents stay |
| FsTruncateExact.TruncateIsPreciseIffNoStrays | src/kernel/fs/fs_create_delete.c:193-259 | truncation keeps exactly the blocks below the new size and frees exactly those no longer reachable if and only if nothing hangs behind the first NULL of the double indirect block |
| FsTruncateExact.SparseWriteLeavesGap | src/kernel/fs/fs_block_dev.c:175-222 | one byte written under the second entry of a double indirect block that was not there leaves the first entry NULL |
| FsLifetime.TruncateKeepsExactIff | src/kernel/fs/fs_create_delete.c:193-259 | shrinking a file keeps every marked block accounted for if and only if it keeps the double indirect block or leaves no address block behind the first NULL |
| FsLifetime.CreateIsRight | src/kernel/fs/fs_dir.c:65-130 | creating a file takes a free block for its inode, writes it and the directory's entry block and inode, keeps all invariants and the account of marked blocks, and changes no other block of any file |
| FsDeletion.DeleteIsRight | src/kernel/fs/fs_create_delete.c:119-121 | deleting a file keeps all invariants and changes no other file but for the directory's entry block; it gives back all blocks of the file, and keeps the account of marked blocks, if and only if truncation leaves none behind; of a file of size 0 fs_truncate frees none |
| FsNewDisk.CreateSucceeds | src/kernel/fs/fs_dir.c:88-112 | creating a file succeeds if four blocks are free above the directory's blocks |
| FsNewDisk.FirstUseSavesRoot | src/kernel/fs/fs_block_dev.c:228-228 | the first lookup in the root directory writes the root inode, so that it makes no difference that create_root did not |
| FsNewDisk.FirstFileIsStable | src/kernel/fs/fs_main.c:95-108 | from the creation of the first file on a new file system all invariants hold and every marked block is accounted for |
| FsNewDisk.SparseFileLosesBlocks | src/kernel/fs/fs_create_delete.c:193-259 | on any new disk with eight data blocks: a file created, one byte written into it far behind its end, and the file truncated to nothing leave an address block marked that no file leads to |
| FsDriver.FileSystem.Load | src/kernel/fs/fs_main.c:81-90 | reading the bitmap blocks into the bitmap array and the root inode computes the loading |
| FsDriver.FileSystem.Create | src/kernel/fs/fs_main.c:95-108 | the marking loop, the root inode and the super block compute the new file system |
| FsDriver.FileSystem.MarkBlock | src/kernel/fs/fs_bmap.c:135-161 | flipping the bit in the bitmap array and saving its block computes the marking of the volume |
| FsDriver.FileSystem.IsAllocated | src/kernel/fs/fs_bmap.c:163-177 | tells whether the bit of the block is set |
| FsDriver.FileSystem.GetFreeBlock | src/kernel/fs/fs_bmap.c:115-133 | finds the first free block from the start on, or none if all are used |
| FsDriver.FileSystem.EnlargeFile | src/kernel/fs/fs_block_dev.c:241-248 | allocating and clearing a block computes the growth of the volume |
| FsDriver.FileSystem.GetDataBlock | src/kernel/fs/fs_block_dev.c:121-231 | the lookup, though all its steps share one address cache and one read cache, computes the lookup of the volume |
| FsDriver.FileSystem.Read | src/kernel/fs/fs_read_write.c:45-80 | fills the caller's buffer at the right place with the bytes read, and nothing else of it |
| FsDriver.FileSystem.Write | src/kernel/fs/fs_read_write.c:92-143 | the recursive write through the read cache computes the write of the volume |
| FsDriver.FileSystem.ShrinkFile | src/kernel/fs/fs_create_delete.c:152-188 | the loop over the entries of an address block computes its shrinking |
| FsDriver.FileSystem.Truncate | src/kernel/fs/fs_create_delete.c:193-259 | the loops over direct pointers and address blocks, and the lookup where the file becomes longer, compute the truncation of the volume to any size |
| FsDriver.FileSystem.CreateFile | src/kernel/fs/fs_dir.c:88-129 | lookup, allocation and the writes in the order of the code compute the creation on the volume |
| FsDriver.FileSystem.DeleteFile | src/kernel/fs/fs_dir.c:160-195 | truncation, lookup and the writes compute the deletion on the volume |
| FsDirectory.CreateAddsName | src/kernel/fs/fs_create_delete.c:82-120 | creating an absent name adds it to the directory's map with an inode block that was free and is now marked, changes no other name, and no name or inode occurs twice; creating a present one changes nothing |
| FsDirectory.DeleteRemovesName | src/kernel/fs/fs_dir.c:139-238 | deleting a name removes it from the map, frees its inode block and no other block, and changes no other name |
| FsDirectory.InsertKeepsNamesUniqueIff | src/kernel/fs/fs_dir.c:65-130 | the insertion by itself keeps names unique exactly if the name is not in an entry block behind the one with the first free entry; the search before it is what makes creation safe |
| FsDirectory.StoredNameIsRead | src/kernel/fs/fs_dir.c:206-216 | a name copied with whatever lies behind its terminator compares equal to itself |
| FsDirectoryDriver.Directory.Search | src/kernel/fs/fs_dir.c:301-326 | the search, block by block through the directory cache, finds what the map says |
| FsDirectoryDriver.Directory.InsertFile | src/kernel/fs/fs_dir.c:65-130 | the insertion loop, which allocates and gives back a block for every full entry block, computes the insertion |
| FsDirectoryDriver.Directory.DeleteFile | src/kernel/fs/fs_dir.c:139-196 | the deletion loop computes the deletion |
| FsDirectoryDriver.Directory.CreateFile | src/kernel/fs/fs_create_delete.c:82-120 | search and insertion together compute the creation |
| FsDirectoryDriver.Directory.FindFilename | src/kernel/fs/fs_dir.c:47-56 | finds the first entry of the cached block with the name |
| FsDirectoryDriver.Directory.CreateEntry | src/kernel/fs/fs_dir.c:206-216 | the first free entry of the cached block, and only it, gets name and inode |
| FsDirectoryDriver.Directory.DeleteEntry | src/kernel/fs/fs_dir.c:225-238 | the first entry with the name, and only it, is cleared and its inode block unmarked |
| HeapBlocks.BlocksAreApart | src/kernel/mm/mm_heap.c:212-228 | headers and payloads of different blocks never overlap and lie between start and end |
| HeapBlocks.ScanIsWorstFit | src/kernel/mm/mm_heap.c:276-291 | the scan finds the lowest-addressed of the largest holes, if any is large enough |
| HeapBlocks.ExpansionIsExact | src/kernel/mm/mm_heap.c:100-121 | because of the 1 too many in the size and the alignment test that sees one bit only, an expansion adds exactly size / 1 MiB + 1 MiB and one page |
| HeapBlocks.ExpandMakesRoom | src/kernel/mm/mm_heap.c:332-343 | after one expansion there is a hole for the block, so that the repeated call succeeds and recursion is one deep |
| HeapTheorems.MallocIsRight | src/kernel/mm/mm_heap.c:244-344 | malloc adds one block of the size asked for and leaves address, size and bytes of all others; without expansion it is in the lowest of the largest holes, otherwise the heap grew once by the exact amount |
| HeapTheorems.FreeIsRight | src/kernel/mm/mm_heap.c:351-364 | free takes exactly the one block away and touches no byte |
| HeapTheorems.FreeUndoesMalloc | src/kernel/mm/mm_heap.c:244-364 | after malloc and free of its result the user has the same blocks with the same bytes as before |
| HeapTheorems.SecondFreeDoesNothing | src/kernel/mm/mm_heap.c:351-364 | freeing a block twice is freeing it once |
| HeapRealloc.MemmoveIsRight | src/kernel/lib/string.c:261-271 | memmove copies the bytes, also between overlapping ranges, changes no other byte of a block, and leaves no block of its own behind |
| HeapRealloc.ReallocIsRight | src/kernel/lib/stdlib.c:160-180 | realloc yields a block of the new size with the old bytes as far as both sizes reach, leaves all other blocks alone and neither the old nor a temporary block behind; it moves exactly if the next block is in the way, and then the copy stays inside the new block |
| HeapRealloc.RunSpares | src/kernel/mm/mm_heap.c:212-364 | through any run of malloc, free, realloc and stores, a block that none of them names keeps its address, size and bytes |
| HeapRealloc.RunStaysValid | src/kernel/mm/mm_heap.c:212-364 | any run keeps the blocks sorted and apart, between page-aligned ends |
| HeapList.InsertLinks | src/kernel/mm/mm_heap.c:212-228 | linking a block in keeps the headers one doubly linked ring in address order |
| HeapList.UnlinkLinks | src/kernel/mm/mm_heap.c:351-364 | so does unlinking one |
| HeapList.ExtendLinks | src/kernel/mm/mm_heap.c:136-152 | so does moving the end marker |
| HeapList.UnlinkStaysVisible | src/kernel/mm/mm_heap.c:356-363 | the header that a freed block leaves behind does not pass the test of free |
| HeapManager.KernelHeap.constructor | src/kernel/mm/mm_heap.c:46-92 | a new heap between page addresses is an empty valid one |
| HeapManager.KernelHeap.FindHole | src/kernel/mm/mm_heap.c:276-291 | the loop over the list of headers finds the hole of the worst-fit scan |
| HeapManager.KernelHeap.SetupBlock | src/kernel/mm/mm_heap.c:212-228 | relinking the headers in memory puts the block into the hole |
| HeapManager.KernelHeap.Expand | src/kernel/mm/mm_heap.c:111-153 | relinking the end marker computes the expansion |
| HeapManager.KernelHeap.Malloc | src/kernel/mm/mm_heap.c:244-344 | the search, the insertion and the repeated call after an expansion compute malloc |
| HeapManager.KernelHeap.Free | src/kernel/mm/mm_heap.c:351-364 | unlinking on the strength of the test prev->next == this frees the block if there is one at the address, and otherwise does nothing |
| HeapManager.KernelHeap.Memcpy | src/kernel/lib/string.c:241-248 | the byte loop copies the range |
| HeapManager.KernelHeap.Memmove | src/kernel/lib/string.c:261-271 | the two copies by way of a block of its own compute memmove |
| HeapManager.KernelHeap.Realloc | src/kernel/lib/stdlib.c:160-180 | resizing in place or moving computes realloc |
| Frames.SetFrameTakesOne | src/kernel/mm/mm_bitmap.c:36-41 | setting a frame's bit marks that frame and no other |
| Frames.BackedMeansOwnFrame | src/kernel/mm/mm_bitmap.c:97-113 | a page with a frame is present, the frame is marked, and no other page has it |
| Frames.Paging.FirstFreeFrame | src/kernel/mm/mm_bitmap.c:74-88 | finds the lowest free frame, or none exactly if all are taken |
| Frames.Paging.AllocFrame | src/kernel/mm/mm_bitmap.c:97-113 | a page without a frame gets the lowest free one, which is marked; a page with one, and the case of none left, change nothing |
| Frames.Paging.constructor | src/kernel/mm/mm_main.c:42-53 | before the mappings no frame is taken; the bitmap and the page-aligned page directory lie before the address at which page tables are put |
| Frames.Paging.BackHeap | src/kernel/mm/mm_heap.c:129-134 | the loop of an expansion gives a frame to exactly the pages from the old end to the new one, and leaves those that had one |
| Frames.Paging.MapKernel | src/kernel/mm/mm_main.c:65-69 | although page tables made on the way move the bound, the loop maps every address up to it to itself |
| Frames.InitMemory | src/kernel/mm/mm_main.c:40-75 | after initialisation kernel memory is mapped to itself and every page of the first heap has a frame |
| HeapExpansion.HeapExpand | src/kernel/mm/mm_heap.c:111-153 | after a whole expansion every page between the heap's start and its new end has a frame of its own |
| HeapExpansion.MallocBacked | src/kernel/mm/mm_heap.c:244-344 | malloc with the paging behind it: every byte of the block handed out, as all of the heap, lies on a page with a frame; without frames for an expansion nothing is handed out |
| ProcessSchedule.ScheduleIsRight | src/kernel/pm/pm_main.c:132-167 | at the end of its slices the active process is switched out with its context saved, the next process alive in ring order becomes active with as many slices as its priority and with its own context, exactly the dead processes passed are removed, and all others stay in their order |
| ProcessSchedule.WalkIsRight | src/kernel/pm/pm_main.c:148-158 | the nested loops end, having removed exactly the dead processes passed |
| ProcessTurns.TurnComes | src/kernel/pm/pm_main.c:139-166 | with timer interrupts only, a process that is alive becomes active after exactly what the active one has left plus the slices of those alive between, and not before |
| ProcessProofs.ReapKeepsInv | src/kernel/io/io_virtual.c:67-91 | removing a dead process with its monitor leaves the others, their order and their monitors consistent, and the active monitor on the same process unless that is the one removed |
| ProcessProofs.PairedAfterRemoval | src/kernel/io/io_virtual.c:67-91 | moving the last monitor into the freed place keeps processes and monitors paired one to one |
| ProcessRuns.StepKeepsInv | src/kernel/pm/pm_main.c:132-353 | no timer interrupt, creation, exit, kill, priority change, sleep, input or monitor switch breaks the pairing of processes and monitors or the tie of focus and active monitor |
| ProcessRuns.BootKeepsInv | src/kernel/pm/pm_main.c:82-104 | that holds at the start |
| ProcessRuns.MonitorsMatchProcesses | src/kernel/io/io_virtual_monitors.c:42-92 | the pids in the monitor table are exactly those of the processes, none twice; each process points at its own; the process with the focus has the active monitor |
| ProcessRuns.WalkShows | src/kernel/io/io_virtual.c:71-88 | however many processes are removed, also in the background, the active monitor goes on showing its process while that is there |
| ProcessRuns.ContextsAreKept | src/kernel/pm/pm_main.c:145-166 | through any run each process has the context saved when it was last switched out, or its initial stack |
| ProcessRuns.CreatedProcess | src/kernel/pm/pm_main.c:177-260 | a new process comes right behind the kernel process, alive and with one slice, with a pid nobody has, the focus and the active monitor; the others stay in their order |
| ProcessRuns.StateOfOneChanges | src/kernel/pm/pm_main.c:347-353 | killing, and likewise exit and sleep, changes the state of the one process and nothing else |
| ProcessRuns.PriorityOfOneChanges | src/kernel/pm/pm_main.c:295-312 | a new priority is that of the one process and leaves the slices it has |
| ProcessRuns.SwitchesUndoEachOther | src/kernel/io/io_virtual_monitors.c:42-59 | going one monitor up and one down again, or the other way round, changes neither the active monitor nor the focus |
| ProcessScheduler.Scheduler.constructor | src/kernel/pm/pm_main.c:82-104 | the scheduler starts with the kernel process alone in the ring |
| ProcessScheduler.Scheduler.GetProc | src/kernel/pm/pm_main.c:330-340 | once around the ring finds the process with the pid, or none exactly if there is none |
| ProcessScheduler.Scheduler.FreeMonitor | src/kernel/io/io_virtual.c:67-91 | the copy within the array and the new ties compute giving a monitor back |
| ProcessScheduler.Scheduler.ReapNext | src/kernel/pm/pm_main.c:149-153 | destroying and unlinking the next process computes its removal |
| ProcessScheduler.Scheduler.Schedule | src/kernel/pm/pm_main.c:132-167 | editing the circular list while walking it computes the schedule |
| ProcessScheduler.Scheduler.CreateThread | src/kernel/pm/pm_main.c:177-260 | linking in behind the kernel process and starting a monitor computes the creation |
| ProcessScheduler.Scheduler.Kill | src/kernel/pm/pm_main.c:347-353 | marks the process with the pid dead, if there is one |
| ProcessScheduler.Scheduler.SetThreadPriority | src/kernel/pm/pm_main.c:303-312 | changes the priority of the process with the pid and no slices |
| ProcessScheduler.Scheduler.HandleInput | src/kernel/pm/pm_input.c:43-53 | a key wakes the process with the focus if it sleeps, and no other |
| ProcessScheduler.Scheduler.Sleep | src/kernel/pm/dev_stdin.c:43-51 | a process in the background that finds too little input sleeps |
| ProcessScheduler.Scheduler.Exit | src/kernel/pm/pm_syscalls.c:101-116 | the active process, which is not the kernel process, is marked dead |
| ProcessScheduler.Scheduler.MonitorUp | src/kernel/io/io_virtual_monitors.c:42-48 | the next monitor, or the first after the last, becomes active and its owner gets the focus |
| ProcessScheduler.Scheduler.MonitorDown | src/kernel/io/io_virtual_monitors.c:53-59 | the previous one, or the last before the first |
| SemaphoreLocks.MicroStepRefines | src/kernel/init/tests.c:609-633 | every single instruction of p and v, made of a swapped lock word and a count that is loaded and stored, either goes unnoticed or is exactly the operation in one step, which then was not blocked |
| SemaphoreLocks.MicroStepKeepsInv | src/kernel/io/io_util.s:18-40 | at most one thread is behind each lock, and what it knows of the count does not go stale |
| SemaphoreProgress.EveryInstructionIsSafe | src/kernel/init/tests.c:603-666 | in every interleaving of single instructions of any number of threads: one thread behind each lock, no negative count, tokens conserved, 0 to 10 elements, no store of the supply chain beyond its places and no stock negative |
| SemaphoreProgress.SomeoneCanComplete | src/kernel/init/tests.c:615-666 | with producers and one to nine consumers, from every reachable state some schedule completes an operation |
| SemaphoreInvariants.StepKeepsInv | src/kernel/init/tests.c:640-666 | no step of any thread changes a conserved sum, makes a count negative, or lets a counter change between another thread's load and store |
| SemaphoreInvariants.MutualExclusion | src/kernel/init/tests.c:640-666 | at most one thread is inside each section guarded by an access semaphore |
| SemaphoreLaws.EveryStepBalances | src/kernel/init/tests.c:896-1039 | each operation of each of the eight kinds of threads takes from the thread what it gives to semaphores and counters, for every law |
| SemaphoreTheorems.BufferIsBounded | src/kernel/init/tests.c:635-666 | free places, full places and tokens in flight are always 10, and there are 0 to 10 elements |
| SemaphoreTheorems.SupplyChainIsSafe | src/kernel/init/tests.c:896-1085 | no store of the supply chain overflows (500, 10, 30, 20 and 20) and no stock is negative |
| SemaphoreTheorems.StuckIffTenHalfServed | src/kernel/init/tests.c:640-666 | with producers and consumers there, nobody can go on exactly if ten consumers hold one token each |
| SemaphoreTheorems.NineConsumersNeverStuck | src/kernel/init/tests.c:640-666 | one to nine consumers and any number of producers never get stuck |
| SemaphoreDeadlock.GetsStuckIff | src/kernel/init/tests.c:640-666 | for any number of producers, at least one, and any number of consumers: some schedule from the start leads to a state in which all wait for ever if and only if there is no consumer or there are ten or more |
| SemaphoreDeadlock.AllGetServed | src/kernel/init/tests.c:640-666 | the run with ten consumers or more: one after the other takes its first token until no place is left |
| SemaphoreDeadlock.FillsUp | src/kernel/init/tests.c:640-651 | the run without consumers: a producer fills the buffer |
| SemaphoreTheorems.ProducersStuckIffFull | src/kernel/init/tests.c:640-651 | producers without a consumer are stuck exactly if the buffer is full and all wait for a place |
| NumberText.RoundTrip | src/kernel/lib/string.c:322-431 | strtol reads back what itoa wrote, up to the terminator and without overflow, for every int in base 10, the lowest included, and for every one that is not negative in every base from 2 to 36 |
| NumberText.NegativeOverflows | src/kernel/lib/string.c:322-431 | for negative numbers in other bases it does overflow |
| NumberText.ReadBack | src/kernel/lib/string.c:406-421 | the negated accumulator arrives at the negated number, and stays in range exactly if that is in range |
| NumberText.TextFits | src/kernel/lib/string.c:306-320 | 34 characters hold any number with its sign and terminator, as the documentation of itoa promises of 35 |
| NumberText.Itoa | src/kernel/lib/string.c:322-350 | the buffer holds the text and its terminator, and what lay behind is untouched |
| NumberText.Strreverse | src/kernel/lib/string.c:278-290 | the text is reversed in place |
| NumberText.ParseInt | src/kernel/lib/string.c:372-431 | skipping spaces, the sign, the guess of the base and the digits compute the reading |

## Left out

- Brainfuck programs nest fewer than 50 loops, and the text of an outermost loop fits into the buffer: the code checks neither, and the theorems require both.
- malloc returning NULL, 32-bit overflow of the tape length after some eighteen doublings, and of a block size within 44 bytes of 2^32, are not modelled.
- FsDriver.FileSystem.Read: that the bytes are those of the file is stated for reads that do not grow it; a growing read is modelled by method and function only.
- FsDriver.FileSystem.Truncate: the file tables and their counts are not modelled; the call is on an inode.
- FsDriver.FileSystem.Load: inodes and the two block caches are values in fields of the object, not arrays; bitmap, disk and address cache are arrays.
- FsDriver.FileSystem.GetFreeBlock: no free block is an answer of its own, which stops the operation; the code goes on with a block number it does not check.
- Blocks beyond the end of the disk read as zeros, and writing them does nothing; hard disk access is an array of blocks.
- FsDriver.FileSystem.Create: the disk has room for the metadata, and fewer than 2^32 blocks; the bitmap in memory covers whole blocks, while the code allocates one byte for eight blocks of the disk and saves what lies behind it in memory, too.
- FsDriver.FileSystem.CreateFile: the entry block with the new name is given; finding it, full entry blocks before it, where a block is allocated and given back, and the names are the matter of FsDirectory, whose entries are pairs and not bytes of FsVolume's blocks. Its inode stays in memory from then on, as do all inodes of the model.
- FsDriver.FileSystem.DeleteFile: likewise for the entry block without the name; the file is open nowhere else.
- The clock that time stamps come from is not modelled; a stamp is given.
- FsDirectory.CreateAddsName: one directory, whose entry blocks are made without end; the volume's side of it is in FsLifetime.
- FsDirectory.DeleteRemovesName: the truncation before it, and the volume's side, are in FsDeletion.
- FsDirectoryDriver.Directory.Search: one directory, and one part of a path.
- FsDirectoryDriver.Directory.CreateFile: taking the path apart is left out.
- FsDirectoryDriver.Directory.DeleteFile: the directory's disk blocks and inode are in FsDeletion.
- FsDirectoryDriver.Directory.InsertFile: names are shorter than 28 characters and not empty, as the entries need; which block becomes a new entry block, and the directory's own address blocks, are the matter of FsLookup; allocation always starts at the same block and finds one.
- Paths with several parts: rfsearch is modelled for one directory.
- HeapManager.KernelHeap.constructor: page addresses only, as a comment in create_heap asks; its test for alignment sees the lowest bit.
- HeapManager.KernelHeap.Malloc: the limit on the heap's end is not modelled, since the code only prints that it was passed; the parameter page_aligned, which the code ignores, and block names are left out.
- HeapManager.KernelHeap.Free: the address is one below which a header lies or lay and can still be read, other than the two markers; the code follows whatever it finds.
- HeapManager.KernelHeap.Expand: the pages behind the new part are in HeapExpansion, where running out of frames ends the call, as the panic of the code does.
- heap_contract, free_frame and clear_frame are not modelled; nor are access rights checked by hardware.
- Frames.Paging.constructor: the bitmap has the nframes / 32 words that the loops use, all clear and apart from all else; the code allocates and clears a quarter of that.
- Frames.Paging.GetPage has page tables as a set of numbers and a moving address; their memory is not modelled.
- ProcessScheduler.Scheduler.CreateThread: fewer than 1000 monitors exist, which the code does not check, and memory is there; the words on the initial stack are one context value.
- ProcessScheduler.Scheduler.Kill: not of pid 0, which pm_kill_proc does not refuse.
- ProcessScheduler.Scheduler.Sleep: not of the kernel process in the background, which the code does not exclude.
- ProcessScheduler.Scheduler.Schedule: the kernel process stays alive; sys_exit enforces it, pm_kill_proc leaves it to its caller. The call before pm_init is left out.
- Files a process has open, its input queue and the freeing of its memory are left out of its destruction.
- The supply chain can come to a stop with a ramp full of the wrong articles: only its safety is proved.
- Printing, halts and priorities do nothing to semaphores and are left out of the threads.
- NumberText.Itoa: the buffer is large enough, as its documentation asks.
- Terminal output, keyboard maps, editor, games, shell, sound, interrupts and timers are left out.
