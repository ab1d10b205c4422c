# xv6 (HW3) in Dafny

This project models the parts of the HW3 kernel and user programs whose correctness
rests on invariants that span several functions, and proves those invariants. Code that
updates state in place is a class or a method with loops, proved against a function or a
relation on values; protocols between processes are state machines over their critical
sections, and their theorems quantify over every run.

`dafny verify dfyconfig.toml` checks everything.

| file | what it models |
|---|---|
| `Basics.dfy` | `Option`, sequences without repetition, NBUF, the size of a 32-bit word |
| `Blocks.dfy` | disk blocks and the little-endian words in them |
| `BufferCache.dfy` | `bio.c` over the synchronous disk of `memide.c` |
| `LogProtocol.dfy` | every interleaving of `begin_op`, `log_write` and `end_op` |
| `CrashRecovery.dfy` | block transfers of commit and recovery, cut short anywhere |
| `RedoLog.dfy` | `log.c` as it runs over the buffer cache |
| `LoggedRuns.dfy` | every interleaving of operations, cache steps and commits, cut short by a crash anywhere |
| `CommitRuns.dfy` | in which of those runs a commit finds a buffer for each of its reads |
| `Inodes.dfy`, `FileSystem.dfy` | block ownership and file contents, `fs.c` |
| `DiskLayout.dfy` | superblock, inodes and bitmap as stored on disk, `fs.h` |
| `Mkfs.dfy` | the second implementation of the same layout, `mkfs.c`, up to the kernel's first read |
| `Heap.dfy` | `umalloc.c` |
| `ShellParser.dfy`, `Shell.dfy` | the parser of `sh.c`, as functions and as it runs |
| `ShellGrammar.dfy` | the language of the shell, and that the parser accepts exactly it |
| `ProcTable.dfy`, `ProcRuns.dfy` | `proc.c`: table scans, and every run over the table |
| `PhysicalMemory.dfy` | `kalloc.c` |
| `PageTables.dfy`, `VirtualMemory.dfy`, `AddressSpaces.dfy` | `vm.c` |
| `Pipe.dfy` | `pipe.c` |
| `Descriptors.dfy` | `file.c`, descriptor parts of `sysfile.c`, `proc.c` and `pipe.c`, one system call at a time |
| `DescriptorRuns.dfy` | the same with the system calls interleaved at every locked region |
| `Grep.dfy` | the matcher of `grep.c` |

## What the proofs found

Properties that hold of the design but not of the code as it stands; each is stated with
the exact condition under which the code meets it.

- `log_write` tests for a full log before it looks for an entry to absorb into. Limiting each
  operation to MAXOPBLOCKS blocks therefore makes no log size safe
  (`LogProtocol.AbsorbedWriteCanPanic`). Limiting it to MAXOPBLOCKS calls does: then no
  `log_write`, `end_op` or commit panics, exactly when the log area has more than LOGSIZE blocks
  and commit can count on more than LOGSIZE buffers (`LogProtocol.PanicFreeIffRoom`). `mkfs.c`
  reserves LOGSIZE blocks and NBUF equals LOGSIZE, so neither holds: the thirtieth block of a full
  transaction panics in `log_write`, and with a longer log its commit panics in `bget`
  (`LogProtocol.ShippedCanPanic`). The reads that operations make before they log can find every
  buffer in use as well; that panic is not part of the statement.
- `commit` reads through the same cache as everybody else. If other processes hold at most r clean
  buffers during a commit, no commit of n blocks panics for want of a buffer, in any run, exactly
  if n + r is less than NBUF (`CommitRuns.CommitSafeIff`). A buffer to spare when commit begins is
  not enough: once commit has released it, a reader may take it, and commit panics with part of
  the log written (`CommitRuns.PanicAfterTransfer`).
- `writei` and `readi` allocate a missing block inside a file without writing the inode to disk.
  After `writei` the inode on disk equals the one in memory exactly if the file grew or no address
  that the write uses was missing; otherwise the inode on disk reads zeros for those of the bytes
  just written that lie behind a missing address (`FileSystem.FileSys.Writei`). The root directory
  that `mkfs.c` leaves ends in such a missing block exactly if its contents end on a block boundary
  (`Mkfs.RootHoleIff`; `Mkfs.WriteIntoHole` builds a case).
- `readi` on a missing block allocates it, and outside a transaction that panics in `log_write`,
  which `fileread` does not guard against. So the kernel's first read of the root panics exactly if
  its contents end on a block boundary and no operation is outstanding, the boundary is the largest
  file size, or the image has no room for the block (`Mkfs.BuildThenRead`).
- The size arithmetic of `malloc` is exact up to 2^32 - 16 bytes and for no larger request
  (`Heap.SizesExactIff`).
- `kill` does not ask whether the entry it finds is in use, and a failed `fork` does not unmark its
  entry. Free entries stay unmarked over a step exactly if it is not such a kill or such a fork
  (`ProcRuns.KeepsCleanIff`); otherwise the next process starts out killed, as after `kill(0)` at
  boot (`ProcRuns.BornKilled`).
- The error return of `pipewrite` does not wake readers. A step loses a wakeup exactly when
  a writer that has been killed, or whose read end is closed, fills a pipe that readers are
  waiting on and has more than PIPESIZE bytes to store (`Pipe.StepJustifiedIff`).
- `deallocuvm` steps over a missing page table by a whole table's worth of pages even from
  the middle of one, so it can pass over mapped pages of the next table. It clears its range
  exactly when no page is mapped in the stretch it jumps over (`AddressSpaces.Deallocuvm`;
  `AddressSpaces.DeallocLeavesPage` builds a case). On a contiguous prefix nothing is missed.
- `allocuvm` ignores a failure of `mappages`. It succeeds exactly if the free pages suffice for
  the new pages and the tables they lack. Otherwise a page is lost exactly if the free list ends
  between some page and its table, and if that page is the last one the call still reports
  success (`AddressSpaces.Allocuvm` with `PageTables.Outcome`, `AddressSpaces.AllocLosesPage`
  builds a case).
- `copyuvm` gives everything back when it fails, with two exceptions: if fewer than 65 pages are
  free, the kernel part takes them all and none is returned; and one page is lost exactly if the
  free list ends between a page and its table (`AddressSpaces.Copyuvm`).

## Model

| member | source | states |
|---|---|---|
| `BufferCache.Cache.constructor` | HW3/bio.c:39-57 | all buffers empty and idle, threaded both ways on one circular list, last initialised first |
| `BufferCache.Cache.Find` | HW3/bio.c:69-81 | the forward walk returns the buffer that holds the block, or the sentinel exactly if none does |
| `BufferCache.Cache.Recyclable` | HW3/bio.c:83-94 | the backward walk returns the least recently used buffer that is neither busy nor dirty |
| `BufferCache.Cache.Bget` | HW3/bio.c:62-96 | which of hit, sleep, recycle and panic happens, when each does, and that no dirty buffer is recycled and the block map does not change |
| `BufferCache.Cache.Bread` | HW3/bio.c:99-109 | the buffer comes back busy with the latest contents of the block; pinned blocks stay pinned; a block number past the disk panics in the transfer, exactly if a buffer was found |
| `BufferCache.Cache.Bwrite` | HW3/bio.c:112-119 | one transfer of the latest contents, appended to the history; the buffer is clean and the cache still coherent |
| `BufferCache.Cache.Pin` | HW3/log.c:228-228 | the block joins the pinned set and nothing else changes |
| `BufferCache.Cache.Modify` | HW3/log.c:201-209 | a holder's store into a busy buffer updates the block map at that block alone |
| `BufferCache.Cache.MoveToFront` | HW3/bio.c:131-136 | six link assignments keep both directions of the list consistent and move one buffer to the front |
| `BufferCache.Cache.Brelse` | HW3/bio.c:123-142 | a client that logged or wrote its changes leaves the cache coherent, its buffer idle and most recently used |
| `BufferCache.Unlink` | HW3/bio.c:131-132 | the first two assignments of brelse remove exactly that buffer from both directions of the list |
| `BufferCache.PushFront` | HW3/bio.c:133-136 | the last four assignments insert it at the head |
| `BufferCache.StepCoherent` | HW3/bio.c:62-142 | every cache operation of every process keeps: one buffer per block, buffers agree with the block map, blocks the disk is behind on are pinned or held |
| `BufferCache.OneBlockMap` | HW3/bio.c:62-142 | in every run of the cache alone, a read buffer shows what was last stored into its block, an uncached block has it on disk, no block has two buffers, and a dirty buffer is never given away |
| `BufferCache.FillBuffer` | HW3/memide.c:37-59 | a block read into an invalid buffer is already the latest version |
| `BufferCache.WriteBack` | HW3/memide.c:53-58 | writing a held buffer back keeps coherence with the block clean |
| `LogProtocol.StepKeepsInv` | HW3/log.c:124-230 | one critical section keeps: log plus unspent reservations within LOGSIZE, distinct block numbers, committing implies nothing outstanding; only log_write and commit can panic |
| `LogProtocol.RunKeepsInv` | HW3/log.c:124-230 | the same along every disciplined run |
| `LogProtocol.ReachableIsSafe` | HW3/log.c:124-230 | every run from the start satisfies the reservation invariant unless it trips the guard of log_write or a commit finds no buffer; the panic in end_op is unreachable |
| `LogProtocol.PanicFreeIffRoom` | HW3/log.c:210-218 | with at most MAXOPBLOCKS calls per operation, no log_write, end_op or commit of any run panics if and only if the log area has more than LOGSIZE blocks and commit can count on more than LOGSIZE buffers, those that others hold not counted |
| `LogProtocol.OutsideIff` | HW3/log.c:217-218 | in every reachable state with room in the log, log_write panics as outside a transaction iff no process at all is in an operation |
| `LogProtocol.AdmitsIff` | HW3/log.c:124-140 | in every run begin_op admits iff no commit is in progress and the reservation fits; always if nothing is going on |
| `LogProtocol.CommitTrips` | HW3/bio.c:83-95 | the run: three operations fill the log and end, and the commit of the last one finds every buffer pinned |
| `LogProtocol.ShippedCanPanic` | HW3/log.c:210-218 | with NBUF buffers every log size has a run that panics: in log_write up to LOGSIZE blocks, in commit above |
| `LogProtocol.AbsorbedWriteCanPanic` | HW3/log.c:215-227 | with at most MAXOPBLOCKS added blocks per operation, every log size has a run that panics |
| `LogProtocol.GuardTrips` | HW3/log.c:131-131 | the run: three operations admitted together fill the log up to the guard, one more call trips it |
| `CrashRecovery.CrashAtomicity` | HW3/log.c:68-199 | cut a commit anywhere, then any number of recoveries anywhere: the recovery that completes leaves all home blocks old, or all new, by whether the header was written, and clears the header |
| `CrashRecovery.CommitCrash` | HW3/log.c:174-199 | after k transfers of a commit the disk is recoverable, to the old blocks for k at most n and to the new ones after |
| `CrashRecovery.CommitCompletes` | HW3/log.c:189-199 | an uninterrupted commit leaves the new blocks at home and a clear header |
| `CrashRecovery.RecoveredBlocks` | HW3/log.c:114-121 | recovery installs every listed block from its log slot, leaves other home blocks alone and clears the header |
| `CrashRecovery.RecoveryIsReplayable` | HW3/log.c:68-121 | recovery cut short after any number of transfers can start again and ends the same |
| `CrashRecovery.RebootsConverge` | HW3/log.c:114-121 | any sequence of interrupted recoveries ends in the home blocks of an uninterrupted one |
| `CrashRecovery.BeforeHeader` | HW3/log.c:174-187 | write_log touches no home block and not the header |
| `CrashRecovery.HeaderCommits` | HW3/log.c:98-112 | once the header is written, the log holds the whole transaction |
| `CrashRecovery.InstallKeepsLog` | HW3/log.c:68-81 | installing any part of the transaction leaves it in the log; installing all of it makes every home block current |
| `CrashRecovery.ClearRecovers` | HW3/log.c:114-121 | with a clear header recovery changes no home block |
| `RedoLog.Log.BeginOp` | HW3/log.c:124-140 | one pass of the loop admits the operation or sleeps exactly as the protocol step does |
| `RedoLog.Log.LogWrite` | HW3/log.c:210-230 | absorbs or appends as the protocol step does and pins the buffer's block; a panic changes nothing |
| `RedoLog.Log.EndOpBegin` | HW3/log.c:144-160 | the protocol step, and whether this call must commit |
| `RedoLog.Log.WriteLog` | HW3/log.c:174-187 | run without interruption: transfers exactly the cached contents of the logged blocks into the log slots, in order; panics, before any transfer, iff every buffer is pinned or held |
| `RedoLog.Log.InstallTrans` | HW3/log.c:68-81 | run without interruption: transfers exactly the log slots to their home blocks, in order, and unpins them; panics, before any transfer, iff there is something to install and every buffer is pinned or held |
| `RedoLog.Log.FillHead` | HW3/log.c:106-109 | the header block with the count and entries stored into it |
| `RedoLog.Log.WriteHead` | HW3/log.c:100-112 | one transfer of the header block holding the in-memory header, no pin changes; panics iff every buffer is pinned or held |
| `RedoLog.Log.LoadHead` | HW3/log.c:90-93 | the in-memory entries become those of the header block |
| `RedoLog.Log.ReadHead` | HW3/log.c:84-95 | the in-memory header becomes the one on disk; the disk is untouched |
| `RedoLog.Log.CopyToLog` | HW3/log.c:180-185 | the body of write_log's loop: one transfer, two buffers taken and released; panics iff every buffer is pinned or held |
| `RedoLog.Log.CopyHome` | HW3/log.c:74-79 | the body of install_trans's loop: one transfer, and the home block is unpinned; panics iff every buffer is pinned or held |
| `RedoLog.Log.ReadPair` | HW3/log.c:180-181 | two breads in a row find buffers iff one is neither pinned nor held, and both hold the latest contents |
| `RedoLog.Log.Commit` | HW3/log.c:189-199 | run without interruption, while others may hold buffers of other blocks: makes exactly the transfers that crash atomicity is proved about, in that order; succeeds iff nothing is logged or some buffer is neither pinned nor held; home blocks end up current |
| `RedoLog.Log.RecoverFromLog` | HW3/log.c:114-121 | makes exactly the transfers of the recovery that crash atomicity is proved about |
| `RedoLog.Log.EndOp` | HW3/log.c:144-171 | end to end: the last operation leaves the transaction at home, the header clear and the log empty; an earlier one only counts down |
| `RedoLog.SpareIff` | HW3/bio.c:83-95 | counting: with no buffer held, one can be recycled iff fewer blocks are pinned than there are buffers |
| `LoggedRuns.KeepsInv` | HW3/log.c:68-230 | every step of every process, on log, cache and disk together, keeps: logged blocks are the pinned ones, home blocks are behind only on those, header and log slots follow the commit in progress |
| `LoggedRuns.CommitPremises` | HW3/log.c:155-160 | whenever a commit begins, no operation is in progress and the premises of commit hold |
| `LoggedRuns.EveryRun` | HW3/log.c:68-230 | the invariant, and which stores count as committed, after every prefix of every run |
| `LoggedRuns.HomeChangesInInstall` | HW3/log.c:68-81 | no step but one of install_trans changes a home block on disk |
| `LoggedRuns.BetweenCommits` | HW3/log.c:201-230 | outside commits, in every run, the disk holds exactly the stores of the last commit point and a clear header |
| `LoggedRuns.RecoversToCommitted` | HW3/log.c:114-121 | at every reachable point the disk is recoverable, to the home blocks of the last commit point |
| `LoggedRuns.CrashAnywhere` | HW3/log.c:68-230 | crash after any prefix of any run of any processes, then during any number of recoveries: what remains is exactly the stores up to the last commit point, at which no operation was in progress |
| `CommitRuns.CommitSafeIff` | HW3/bio.c:83-95 | over every run in which others hold at most r clean buffers during a commit: no read of a commit of n blocks panics iff n + r is less than NBUF |
| `CommitRuns.CommitFindsBuffer` | HW3/log.c:174-199 | at every reachable point, logged blocks plus clean buffers held by others fewer than NBUF means the next read of commit finds a buffer |
| `CommitRuns.CommitCanPanic` | HW3/bio.c:83-95 | otherwise the run: operations of at most MAXOPBLOCKS calls log n blocks, others take the remaining buffers, commit panics |
| `CommitRuns.PanicAfterTransfer` | HW3/log.c:180-185 | the run in which commit begins with a buffer to spare, makes its first transfer, and panics at its next read |
| `Inodes.AssignAddr` | HW3/fs.c:362-372 | pointing an empty address at a fresh zeroed block keeps ownership and every byte of every file |
| `Inodes.AssignEntry` | HW3/fs.c:373-378 | the same for an entry of an indirect block |
| `Inodes.StoreBytes` | HW3/fs.c:480-484 | bytes stored into a file's block change those bytes of that file and no byte of any other |
| `Inodes.WrittenContents` | HW3/fs.c:479-490 | what a write means for the byte sequences: the data spliced in, the file extended only as needed, other files equal |
| `Inodes.LoadedIff` | HW3/fs.c:362-372 | looking up blocks leaves the inode as it was iff no address they use was missing |
| `Inodes.StaleByte` | HW3/fs.c:487-490 | through the inode as it was before, a byte reads as it does now if its address was there, and as zero if not |
| `Inodes.LacksNext` | HW3/fs.c:356-384 | the blocks missing for a range add up block by block, the indirect block once |
| `FileSystem.MarkUsed` | HW3/fs.c:63-65 | setting a bit in the byte array marks exactly that block |
| `FileSystem.UnmarkUsed` | HW3/fs.c:86-90 | clearing a bit frees exactly that block |
| `FileSystem.FileSys.Balloc` | HW3/fs.c:53-75 | finds the first free block, marks and zeroes it; panics iff every block is used or no operation is outstanding |
| `FileSystem.FileSys.Bfree` | HW3/fs.c:78-93 | clears exactly that bit; panics iff it was clear or no operation is outstanding |
| `FileSystem.FileSys.Bmap` | HW3/fs.c:356-384 | the block of the file's slot, allocated if missing; ownership kept, no file changes its contents; panics exactly out of range, with fewer free blocks than are missing, or with any missing outside a transaction, and takes exactly the missing ones |
| `FileSystem.FileSys.Direct` | HW3/fs.c:363-372 | the same for an address held in the inode |
| `FileSystem.FileSys.Indirect` | HW3/fs.c:373-379 | the same for an entry of the indirect block |
| `FileSystem.FileSys.Writei` | HW3/fs.c:462-492 | error exactly on offset past the end, overflow or too large; panic exactly if there is something to write and no operation is outstanding or more blocks are missing than free; otherwise the file is the old bytes with the data spliced in, other files and ownership kept; exactly when the inode on disk matches, and what it reads if not |
| `FileSystem.FileSys.Readi` | HW3/fs.c:434-458 | error exactly on offset past the end or overflow; panic exactly if there is something to read and a block is out of range, more are missing than free, or one is missing outside a transaction; otherwise the clipped slice, missing blocks read as zeros and no file changed; the inode in memory changes exactly if it lacked an address |
| `FileSystem.FileSys.TruncDirect` | HW3/fs.c:398-403 | gives up exactly the blocks of the direct slots |
| `FileSystem.FileSys.TruncEntries` | HW3/fs.c:406-412 | clears exactly the bits of the blocks listed in the indirect block, each set before |
| `FileSystem.FileSys.TruncIndirect` | HW3/fs.c:405-415 | gives up exactly the indirect entries and then the indirect block |
| `FileSystem.FileSys.Itrunc` | HW3/fs.c:391-419 | frees exactly the blocks the inode refers to, never reaches the panic on freeing a free block, keeps ownership; the inode is empty in memory and on disk; panics iff no operation is outstanding |
| `Mkfs.Image.constructor` | HW3/mkfs.c:93-111 | a zeroed image with the metadata blocks set aside satisfies the ownership invariant |
| `Mkfs.MetadataApart` | HW3/mkfs.c:93-103 | boot block, superblock, every log block, the block of every inode and the bitmap block of every block lie below the first block a file can own, and no block has two of these uses |
| `DiskLayout.RegionsApart` | HW3/fs.h:37-47 | the same for any superblock whose regions follow one another |
| `DiskLayout.PutGet` | HW3/mkfs.c:182-207 | an inode stored in its slot of a block is read back from there, and the other slots are untouched |
| `DiskLayout.SectorsBack` | HW3/mkfs.c:93-115 | superblock, bitmap and every inode, written to their places, are read back from there, and no data block has changed |
| `Mkfs.Mount` | HW3/mkfs.c:93-115 | the kernel that starts on the sectors of the image finds the bitmap, every inode and the contents of every file |
| `Mkfs.Image.Ialloc` | HW3/mkfs.c:223-235 | the next inode number, with an empty file |
| `Mkfs.Image.Lookup` | HW3/mkfs.c:269-286 | a block for the file's slot, fresh from the counter if missing; ownership and all contents kept |
| `Mkfs.Image.Iappend` | HW3/mkfs.c:255-297 | the file grows by exactly the data, other files are equal, every file keeps exactly the blocks its size needs and the counter moves by exactly the new ones; aborts iff the file would exceed MAXFILE blocks |
| `Mkfs.Image.FixRootSize` | HW3/mkfs.c:158-163 | rounding the size up extends the contents with zeros only |
| `Mkfs.Image.Balloc` | HW3/mkfs.c:237-251 | the bitmap has exactly the bits below freeblock and satisfies the invariant fs.c relies on |
| `Mkfs.Perform` | HW3/mkfs.c:117-156 | one more call of main, on any inode: every file holds exactly what was appended to it, and the counters are exact |
| `Mkfs.Build` | HW3/mkfs.c:117-156 | the same after any sequence of allocations and appends over any inodes |
| `Mkfs.BuildThenRead` | HW3/mkfs.c:117-166 | end to end: after any such sequence, the rounding of the root and the bitmap, all stored on sectors and mounted from there, the kernel's readi returns for every inode exactly what was appended to it, the root followed by zeros; it panics exactly if the root's block is missing and has no room, or no operation is outstanding |
| `Mkfs.RootStuck` | HW3/mkfs.c:158-163 | when the rounded root cannot be read: its contents end on a block boundary, and one more block does not fit or there is no transaction to take it in |
| `Mkfs.RootHoleIff` | HW3/mkfs.c:158-163 | the rounded root ends in a missing block iff its contents end on a block boundary |
| `Mkfs.WriteIntoHole` | HW3/fs.c:487-490 | from mkfs on: after main has entered thirty files, an entry written behind them shows in the inode in memory and not in the one on disk |
| `Heap.Allocator.Locate` | HW3/umalloc.c:30-32 | the search loop terminates at the one block after which bp belongs |
| `Heap.Allocator.Free` | HW3/umalloc.c:24-44 | the list stays ordered, circular, disjoint and coalesced, no unit is lost, blocks in use keep their sizes, and one free block now covers the freed one |
| `Heap.Allocator.Morecore` | HW3/umalloc.c:46-61 | a fresh region joins the list; some free block is then large enough; failure changes nothing |
| `Heap.Allocator.Take` | HW3/umalloc.c:75-84 | the block is unlinked or its tail cut off; the invariant holds with one more block in use of exactly that size |
| `Heap.Allocator.Initialise` | HW3/umalloc.c:70-73 | the one-element circular list on the first call, nothing later |
| `Heap.Allocator.Malloc` | HW3/umalloc.c:63-90 | terminates, asks for more memory at most once and only if no block fits, returns a block of the right size disjoint from all others; free plus used units equal units obtained |
| `Heap.FreeAll` | HW3/umalloc.c:33-43 | freeing keeps the whole layout for every combination of neighbours to merge with |
| `Heap.SearchStops` | HW3/umalloc.c:30-32 | the loop condition and its break hold exactly at the block after which bp belongs |
| `Heap.TakeWhole` | HW3/umalloc.c:76-77 | unlinking an exactly fitting block keeps the layout |
| `Heap.TakeTail` | HW3/umalloc.c:79-81 | cutting off the tail keeps the layout |
| `Heap.Grow` | HW3/umalloc.c:57-58 | memory fresh from sbrk is a block apart from all others |
| `Heap.SizesExactIff` | HW3/umalloc.c:69-69 | the 32-bit size computations are exact iff nbytes is at most 2^32 - 16 |
| `ShellParser.PrintThenParse` | HW3/sh.c:328-447 | every tree with at most nine arguments per exec and proper words, printed with parentheses, is accepted and rebuilt |
| `ShellParser.ParsesPrinted` | HW3/sh.c:345-447 | the same inside any context where a line may end |
| `ShellParser.RangeOfParser` | HW3/sh.c:328-447 | a tree is the parse of some line if and only if it is such a tree |
| `ShellParser.ParsesRedirs` | HW3/sh.c:375-398 | a printed list of redirections parses back to that list |
| `ShellParser.ParsesArgs` | HW3/sh.c:430-445 | a printed argument list parses back to that list |
| `ShellParser.LinePrintable` | HW3/sh.c:345-360 | everything parseline builds is a printable tree |
| `ShellGrammar.LanguageIff` | HW3/sh.c:328-447 | a NUL-free line is accepted with a tree iff it spells, with any white space, a line of the language that means this tree: redirections anywhere among the arguments apply in the order of the text, pipes group to the right, & takes a pipeline, ; the rest; everything else stops the shell |
| `ShellGrammar.LanguageParses` | HW3/sh.c:328-447 | every line of the language, however spaced, parses to its meaning |
| `ShellGrammar.LineOnly` | HW3/sh.c:345-360 | whatever parseline accepts is a line of the language with that meaning, and it stops where the line ends |
| `ShellGrammar.PlainAt` | HW3/sh.c:416-447 | arguments and redirections in any order: the words in order, wrapped in the redirections in order |
| `ShellGrammar.Next` | HW3/sh.c:266-321 | gettoken and peek on a spaced text: the next symbol, and the text after it |
| `ShellGrammar.Lex` | HW3/sh.c:266-309 | every NUL-free text is a spaced sequence of symbols |
| `Shell.Parser.GetToken` | HW3/sh.c:266-309 | kind, span and cursor as the token function says; a word's span is a maximal run of word characters |
| `Shell.Parser.Peek` | HW3/sh.c:311-321 | whether the next token starts with one of the characters; the cursor skips white space |
| `Shell.Parser.Scan` | HW3/sh.c:277-301 | the switch of gettoken, including the two-character token |
| `Shell.Parser.ParseRedirs` | HW3/sh.c:375-398 | the redirections, in order, or the panic on a missing file |
| `Shell.Parser.ParseArgs` | HW3/sh.c:430-445 | arguments and redirections, or the panics on a bad token and on too many arguments |
| `Shell.Parser.ParseExec` | HW3/sh.c:416-447 | the tree of spans reads as the tree the function builds; cursor and panics agree |
| `Shell.Parser.ParseBlock` | HW3/sh.c:400-414 | the same for a parenthesised block |
| `Shell.Parser.ParsePipe` | HW3/sh.c:362-373 | the same for a pipeline |
| `Shell.Parser.ParseLine` | HW3/sh.c:345-360 | the same for a line; terminates on every input |
| `Shell.NulTerminate` | HW3/sh.c:450-494 | a NUL at the end of every word of the tree and the rest of the buffer unchanged |
| `Shell.WordsCutOut` | HW3/sh.c:450-494 | after that every pointer of the tree reads, as a C string, exactly its word |
| `Shell.ParseCommand` | HW3/sh.c:328-343 | on any NUL-terminated line: stops the shell exactly when the parse fails or input is left, else the tree in the buffer is the parsed tree |
| `ProcTable.Ptable.Allocproc` | HW3/proc.c:40-50 | the first unused entry, with a new pid, or none |
| `ProcTable.Ptable.Wakeup1` | HW3/proc.c:489-497 | exactly the sleepers on the channel become runnable |
| `ProcTable.Ptable.Tick` | HW3/proc.c:573-589 | exactly one counter of each live entry advances; which one is ProcRuns.KeepsSeen |
| `ProcTable.Ptable.Kill` | HW3/proc.c:511-533 | the first entry with the pid is marked, stamped and roused, or none exists |
| `ProcTable.Ptable.Wait` | HW3/proc.c:243-271 | one scan reaps the first zombie child, gives up without children, or sleeps |
| `ProcTable.Ptable.Exit` | HW3/proc.c:207-227 | parent woken, children adopted, init woken iff it inherits a zombie, the caller a zombie |
| `ProcRuns.EveryRunIsSafe` | HW3/proc.c:137-273 | after any events in any order: a process asleep in wait has a child and no zombie child, started processes have live parents, pids are reaped at most once, ticks are accounted for, state by state |
| `ProcRuns.KeepsInv` | HW3/proc.c:137-273 | each critical section, and each unlocked step of fork, keeps the parent and waiter invariants |
| `ProcRuns.NoZombieForWaiter` | HW3/proc.c:209-219 | after an exit no process still asleep in wait has a zombie child |
| `ProcRuns.ExitWaiters` | HW3/proc.c:207-227 | exit keeps the waiter invariant |
| `ProcRuns.KeepsPids` | HW3/proc.c:248-261 | each step keeps: live pids distinct, every exited pid either one zombie entry or returned by exactly one wait |
| `ProcRuns.KeepsTime` | HW3/proc.c:573-589 | each step keeps: counters plus embryo ticks equal ticks minus ctime until exit, and the exit tick after |
| `ProcRuns.KeepsSeen` | HW3/proc.c:573-589 | each step keeps: rutime, stime and retime are the ticks at which the process was seen running, sleeping and ready since its ctime |
| `ProcRuns.WaitReports` | HW3/proc.c:609-615 | in every run the three totals that wait_stat returns are exactly those ticks |
| `ProcRuns.KillMarks` | HW3/proc.c:511-533 | kill marks and rouses the first entry with the pid and no other, or there is none |
| `ProcRuns.WakeupRouses` | HW3/proc.c:489-506 | after a wakeup nobody sleeps on the channel, and nobody else has changed |
| `ProcRuns.KilledStays` | HW3/proc.c:248-261 | a killed process stays killed until wait gives its entry back |
| `ProcRuns.KeepsCleanIff` | HW3/proc.c:511-533 | free entries stay unmarked over a step iff it is not a kill of a free entry or a failed fork of a marked one |
| `ProcRuns.BornAsFound` | HW3/proc.c:41-50 | fork leaves the mark of the free entry it takes as it is |
| `ProcRuns.BornKilled` | HW3/proc.c:511-533 | the run: kill(0) at boot, then a fork whose child is killed from the start |
| `ProcRuns.ExitStampsLifetime` | HW3/proc.c:221-227 | at exit, counters plus embryo ticks equal ttime minus ctime |
| `ProcRuns.WaitStatWithinLifetime` | HW3/proc.c:611-615 | the totals wait_stat returns never exceed ttime minus ctime |
| `PhysicalMemory.Memory.constructor` | HW3/kalloc.c:45-52 | the pages of the range, and no others, are on the free list, each once; other memory is untouched |
| `PhysicalMemory.Memory.Kfree` | HW3/kalloc.c:59-77 | the page is junk but for its link and heads the list |
| `PhysicalMemory.Memory.Kalloc` | HW3/kalloc.c:82-95 | pops the head of the chain; null iff it is empty |
| `PageTables.SetEntry` | HW3/vm.c:83-83 | storing one entry of one table changes that page of the flat map and no other |
| `PageTables.AddTable` | HW3/vm.c:55-62 | installing a zeroed table changes no page of the flat map |
| `PageTables.WriteElsewhere` | HW3/vm.c:45-65 | writing a frame that is no table of the directory changes no page of the flat map |
| `PageTables.SameTables` | HW3/vm.c:45-65 | the flat map depends on the directory's tables only |
| `PageTables.FlatDecides` | HW3/vm.c:55-63 | the rights of an access, given by both levels together, are those of the table entry alone, because every directory entry this kernel makes gives all rights |
| `PageTables.CountExtended` | HW3/vm.c:55-62 | filling in the missing tables of a range adds exactly as many entries as were absent |
| `PageTables.TablesStep` | HW3/vm.c:78-88 | one page more needs one table more iff neither the directory nor an earlier page provides it |
| `PageTables.LosesHere` | HW3/vm.c:233-240 | having a page with none left for its table is the losing case of Loses |
| `PageTables.OutcomeShort` | HW3/vm.c:232-242 | a page lost anywhere settles the outcome: no other page is lost, and success is reported iff it was the last |
| `VirtualMemory.Walkpgdir` | HW3/vm.c:45-65 | the table of the page, made from the first free page if asked, its directory entry giving every right; null exactly when it is missing and cannot be made; flat map unchanged |
| `VirtualMemory.Mappages` | HW3/vm.c:70-90 | with k pages before the first one mapped already: out of pages iff fewer are free than the tables those k lack, panic iff k falls short of the range and pages suffice; the flat map gets consecutive frames over exactly the pages passed, and only new tables are taken |
| `VirtualMemory.MapRange` | HW3/vm.c:78-88 | the loop: where it stops, and why |
| `VirtualMemory.Setupkvm` | HW3/vm.c:128-144 | a directory, exactly if 65 pages are free, in which every access comes to what the kernel's map says: physical memory and devices for the kernel alone, its text not writable, nothing below KERNBASE; which tables it has; directory and tables account for every page taken |
| `VirtualMemory.RowCost` | HW3/vm.c:120-125 | the tables each row lacks after the rows before it |
| `VirtualMemory.KernelCount` | HW3/vm.c:120-125 | the number of tables after each row |
| `VirtualMemory.KernelRegions` | HW3/vm.c:120-125 | the four rows, with 32-bit sizes, give this frame and these flags for every virtual page and nothing below KERNBASE |
| `VirtualMemory.KernelEntryAccess` | HW3/vm.c:120-125 | what each kernel page allows: never user access, writing everywhere but in the kernel text |
| `VirtualMemory.RowsApart` | HW3/vm.c:120-125 | no row maps a page that an earlier row maps, so mappages does not panic |
| `AddressSpaces.AddPage` | HW3/vm.c:233-240 | one page more with the given contents and flags; fails exactly without a page or with one page and no table; the exact state after either |
| `AddressSpaces.Allocuvm` | HW3/vm.c:220-243 | the new pages can be read and written by user code, are zeroed and on fresh frames, and all else is unchanged; succeeds iff the free pages cover pages and missing tables, a page is lost iff they end between a page and its table, and success is then reported iff it was the last; panics iff a page of the range is mapped already and the free pages reach it; on failure rolled back; frames conserved but for the one lost |
| `AddressSpaces.AllocLosesPage` | HW3/vm.c:232-242 | from boot: the call that reports success, maps nothing and loses the last page |
| `AddressSpaces.Deallocuvm` | HW3/vm.c:249-273 | removes exactly the pages its scan visits and returns exactly their frames; the range is cleared iff no page was mapped in the stretch the scan jumps over |
| `AddressSpaces.DeallocCompleteIff` | HW3/vm.c:258-271 | what the scan removes is the whole range iff none of it is hidden behind a missing table |
| `AddressSpaces.DeallocLeavesPage` | HW3/vm.c:261-262 | from boot: a page that survives the deallocation of a range it lies in |
| `AddressSpaces.PrefixCleared` | HW3/vm.c:249-273 | on a contiguous prefix the scan misses nothing |
| `AddressSpaces.Freevm` | HW3/vm.c:277-292 | returns every frame the address space holds, each once, and writes no other frame |
| `AddressSpaces.Copyuvm` | HW3/vm.c:309-337 | with n pages before the first absent one: no memory iff fewer pages are free than the kernel part, n pages and their tables take, panic iff n falls short and pages suffice; else every user access by the child has the parent's rights and contents on frames no one else holds, and every access above has the kernel's; parent and all other memory unchanged in every case; exactly which frames a failed call does not give back |
| `AddressSpaces.FreshCost` | HW3/vm.c:309-337 | the pages a fresh directory takes for n user pages: the pages and one table for every 1024 |
| `AddressSpaces.FreshLoses` | HW3/vm.c:325-329 | a fresh directory loses a page exactly if the pages run out after the first page of a table and before the table |
| `AddressSpaces.Resize` | HW3/vm.c:220-273 | growing or shrinking keeps the contiguous prefix, what every access above KERNBASE comes to, and conserves frames |
| `AddressSpaces.Lifetime` | HW3/vm.c:128-292 | setupkvm, any resizing calls, freevm: the free list is a permutation of the old one and no other frame was touched, unless a page was lost; enough free pages rule that out |
| `Pipe.RingPush` | HW3/pipe.c:92-92 | storing at nwrite modulo the size appends to the queue, across wrap-around of both counters |
| `Pipe.RingPop` | HW3/pipe.c:115-115 | loading at nread takes the front of the queue, across wrap-around |
| `Pipe.CountersWrap` | HW3/pipe.c:84-105 | the full and empty tests on wrapped counters mean full and empty |
| `Pipe.Pipe.WriteRegion` | HW3/pipe.c:77-97 | a region holding the lock stores as many of the remaining bytes as fit, in order; done, given up or asleep exactly as the rest, the read end and the mark say; who is woken |
| `Pipe.Pipe.ReadRegion` | HW3/pipe.c:99-120 | a region holding the lock takes the smaller of what was asked for and what is there from the front; waits or is interrupted exactly if the pipe is empty and writable |
| `Pipe.Pipe.CloseEnd` | HW3/pipe.c:58-74 | exactly that end is closed and the other side woken; the page is freed iff both ends are closed |
| `Pipe.RunIsFifo` | HW3/pipe.c:77-120 | in every interleaving, bytes delivered followed by bytes in the pipe are the bytes stored; occupancy within PIPESIZE |
| `Pipe.ReadsInOrder` | HW3/pipe.c:111-116 | in every interleaving a read returns as many bytes as asked for or present, and they are the next ones of the stored stream |
| `Pipe.CallStoresOnce` | HW3/pipe.c:81-93 | the regions of one pipewrite call, whatever happens in between, store its bytes once and in order: all of them when it is done, a prefix when it gives up |
| `Pipe.ZeroMeansClosed` | HW3/pipe.c:105-119 | a read of a positive length returns no bytes iff the pipe is empty and the write end closed |
| `Pipe.StepJustifiedIff` | HW3/pipe.c:82-96 | a step keeps every sleeper justified iff it is not a write that gives up after filling a pipe readers wait on |
| `Pipe.WakeupCanBeLost` | HW3/pipe.c:85-88 | the step that leaves a reader asleep with a full pipe |
| `Pipe.NoLostWakeup` | HW3/pipe.c:58-120 | in every orderly run a sleeping reader implies empty with the write end open, a sleeping writer implies full with the read end open |
| `Descriptors.Kernel.Filealloc` | HW3/file.c:25-40 | an unused file, or none exactly if all are in use |
| `Descriptors.Kernel.Fileclose` | HW3/file.c:55-79 | one reference less; the last one closes the pipe end it stands for; pipe ends and pages stay consistent |
| `Descriptors.Kernel.Pipeclose` | HW3/pipe.c:58-74 | the page is given back exactly when the other end is closed too |
| `Descriptors.Kernel.Fdalloc` | HW3/sysfile.c:38-50 | the first empty slot, or -1 if there is none |
| `Descriptors.Kernel.SysDup` | HW3/sysfile.c:52-64 | one more slot for the same file, every count still exact; each error leaves the tables as they were |
| `Descriptors.Kernel.SysClose` | HW3/sysfile.c:90-101 | the slot is empty, counts, pipe ends and pages exact |
| `Descriptors.Kernel.SysOpen` | HW3/sysfile.c:315-330 | fails exactly when the path, a file or a slot is missing, and then changes nothing; else one new slot for one new file |
| `Descriptors.Kernel.Pipealloc` | HW3/pipe.c:21-56 | two files for the ends of one page, or all undone; fails exactly without two files and a page |
| `Descriptors.Kernel.SysPipe` | HW3/sysfile.c:420-442 | fails exactly without a page, two files and two slots, and then changes nothing and has given its page back |
| `Descriptors.Kernel.ForkFiles` | HW3/proc.c:162-164 | the child's slots equal the parent's and every count is exact |
| `Descriptors.Kernel.ExitFiles` | HW3/proc.c:194-200 | the process has no slots left and every count is exact |
| `Descriptors.Session` | HW3/sysfile.c:38-101 | after any sequence of whole calls by any processes, counts equal slots and a page has been given back as often as taken iff no slot refers to it |
| `DescriptorRuns.KeepsInv` | HW3/file.c:25-79 | every locked region and every store into a slot, in any interleaving of the calls, keeps: a count is the slots that hold the file plus references in flight less slots whose reference does not count; an open pipe end has exactly one file or one pending close; pages balance |
| `DescriptorRuns.NoPanic` | HW3/file.c:46-61 | filedup and fileclose never find a file that is not in use |
| `DescriptorRuns.EveryRun` | HW3/sysfile.c:38-101 | the invariant, and no panic, at every point of every interleaving |
| `DescriptorRuns.PageFreedOnce` | HW3/pipe.c:58-74 | at every point of every interleaving a pipe page has been given back exactly as often as it was taken, or once less if a file or a pending close stands for one of its ends |
| `DescriptorRuns.QuietCounts` | HW3/file.c:25-79 | whenever no process is inside a call, every count is the number of slots |
| `Descriptors.PageHeldIff` | HW3/pipe.c:58-74 | a pipe page is held iff some slot refers to one of its ends |
| `Descriptors.ShutPipes` | HW3/file.c:67-73 | closing the last reference to an end keeps: an end is open iff exactly one file stands for it |
| `Descriptors.NewPipe` | HW3/pipe.c:32-44 | a new pipe keeps the same |
| `Grep.Match` | HW3/grep.c:72-82 | true iff some suffix of the text, or the whole text after ^, has a prefix the pattern denotes; terminates |
| `Grep.Matchhere` | HW3/grep.c:85-96 | true iff some prefix of the text, all of it under a final dollar, can be cut into pieces one for each item |
| `Grep.Matchstar` | HW3/grep.c:99-106 | true iff the star takes some run of fitting characters after which the rest matches |
| `Grep.HereCons` | HW3/grep.c:85-106 | an item followed by a pattern matches iff some piece splits the text |
| `Grep.ParsePrint` | HW3/grep.c:85-96 | every pattern that can be written is read back from its text |
| `Grep.PrintParse` | HW3/grep.c:85-96 | every text is the writing of the pattern it is read as |

## Left out

- Devices other than disk 1, T_DEV inodes, and the interrupt-driven `ide.c`: one disk, synchronous transfers as in `memide.c`.
- Interrupts, spinlocks and memory order: each region under a lock is one atomic step; `log_write`'s guard is taken with the lock.
- RedoLog.Log.EndOp: no other process runs during the call, and none holds a logged block or a block of the log area; the interleavings, and that the premises hold when a commit begins, are in LoggedRuns.
- RedoLog.Log.Commit: no other process takes or releases a buffer while it runs; what happens if they do is CommitRuns.CommitSafeIff. Buffers of logged and log-area blocks are not held by others, so sleeping on a busy buffer does not occur.
- RedoLog.Log.WriteLog: likewise.
- RedoLog.Log.InstallTrans: likewise.
- LogProtocol.PanicFreeIffRoom: a commit is one step, and the buffers held by others are a number; the interleaving with them is CommitRuns.CommitSafeIff. Breads of the operations themselves are not among the panics. Stated for three or more processes, which it takes to fill the log as shown; NPROC is 64.
- CommitRuns.CommitSafeIff: the disk has NBUF blocks outside the log area.
- BufferCache.OneBlockMap: has no log in it; that home blocks change on disk only in install_trans is LoggedRuns.HomeChangesInInstall.
- LoggedRuns.CrashAnywhere: a block transfer is one step, operations store only into buffers they hold, and a process holds no buffer when it calls end_op, as in the source; the reservation that keeps the log within its area is LogProtocol's subject, and a step that would panic is not taken.
- FileSystem.FileSys.Writei: works on the block map that the cache presents, and keeps inodes on disk as a sequence beside it; `iget` and `ilock` are not modelled; whether an operation is outstanding does not change during a call, and log_write's panic on a full log is the subject of LogProtocol instead.
- FileSystem.FileSys.Balloc: the bitmap blocks are one byte sequence; reading and releasing each bitmap buffer is not repeated here.
- Mkfs.Image.Iappend: the image has blocks left for the data, which `mkfs.c` does not test.
- Mkfs.Image.Lookup: likewise.
- Mkfs.Image.Ialloc: inode numbers stay below NINODES, which `mkfs.c` does not test.
- Heap.Allocator.Malloc: the eight request sizes for which the byte count passed to `sbrk` wraps to zero are excluded by precondition; `sbrk` returns ascending regions.
- Heap.Allocator.Free: the argument is a block in use; other pointers are undefined in the source.
- Shell.Parser.ParseExec: redirections met between arguments are collected and wrapped at the end; the source wraps them around the same node as it goes, with the same tree.
- ProcRuns.EveryRunIsSafe: ticks and pids are unbounded, and the scheduler is any choice among runnable processes, since the `ctime` comparison in `scheduler` never takes effect.
- Kernel stacks, contexts, `sched` and `swtch`.
- PhysicalMemory.Memory.Kfree: a double free is excluded by precondition, as the source does not detect it; page pointers are frame numbers.
- AddressSpaces.Deallocuvm: sizes above KERNBASE are excluded by precondition; the source is called with user sizes only.
- AddressSpaces.Lifetime: gives a number of free pages that is enough, not the least one; the exact count is stated call by call.
- `inituvm`, `loaduvm`, `clearpteu`, `uva2ka`, `copyout`, segment set-up and `exec`: they would add only easy members.
- Pipe.Pipe.ReadRegion: lengths are not negative.
- Pipe.NoLostWakeup: runs in which a killed process writes, or a reader acts after the read end closes, are covered by StepJustifiedIff instead.
- Descriptors.Kernel.ForkFiles: the new process's slots are empty, as exit leaves them.
- Descriptors.Session: system calls are not interleaved with each other, which is the subject of DescriptorRuns.
- DescriptorRuns.EveryRun: inodes behind descriptors are not counted; filealloc may take any free file, not only the first.
- Mkfs.Mount: the bitmap is one block, as for any image of fewer than 4096 blocks; type, link count and device numbers of an inode are not stored.
- PageTables.FlatDecides: rights as user code and kernel writes see them; CR0.WP, caching and dirty bits are not modelled.
- Directories, path lookup, links and `iput`'s reference counts.
- The line-buffering loop of `grep`, the other user programs, HW1 and HW2.
