# A verified model of the 64-bit xv6 kernel and its shell

This project models the parts of the system whose correctness is hard to see from the code, and
proves what they are for:

- the redo log with group commit (`LogMachine`, `LogSafety`, `LogPanic`, `KernelLog`) over the buffer cache
  (`BufRing`, `Bcache`);
- the block and inode layer (`FsImage`, `FsBytes`, `FsTrunc`, `Fs`, `FileWrite`), a crash in the middle
  of a write (`FileCrash`), the image builder (`Mkfs`), path names (`Paths`) and directories (`Dirs`);
- four-level page tables and the frame allocator (`PageTable`, `Vm`);
- the user heap allocator (`FreeRing`, `Umalloc`);
- the shell's parser (`ShellGrammar`, `ShellSyntax`, `ShellPrint`, `ShellAppend`, `Shell`);
- the console line editor and its screen (`ConsoleLine`, `ConsoleKeys`, `ConsoleScreen`, `Console`);
- processes (`ProcMachine`, `ProcTable`), pipes (`PipeMachine`, `KernelPipe`) and open files
  (`FileRefs`, `FileTable`).

Code that updates things in place is a class with the source's fields, and each method is proved
against a function or an invariant on values; protocols are state machines whose steps are the
regions the source runs under a lock, and the theorems speak of every run. `Arithmetic` holds a few
division facts; `Common` holds Option and the device by which a predicate is kept folded where it is
only passed on. `dafny verify dfyconfig.toml` checks everything.

Where the code does not do what one would expect, the model follows the code and a lemma says
exactly when:

- `log_write` panics when every slot is taken even if the block would only be absorbed
  (`LogSafety.PanicExactly`, `LogPanic.AbsorbedWritePanics`);
- `filewrite` sizes its transactions from LOGSIZE, so that one can log 17 blocks where `begin_op` reserves
  10, and two of them can panic (`LogPanic.LargeWritesPanic`);
- the log mkfs makes has LOGSIZE blocks, one slot fewer than reservations may fill: two operations that
  both pass the test for the last slot overrun it (`LogPanic.SmallLogOverruns`); with one block more
  that cannot happen while operations keep to their reservations (`LogSafety.NoOverrun`);
- mkfs rounds a directory size that is a multiple of 512 up to a block it never handed out
  (`Mkfs.RoundingSettles`, `Mkfs.DirectoryOf32`);
- `growproc` down to size 0 unmaps the pages and then reports an error with the old size kept
  (`Vm.Machine.GrowProc`, `Vm.ShrinkToNothing`);
- a killed writer leaves a pipe it has just filled without waking the readers
  (`PipeMachine.StrandsExactly`, `PipeMachine.StrandedRun`);
- `kill(0)` marks an unused slot, and the next child made in it is born killed
  (`ProcMachine.CleanExactly`, `ProcMachine.BornKilled`);
- `>>` builds the same tree as `>` (`ShellAppend.AppendTruncates`);
- the console compares counters that wrap, so that for the line typed across 2^32 the left and right
  keys stop, erasing takes the wrong byte, typing overwrites, and a line that fills the buffer can leave
  the cursor behind in it (`ConsoleLine.PressExactly`, `ConsoleLine.SlipsExactly`,
  `Console.Tty.HandleInput`).

## Model

| member | source | states |
|---|---|---|
| LogSafety.StepKeeps | src/log.c:67-217 | every step of the log protocol, and a crash, keeps the invariant: the disk recovers to the committed groups, logged blocks are pinned, a commit runs alone, and reservations fit as long as they are kept |
| LogSafety.RunInv | src/log.c:67-217 | the invariant holds in every state of every interleaving of begin_op, log_write, end_op, commit, recovery and crashes |
| LogSafety.CrashSafety | src/log.c:67-217 | at any point of any run, a crash and a recovery leave the home blocks as after a whole number of committed groups, each made of whole operations; no committed group is ever lost or changed |
| LogSafety.RecoveredAs | src/log.c:110-116 | once the header is empty again the home blocks are those that recovery owed before |
| LogSafety.GroupsGrow | src/log.c:180-188 | the list of committed groups only grows, through crashes and interrupted recoveries |
| LogSafety.ServedView | src/log.c:199-217 | a read through the cache sees the committed state with the open group's writes on top; with no operation open the disk holds exactly the committed state |
| LogSafety.AdmissionSafety | src/log.c:119-162 | no block is logged twice, each has a slot, committing implies no outstanding operation; whoever sleeps in begin_op would be refused if it tried again, so no wake-up is lost; while operations keep to their reservations, logged blocks plus unspent reservations fit LOGSIZE |
| LogSafety.NoOverrun | src/log.c:199-217 | with more than LOGSIZE blocks of log the list overruns it only if an operation exceeds its reservation |
| LogSafety.PanicExactly | src/log.c:199-207 | log_write's size panic happens exactly when every slot is taken; if reservations were kept every open operation has then spent its own |
| LogPanic.AbsorbedWritePanics | src/log.c:199-207 | a run in which every operation keeps its budget and a write of a block logged already panics |
| LogPanic.LargeWritesPanic | src/file.c:148 | a run in which two operations log no more than filewrite allows its transactions, and one panics |
| LogPanic.SmallLogOverruns | src/mkfs.c:31 | with at most LOGSIZE blocks of log, a run in which operations keep their reservations and the list overruns the log |
| LogSafety.NoEndPanic | src/log.c:137-147 | end_op's and log_write's other panics are unreachable |
| LogSafety.InstallKeepsRecovery | src/log.c:67-79 | installing any prefix of the log leaves what recovery would compute unchanged |
| LogSafety.HeadWriteCommits | src/log.c:94-108 | the one header write turns the recovered state from the old group sequence to the one with the new group |
| LogSafety.ExtendRun | src/log.c:119-217 | an enabled step extends a run, so a recorded trace of the code is a run |
| KernelLog.Log.InstallTrans | src/log.c:67-79 | the copy loop is a sequence of install steps of a run |
| KernelLog.Log.WriteHead | src/log.c:94-108 | the header block holds n and the block list, the rest of the block as it was |
| KernelLog.Log.ReadHead | src/log.c:82-92 | the in-memory header becomes the list on disk |
| KernelLog.Log.RecoverFromLog | src/log.c:110-116 | home blocks end as the recovered state of the disk found at power-on |
| KernelLog.Log.BeginOp | src/log.c:119-133 | admitted exactly when no commit runs and the reservation fits, else asleep |
| KernelLog.Log.FindSlot | src/log.c:208-214 | the first slot that already holds the block, else the end |
| KernelLog.Log.LogWrite | src/log.c:199-217 | the block is pinned and listed once; absorption leaves the list alone |
| KernelLog.Log.WriteLog | src/log.c:165-177 | every cached block is copied to its slot, one disk write a step |
| KernelLog.Log.Commit | src/log.c:179-188 | the pending events become one more committed group and the header is cleared |
| KernelLog.Log.EndOp | src/log.c:137-162 | commits exactly when the last operation ends, leaves an empty log then, and wakes everyone asleep in begin_op either way |
| BufRing.MoveFirst | src/bio.c:122-130 | brelse's six pointer writes move one buffer to the front of a doubly linked ring and keep the order of the rest |
| Bcache.Cache.constructor | src/bio.c:38-54 | binit builds a ring of all buffers with consistent links |
| Bcache.Cache.FindCached | src/bio.c:65-73 | finds a buffer exactly when the block is cached |
| Bcache.Cache.FindFree | src/bio.c:78-88 | the least recently released buffer that is unreferenced and clean |
| Bcache.Cache.Bget | src/bio.c:60-90 | a cached buffer is shared; otherwise only an unreferenced clean one is recycled; panics exactly when there is none; one buffer per block of a real device |
| Bcache.Cache.Acquire | src/bio.c:67-71 | a waiting process becomes the owner; the references stay counted |
| Bcache.Cache.Iderw | src/memide.c:34-54 | a dirty buffer goes to its block and no other, another is read from it; panics exactly for another device or a block past the disk, changing nothing |
| Bcache.Cache.Bread | src/bio.c:94-102 | the buffer holds the content last stored in its block; panics exactly where iderw does |
| Bcache.Cache.Bwrite | src/bio.c:105-110 | the disk holds the buffer's content and no other block changes; panics exactly for a block past the disk |
| Bcache.Cache.ReleaseLock | src/bio.c:114-118 | the owner becomes a process that is leaving and still counts as a reference; the cache stays coherent between this and the next step |
| Bcache.Cache.Unreference | src/bio.c:120-132 | one reference fewer; the list stays a permutation of the buffers; an unreferenced buffer becomes the most recent |
| Bcache.RecycleKeeps | src/bio.c:78-84 | recycling a clean unreferenced buffer loses no content |
| Bcache.UpdateKeeps | src/bio.c:94-133 | reading, storing, writing and releasing one block keeps every other block coherent |
| PageTable.PathRoundTrip | src/vm.c:149-189 | distinct user pages have distinct paths of table indices |
| PageTable.PageRoundTrip | src/vm.c:149-189 | and every path belongs to a page |
| PageTable.StoreTranslates | src/vm.c:198-216 | a store to one leaf entry changes the translation of that page only |
| PageTable.GraftTableTranslates | src/vm.c:150-189 | hanging an empty table into the tree changes no translation |
| PageTable.GraftPageTranslates | src/vm.c:198-216 | hanging a frame into a leaf maps exactly that page |
| PageTable.PrunePageTranslates | src/vm.c:292-312 | clearing a leaf unmaps exactly that page |
| PageTable.MappedIsLeaf | src/vm.c:150-189 | the frame a page translates to is a leaf of the tree |
| Vm.Machine.WalkPgdir | src/vm.c:150-189 | reads only without alloc; with alloc adds at most three tables, which no translation can see, and reaches the leaf table |
| Vm.Machine.MapPage | src/vm.c:198-216 | maps exactly that page to that frame and flags; panics exactly on a mapped page |
| Vm.Machine.AllocUvm | src/vm.c:259-285 | exactly the pages of the rounded interval become mapped, to distinct zeroed frames; runs out of frames only when fewer than four a page are free |
| Vm.Machine.DeallocUvm | src/vm.c:292-312 | exactly the pages of the rounded interval become unmapped, and the free frames grow by exactly the frames they were mapped to |
| Vm.Machine.SetupKvm | src/vm.c:97-102 | a new address space with nothing in it but the shared kernel table |
| Vm.Machine.CopyUvm | src/vm.c:376-402 | the child has the parent's bytes and flags on every page, on disjoint frames, and the parent's layout; the parent is untouched |
| Vm.LayoutFits | src/memlayout.h:4 | a process whose pages lie in distinct frames is smaller than 2^32 bytes, so copyuvm's 32-bit size loses nothing |
| Vm.Machine.FreeVm | src/vm.c:316-360 | every frame of the address space goes onto the free list exactly once, nothing else does, never the kernel table |
| Vm.Machine.ForkThenReap | src/vm.c:316-402 | after copyuvm and freevm the free frames are the same set as before |
| Vm.Machine.GrowProc | src/proc.c:105-119 | mapped pages stay [PGSIZE, PGROUNDUP(sz)) exactly when the new size is not 0 or there was no page to lose |
| Vm.ShrinkToNothing | src/proc.c:105-119 | sz = 2 * PGSIZE and n = -sz: an error, the old size, and no page left |
| Vm.Machine.Kalloc | src/kalloc.c:68-83 | takes one frame out of the set of free ones, which nobody holds and which is not the kernel's table, and keeps the list linked; panics exactly when no frame is free |
| Vm.Machine.Kfree | src/kalloc.c:47-63 | the frame joins the set of free ones, with the link in its first word and junk in the rest, and the list stays linked through the frames |
| Vm.Machine.FreeRange | src/kalloc.c:36-41 | every frame of the range goes onto the list once |
| Vm.Machine.KvmAlloc | src/vm.c:109-116 | the kernel's table is a frame that is not free |
| Vm.Machine.constructor | src/kalloc.c:25-41 | after boot the free list is linked, distinct and without the kernel's table |
| FsImage.Allocate | src/fs.c:50-68 | taking a free block keeps the bitmap equal to metadata plus named plus held blocks |
| FsImage.Release | src/fs.c:72-84 | giving a held block back does too |
| FsImage.FlipBit | src/fs.c:56-60 | the mask arithmetic changes one bit of a byte and no other |
| FsImage.WordSet | src/fs.c:345-350 | storing one entry of an indirect block changes that entry only |
| FsImage.LinkInode | src/fs.c:332-342 | linking a fresh block into an inode entry keeps every block owned by one slot |
| FsImage.LinkListed | src/fs.c:343-351 | linking it into an indirect block does too |
| Mkfs.Builder.constructor | src/mkfs.c:182-203 | the zeroed image, with its metadata blocks taken, is settled |
| Mkfs.Builder.Ialloc | src/mkfs.c:371-381 | the next inode becomes an empty one of that type, and no content changes; none when the inodes are used up |
| Mkfs.Builder.MapBlock | src/mkfs.c:413-428 | the block of that number, handed out in order when missing; every block stays named once |
| Mkfs.Builder.Iappend | src/mkfs.c:399-439 | exactly those bytes are appended to the inode, no other inode changes, and the image stays settled |
| Mkfs.Builder.Balloc | src/mkfs.c:383-395 | with the bitmap written, the image on disk is a settled file system with the same contents |
| Mkfs.RoundingSettles | src/mkfs.c:313-319 | rounding a directory's size keeps the image settled exactly when the size is not a multiple of 512 |
| Mkfs.DirectoryOf32 | src/mkfs.c:313-319 | a directory of 32 entries is such a one |
| Mkfs.Mount | src/mkfs.c:383-395 | what the builder leaves is what the kernel's file system starts from, with the same contents and every inode in use typed |
| FsImage.EmptyImage | src/mkfs.c:182-203 | an image with its metadata marked and no files is settled |
| FsTrunc.TruncatedSettles | src/fs.c:362-388 | an inode whose entries are all cleared has size 0 and the others their bytes |
| FsTrunc.LogBound | src/file.c:140-148 | a write of n bytes logs at most its data blocks plus four others when the bitmap is one block |
| Fs.FileSystem.constructor | src/fs.c:152-160 | a settled image, mounted with an empty inode cache, satisfies what every operation keeps |
| Fs.FileSystem.Balloc | src/fs.c:50-68 | the lowest free block, marked and zeroed; none exactly when the disk is full |
| Fs.FileSystem.Bfree | src/fs.c:72-84 | the block is no longer in use and every other block is in use exactly if it was; panics exactly on a block that is not in use |
| Fs.FileSystem.Bmap | src/fs.c:328-354 | the block of that number, allocated when missing; no other block number of any inode changes |
| Fs.FileSystem.WriteI | src/fs.c:424-449 | replaces exactly bytes [off, off+n), grows the size only when needed, changes no other inode, refuses exactly the cases writei refuses, leaves the inode on disk equal to the cached one, and logs every block it changes |
| Fs.FileSystem.ReadI | src/fs.c:401-420 | returns the slice of the inode's bytes cut at its size, and allocates nothing |
| Fs.FileSystem.Itrunc | src/fs.c:362-388 | the inode becomes empty, its blocks are freed without bfree's panic, every other inode keeps its bytes |
| Fs.FileSystem.Ialloc | src/fs.c:172-190 | the first free inode becomes an empty one of that type; none exactly when all are taken |
| Fs.FileSystem.Ilock | src/fs.c:256-279 | the cached inode is the one on disk; panics exactly on a free inode |
| Fs.FileSystem.Iupdate | src/fs.c:193-207 | the inode on disk becomes the cached one |
| Fs.FileSystem.Iput | src/fs.c:296-309 | the last reference to an unlinked inode frees it and its blocks, any other changes nothing |
| FileWrite.OverwriteTwice | src/file.c:149-166 | two adjacent overwrites are one |
| FileWrite.ChunkBound | src/file.c:140-148 | a chunk logs at most 17 blocks, fewer than LOGSIZE |
| FileWrite.WriteChunk | src/file.c:149-162 | one transaction appends the next chunk to what the file holds, logs every block it changes and stays within the bound |
| FileWrite.FileWrite | src/file.c:126-171 | the chunk loop is one contiguous write; if a chunk is refused the ones before it are written; between transactions the file holds a whole number of chunks; every transaction fits the log |
| FileCrash.OperationApplies | src/file.c:153-158 | what a transaction passes to log_write, applied to the home blocks before it, gives the home blocks after it |
| FileCrash.CommitsWhole | src/log.c:137-188 | while one process alone logs, what has been committed is a whole number of its operations |
| FileCrash.HomeDetermines | src/fs.h:28-47 | the home blocks determine the inodes, the bitmap and the data |
| FileCrash.CrashLeavesWholeChunks | src/file.c:126-171 | a crash at any point of a filewrite, and recovery, leave the file with a whole number of chunks written and every other byte of it and of other files as it was |
| Paths.NamesWalk | src/sysfile.c:468-520 | looking up from the root the names found on the climb leads back to the directory |
| Paths.NamexWalks | src/fs.c:557-587 | namex on "/a/b/c" looks up a, b and c in turn |
| Paths.PathResolves | src/fs.c:528-593 | the path of a directory resolves to it from any current directory |
| Paths.RelativeWalks | src/fs.c:557-587 | namex on "a/b/c" looks up a, b and c in turn, starting at the current directory |
| Paths.Composes | src/fs.c:528-587 | resolving p + "/" + s is resolving p and then s from there, for any p and relative s |
| Paths.RelativeToCwd | src/fs.c:557-587 | a relative path means the same as the current directory's path in front of it |
| Paths.ElementIs | src/fs.c:529-550 | an element is the bytes between slashes, cut at 14 |
| Paths.DirLookup | src/fs.c:461-483 | the first used entry of that name |
| Paths.SkipElement | src/fs.c:529-550 | the next element, cut at DIRSIZ, and the rest without leading slashes |
| Paths.Resolve | src/fs.c:557-587 | the loop computes the lookup of every element in turn |
| Dirs.ParentThenLookup | src/fs.c:557-587 | nameiparent followed by a lookup of the name it returns is namei |
| Dirs.ParentComposes | src/fs.c:557-593 | the parent of p + "/" + s is the parent of s seen from p |
| Dirs.RelativeParent | src/fs.c:557-593 | the parent of one name is the current directory, and of p + "/" + name the directory p |
| Dirs.ResolveParent | src/fs.c:557-593 | the loop in its nameiparent mode computes the directory and the last element |
| Dirs.LookupIs | src/fs.c:461-483 | a name is found exactly where a used entry has it |
| Dirs.DirLink | src/fs.c:486-511 | adds one used entry and keeps the others, names staying distinct; refuses exactly a name that is there |
| Dirs.CreateKeeps | src/sysfile.c:237-279 | a new file or directory keeps the tree well formed: every directory reaches the root through its parents |
| Dirs.CreateResolves | src/sysfile.c:237-279 | every path that led somewhere leads there still, and the created path leads to the new node |
| Dirs.Create | src/sysfile.c:237-279 | returns the file already there or the new node, and nothing exactly when the path has no parent directory or the name is taken by a directory or for one |
| Paths.GetCwd | src/sysfile.c:455-529 | terminates, and succeeds exactly when the path fits 512 bytes and the caller's buffer |
| Paths.CwdRoundTrip | src/sysfile.c:455-529 | whatever sys_getcwd returns, namex resolves to the current directory |
| FreeRing.InsertRing | src/umalloc.c:31-40 | putting a block between its neighbours keeps the ring sorted, closed and without overlap |
| FreeRing.MergeRing | src/umalloc.c:31-40 | so does merging a block with the one it touches |
| FreeRing.FreeKeeps | src/umalloc.c:24-42 | free moves exactly the block's units to the free list and leaves no two free blocks touching |
| FreeRing.TakeWhole | src/umalloc.c:71-72 | an exact fit leaves the ring and becomes live |
| FreeRing.TakeTail | src/umalloc.c:73-77 | the tail of a larger block becomes live and the links stay |
| FreeRing.ObtainKeeps | src/umalloc.c:45-58 | memory from sbrk joins the arena as a block |
| FreeRing.Canonical | src/umalloc.c:24-85 | the free list, link for link, is determined by the memory obtained and the live blocks |
| Umalloc.UnitsFor | src/umalloc.c:64 | the fewest units that hold a header and nbytes |
| Umalloc.CoreUnits | src/umalloc.c:47-50 | what is asked of sbrk is what is wanted, and at least 4096 units |
| Umalloc.StopsInGap | src/umalloc.c:28-30 | free's search stops exactly where the block belongs |
| Umalloc.Allocator.FindPlace | src/umalloc.c:28-30 | the search terminates there |
| Umalloc.Allocator.Free | src/umalloc.c:24-42 | the block is no longer live, memory is conserved, the invariant holds |
| Umalloc.Allocator.Morecore | src/umalloc.c:45-58 | on success a free block of that size exists; a refusal changes nothing |
| Umalloc.Allocator.Malloc | src/umalloc.c:60-85 | terminates; asks for memory at most once and only when nothing fits; fails only when refused; the result is new, large enough, and no other block changes |
| Umalloc.Allocator.MallocThenFree | src/umalloc.c:24-85 | malloc and free of what it returned give back the same free list |
| ShellGrammar.GetToken | src/sh.c:881-922 | a word token is a maximal run of word characters; only the end gives no progress |
| ShellGrammar.ParseLine | src/sh.c:956-969 | terminates; the tree's words are words of the line and no command has 10 arguments |
| ShellGrammar.ParseExec | src/sh.c:1023-1052 | the same for a simple command or block |
| ShellSyntax.SpellsExactly | src/sh.c:881-922 | gettoken reads exactly the tokens a text spells: words as long as they can be, `>>` before `>`, blanks anywhere |
| ShellSyntax.RedirsParse | src/sh.c:984-1005 | redirections one after the other are collected in order |
| ShellSyntax.ArgsParsed | src/sh.c:1036-1050 | words, each with redirections after it, give the argument list and the redirections in order |
| ShellSyntax.CommandParses | src/sh.c:1023-1052 | a simple command with redirections before, among and after its words, or a block with redirections after it, gives its tree |
| ShellSyntax.PipelineParses | src/sh.c:972-981 | `x | y | z` nests to the right |
| ShellSyntax.LineParsed | src/sh.c:956-969 | `&` and `;` apply to whole pipelines, and what follows `;` is the rest of the line |
| ShellSyntax.LineFrom | src/sh.c:956-1052 | whatever the parser accepts is a concrete line, and its tree is that line's |
| ShellSyntax.ParsesExactly | src/sh.c:940-1052 | the parser gives a tree for exactly the texts of the concrete lines with that tree, and panics on every other text |
| ShellPrint.LineIsTree | src/sh.c:940-1052 | every tree with valid words and at most 9 arguments a command has a concrete line |
| ShellPrint.RoundTrip | src/sh.c:940-1052 | every such tree is parsed back from its text |
| ShellPrint.FewestLine | src/sh.c:940-1052 | no concrete line of the tree has fewer parentheses than that text |
| ShellAppend.AppendTruncates | src/sh.c:984-1005 | for every line and every `>>` token in it, the line with `>` in its place has the same parse, spans and words included |
| Shell.Parser.GetToken | src/sh.c:881-922 | the scanning loops compute the token |
| Shell.Parser.Peek | src/sh.c:924-932 | and the peek |
| Shell.Parser.ParseRedirs | src/sh.c:984-1005 | the loop collects the redirections, or dies where a file is missing |
| Shell.Parser.ParseLine | src/sh.c:956-969 | the recursive descent computes the grammar's parse or its panic |
| Shell.Parser.ParsePipe | src/sh.c:972-981 | likewise |
| Shell.Parser.ParseBlock | src/sh.c:1008-1020 | likewise |
| Shell.Parser.ParseExec | src/sh.c:1023-1052 | likewise |
| Shell.Parser.NulTerminate | src/sh.c:1056-1098 | writes a NUL at the end of every word and nowhere else |
| Shell.EndsOutside | src/sh.c:1056-1098 | none of those places lies inside a word |
| Shell.TreeReads | src/sh.c:1056-1098 | every pointer of the tree then reads as the word it was parsed from |
| Shell.ParseCommand | src/sh.c:940-953 | both together on the buffer: the parse or its panic, and the strings read back |
| ConsoleLine.PressKeeps | src/console.c:319-465 | a key keeps the line within its 128 bytes, a full buffer has nothing left being typed, ready bytes stay, whatever the counters do |
| ConsoleLine.SlipsExactly | src/console.c:271-458 | a comparison of counters comes out wrong exactly when they have wrapped between its two sides |
| ConsoleLine.PressExactly | src/console.c:319-465 | a key does what it does on unbounded counters exactly when none of the comparisons it relies on slips, or the bytes it would move are all the same |
| ConsoleLine.SafeKeys | src/console.c:319-465 | so every key does while the text ends below 2^32 |
| ConsoleLine.LeftKeyLost | src/console.c:322-326 | one byte typed at counter 2^32 - 1: the left key does nothing |
| ConsoleLine.ErasesWrongByte | src/console.c:410-413 | erasing across the wrap takes the last byte |
| ConsoleLine.TypesOver | src/console.c:447-450 | typing across the wrap overwrites a byte and takes in a stale one |
| ConsoleKeys.ReturnKey | src/console.c:427-436 | Return hands over the typed line and a newline, wherever the cursor is |
| ConsoleKeys.EndKey | src/console.c:427-436 | control-D hands it over with an end-of-file mark |
| ConsoleKeys.TabKey | src/console.c:379-386 | Tab hands it over with a tab and keeps the draft |
| ConsoleKeys.RawKey | src/console.c:366-372 | in raw mode each byte is ready at once |
| ConsoleKeys.KillKey | src/console.c:375-378 | control-U leaves the line up to its last newline, and forgets the draft |
| ConsoleKeys.HistoryKey | src/console.c:387-398 | a history key saves the line once, clears it and is handed over |
| ConsoleKeys.ArrowKeys | src/console.c:321-352 | left and right move the cursor inside the line, as bytes and as escape sequences |
| ConsoleKeys.Sequences | src/console.c:333-359 | ESC [ A and ESC [ B are the history keys, any other sequence is swallowed |
| ConsoleKeys.EraseKey | src/console.c:399-422 | the byte before the cursor goes; at the start of the line the key is handed over |
| ConsoleKeys.TypeKey | src/console.c:423-462 | a byte goes in at the cursor, and a line that fills the buffer is handed over |
| ConsoleKeys.DeadKeys | src/console.c:361-424 | NUL and control-Z leave the line alone |
| ConsoleKeys.ReplacesLine | src/console.c:295-316 | history's text takes the place of the line, cut where the buffer ends |
| ConsoleKeys.TypingRuns | src/console.c:319-465 | over any run of typing, erasing and arrows the line is that of an editor holding the bytes before and after the cursor |
| ConsoleKeys.TypedLine | src/console.c:319-465 | and Return adds exactly that line and a newline to what readers get |
| ConsoleKeys.ReadsTypedLine | src/console.c:319-514 | so that a read of enough bytes returns the line as it was edited |
| ConsoleKeys.RawRead | src/console.c:505-507 | in raw mode a read takes one byte |
| ConsoleLine.ReplaceKeeps | src/console.c:296-316 | so does a replacement from history |
| ConsoleLine.EraseUndoesTyping | src/console.c:399-462 | typing a byte at the cursor and erasing it gives the line back |
| ConsoleLine.RunKeeps | src/console.c:268-514 | over every run of keys, replacements and reads, whatever the counters do |
| ConsoleLine.StreamGrows | src/console.c:268-514 | bytes once committed are delivered in order and unaltered |
| ConsoleLine.NeverStuck | src/console.c:366-463 | there is always a byte to read or room to type |
| ConsoleLine.DeliversInOrder | src/console.c:481-514 | a read returns a prefix of the ready bytes; an end-of-file mark is swallowed only as the first byte |
| ConsoleLine.DraftRestored | src/console.c:280-316 | going into history, browsing and coming back restores the line as typed |
| ConsoleScreen.Screen.Scroll | src/console.c:167-172 | the rows move up one and the last is blank |
| ConsoleScreen.Screen.Putc | src/console.c:148-178 | one cell changes, the cursor advances, scrolling keeps the cells still visible |
| ConsoleScreen.Screen.RedrawDeleted | src/console.c:414-420 | the screen shows the text that the deletion left, cursor in place |
| ConsoleScreen.Screen.RedrawInserted | src/console.c:451-455 | the screen shows the text with the inserted byte, cursor after it, when the redraw is not skipped |
| Console.Tty.Put | src/console.c:431-449 | a store modulo 128 touches no other byte of the window |
| Console.Tty.ClearLine | src/console.c:268-278 | the text back to its last newline is erased from ring and screen |
| Console.Tty.DeleteChar | src/console.c:410-421 | the shift loop removes the byte before the cursor, from ring and screen, or the last byte when the loop's comparison slips |
| Console.Tty.InsertChar | src/console.c:437-462 | the shift loop inserts at the cursor, or overwrites when its comparison slips; a full buffer is handed over, and the cursor is left behind exactly when the walk to the end slips |
| Console.Tty.SaveHistoryDraft | src/console.c:283-293 | the draft is the typed text as a C string |
| Console.Tty.HandleInput | src/console.c:319-465 | for all values of the 32-bit counters the ring ends as the line editor's step with the comparisons that slip; the cursor stays inside the text exactly when no slipped insertion fills the buffer; the screen shows the text unless a counter wraps |
| Console.Tty.ReplaceInput | src/console.c:295-316 | computes the replacement, and the screen shows it unless it holds a newline |
| Console.Tty.Read | src/console.c:481-514 | delivers what the specification of a read delivers, across the wrap too |
| ProcMachine.ExitKeeps | src/proc.c:166-204 | exit keeps the family invariant: children pass to init, waiting parents are woken |
| ProcMachine.WaitKeeps | src/proc.c:209-246 | wait keeps it: it reaps a zombie, fails, or sleeps only with none |
| ProcMachine.AllocateKeeps | src/proc.c:33-50 | allocproc keeps it |
| ProcMachine.LaunchKeeps | src/proc.c:141-159 | the end of fork keeps it |
| ProcMachine.RunKeeps | src/proc.c:33-418 | it holds in every run |
| ProcMachine.LeadsToInit | src/proc.c:125-246 | parent pointers lead to init through processes that are up |
| ProcMachine.FamilySafety | src/proc.c:33-418 | in every run: parents are alive with smaller pids, all lead to init, nobody sleeps in wait with a zombie child |
| ProcMachine.KillHits | src/proc.c:402-418 | kill changes only the slot it finds, a process's exactly when the pid is not 0 |
| ProcMachine.ForkChild | src/proc.c:125-159 | fork makes a runnable child with a new pid and changes no other process |
| ProcMachine.SleepWakes | src/proc.c:350-390 | a sleeper is woken by its own channel and by no other |
| ProcMachine.CleanExactly | src/proc.c:402-418 | free slots carry no kill, exactly until kill(0) finds one |
| ProcMachine.BornKilled | src/proc.c:33-159 | after kill(0) the next child of any process starts killed |
| ProcMachine.KilledFirstChild | src/proc.c:33-159 | a run from boot in which it does |
| ProcTable.Ptable.Wakeup1 | src/proc.c:384-390 | every sleeper on that channel becomes runnable, and no other slot changes |
| ProcTable.Ptable.AllocProc | src/proc.c:33-50 | the loop performs the allocation step and returns the slot, with a new pid, or none exactly when no slot is unused |
| ProcTable.Ptable.ExitProc | src/proc.c:186-202 | the process becomes a zombie, its children and only they go to init, its sleeping parent becomes runnable |
| ProcTable.Ptable.Abandon | src/proc.c:191-198 | every child goes to init, which is woken if one is a zombie |
| ProcTable.Ptable.WaitProc | src/proc.c:209-246 | one scan performs the wait step: a zombie child's slot becomes free and its pid is returned, or -1, or the process sleeps, each exactly when it should; no other slot changes |
| ProcTable.Ptable.KillPid | src/proc.c:402-418 | performs the kill step and reports whether a slot was found |
| PipeMachine.DoKeeps | src/pipe.c:57-113 | every step keeps: sent bytes are received bytes and the queue, a writer sleeps only on a full open pipe, never a reader and a writer asleep together |
| PipeMachine.RunKeeps | src/pipe.c:57-113 | in every interleaving what was read is a prefix of what was written |
| PipeMachine.KillWakes | src/proc.c:402-418 | a killed process inside the pipe wakes up, and no other one does |
| PipeMachine.StrandsExactly | src/pipe.c:79-86 | a reader is left asleep with bytes to read exactly when a writer gives up on a pipe it has filled |
| PipeMachine.StrandedRun | src/pipe.c:79-86 | a run that does so |
| KernelPipe.FullTest | src/pipe.c:79 | the wrapping counters tell full and empty apart |
| KernelPipe.PipeBuffer.PipeWrite | src/pipe.c:74-92 | puts in what fits, in order, wakes the readers, and returns n, -1 exactly when the writer gives up, or goes to sleep with the rest |
| KernelPipe.PipeBuffer.PipeRead | src/pipe.c:94-113 | takes the next bytes in order and returns their number, -1 exactly when killed on an empty open pipe, or goes to sleep; the writers are woken |
| KernelPipe.PipeBuffer.PipeClose | src/pipe.c:57-71 | shuts that end and no other and wakes whoever sleeps for it; last exactly when both ends are shut |
| FileRefs.EndsOpenExactly | src/pipe.c:57-71 | between system calls a pipe page exists, and an end is open, exactly while a descriptor names that end |
| FileRefs.DropLast | src/file.c:55-77 | closing the last reference keeps references and pipe ends in step |
| FileRefs.BecomePipe | src/pipe.c:31-43 | the two new files are the ends of the new pipe |
| FileTable.Files.FileAlloc | src/file.c:28-41 | a file nobody refers to, or none exactly when all are referred to |
| FileTable.Files.FileClose | src/file.c:55-77 | one reference fewer; the last one frees the file and shuts its pipe end |
| FileTable.Files.FdAlloc | src/sysfile.c:40-50 | the lowest free descriptor, or none exactly when all are taken |
| FileTable.Files.SysDup | src/sysfile.c:52-62 | the lowest free descriptor becomes one more for the file, or, exactly when fd is not open or none is free, nothing changes |
| FileTable.Files.SysClose | src/sysfile.c:84-93 | the descriptor is gone and its reference dropped |
| FileTable.Files.SysOpen | src/sysfile.c:311-327 | a new file on the lowest free descriptor, or, exactly when a file or a descriptor is missing, nothing changes |
| FileTable.Files.PipeAlloc | src/pipe.c:22-55 | two files and a pipe, or, exactly when two files are not free, nothing changes |
| FileTable.Files.SysPipe | src/sysfile.c:408-428 | the two lowest free descriptors, or, exactly when two files or two descriptors are not free, nothing changes and the page is given back once |
| FileTable.Files.ForkFiles | src/proc.c:147-149 | the child's descriptors are the parent's, references counted |
| FileTable.Files.ExitFiles | src/proc.c:173-179 | no descriptor of the process is left and no other one changes |

## Left out

- `log_write`'s test before the lock is a step of its own; locks are atomic regions and sleep locks exclusive ownership; disk writes are atomic per block as in src/memide.c, and interrupts and barriers are not modelled. A list that has overrun the log ends the run: what a commit would then write past it is not modelled. That nobody logs a block of the log itself is assumed.
- KernelLog.Log.LogWrite: no other process steps between its test and the lock inside this method; the machine has them as two steps.
- KernelLog.Log.Commit: no begin_op of another process, which could only go to sleep, steps inside it; the machine allows it between any two writes.
- KernelLog.Log.EndOp: likewise for the commit it contains.
- The log and the cache are two models: the log's pinned blocks are the cache's dirty buffers.
- FileCrash.CrashLeavesWholeChunks: one process logs while the write runs, and each block's last log_write is taken to carry the content the transaction leaves in it, which the order of stores and log_write calls in src/fs.c gives.
- Vm.Machine.MapPage: does not model the loop over several pages, because every caller passes one page.
- Vm.Machine.FreeVm: its four nested loops are one recursive method per level, and walkpgdir's three copies of the descent are one loop.
- Vm: user addresses are below 2^47; copyout, loaduvm, inituvm and the permission bits of kernel mappings are not modelled.
- Fs: inode reference counts and locks are not modelled. A full disk, where balloc panics, is a None result.
- Fs.FileSystem.Iupdate: a dinode is a record beside the blocks; `FileCrash` gives its bytes.
- Fs.FileSystem.Iput: whether this is the last reference is a parameter.
- Mkfs: which files and directories go into the image, and the bytes of the superblock, are not modelled; the bitmap is one block. Iappend and Ialloc stop where the source would write past its image or its inodes, which it does not test.
- Paths.DirLookup: directory entries are values and are not read through readi.
- Paths.Resolve: leaves out the references namex takes and drops; the nameiparent mode is Dirs.ResolveParent.
- Dirs.Create: which inode ialloc finds is a parameter, a device is not told from a file, and names have 1 to 13 bytes (src/sysfile.c:508 takes the length of a name that has no terminator when it has 14). Link counts, sys_link and sys_unlink are not modelled.
- FileWrite.WriteChunk: begin_op and end_op only delimit the blocks logged; that they make the chunk atomic is FileCrash.CrashLeavesWholeChunks.
- FileWrite.FileWrite: does not model the pipe and device branches.
- Umalloc: `base` lies below every address sbrk returns, sbrk's answer is a parameter aligned to headers and disjoint from what was obtained before, and sizes stay below 2^32 units.
- Shell: the tree holds spans instead of pointers, so a simple command's argument array is filled before it is wrapped in its redirections; runcmd, history paging, completion and the jump table are not modelled.
- Console: keys pressed after the cursor was left behind, until a key that sets it again, are not modelled; neither are CONSOLE_RAW_TOGGLE, which resets every counter but the cursor (src/console.c:541), program output in the middle of a line, colours, the serial line and control-Z.
- ConsoleScreen.Screen.RedrawDeleted: says nothing for a text with a newline, which only a replacement or a slipped insertion can bring, because the cursor keys do not cross rows that a newline has cut short.
- ConsoleScreen.Screen.RedrawInserted: likewise, and nothing when the redraw is skipped.
- ProcMachine: fork's memory, context switching and kernel stacks are not modelled; pids do not wrap; a failed allocation of a kernel stack is impossible here because kalloc panics.
- KernelPipe.PipeBuffer.PipeClose: the page's kfree is the result `last`.
- FileTable.Files.FileClose: the iput of an inode's last file is not modelled here.
- FileTable.Files.SysOpen: starts where the path has been resolved, and leaves out the access modes.
- Hardware, boot, traps, system-call argument fetching, exec, ELF loading, printf and the small user programs.
