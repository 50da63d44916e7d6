# A verified model of the xv6 projects and the MapReduce library

The repository holds three xv6 kernel trees, a MapReduce library and a few tools.  This project
models their most intricate parts in Dafny and proves what they are meant to do.  Code that
changes things in place is modelled by classes and methods with loops; what the methods compute
is specified by functions and predicates on values, and the laws are lemmas about those.
`dafny verify dfyconfig.toml` checks everything.

| files | subject |
|---|---|
| `Common` | optional values, bytes, sequences without duplicates |
| `FreeList`, `Umalloc`, `Sbrk` | the user memory allocator: a circular free list kept in address order, over `sbrk` |
| `Blocks`, `FsState`, `FsSteps`, `Fs` | bitmap, block maps, truncation, reading and writing files |
| `Mkfs`, `MkTree` | the tool that builds the first disk image from a directory of the host |
| `Dirs`, `DirFile`, `Paths` | directories as files and as finite maps, path names |
| `BufList`, `BioSpec`, `Bio`, `BlockIo` | the buffer cache and the request queue of the disk driver, and the plain disk on top of them |
| `PipeSpec`, `Pipe` | the pipe: a ring buffer with wrapping counters, and its sleepers |
| `ProcSpec`, `Proc`, `SleepLock` | fork, exit, wait, kill; sleep and wakeup between two locks |
| `MlfqSpec`, `Mlfq` | the four-level feedback scheduler |
| `FileTable`, `Descriptors` | reference counts of open files |
| `VmState`, `VmSpace`, `Vm`, `Kalloc` | page tables, address spaces, frames |
| `MrList`, `MapReduce`, `MapReduceProof`, `WordCount` | MapReduce with the word count client |
| `ShellLex`, `ShellGrammar`, `ShellOrder`, `Shell`, `ShellLaws` | the shell's parser, what its operators mean, and its in-place string termination |
| `Grep` | the regular expression matcher |

The three kernel trees share their file system, cache, pipe, descriptor, shell and allocator
sources, so one copy is modelled.  Page tables and the frame allocators come from the memory
project.  What a model does not decide becomes a parameter: whether `sbrk` finds memory, the random
number of `kalloc`, the answers of device drivers, the frame `kalloc` gives a pipe, what other processes
do during a wait.  A kernel panic ends a call: the states after it are not described, beyond saying when
it happens.

## What the proofs show about the code

- A block from `malloc` holds the request exactly when the request is at most 2^31 - 16 bytes
  (`Umalloc.Allocator.Malloc`).  From 2^31 - 15 to 2^32 - 8 bytes the size passed to `sbrk` is negative or
  0 as an `int`; `sbrk` may answer anyway, and then a block with no memory behind it goes into the free list
  (`Sbrk.HollowGrant`, `Umalloc.HollowGrants` for 2^31 and 2^32 - 8).  Above, the rounding wraps.  For
  every such request but 24, `Umalloc.BrokenPromise` makes a first call that fails; those 24 never get an
  answer other than a refusal or the end of the process (`Umalloc.NeverServed`).
- On a full disk `balloc` returns a number past the end as long as a bit past the end of the disk is clear
  in the last bitmap block, and panics only when none is (`Fs.FileSystem.Balloc`).  The first time a disk
  is full after `mkfs` that number is the size of the disk (`Fs.FirstFullBalloc`).
- A fresh indirect block is never cleared by `bmap`; that its words read as zero rests on `bfree`
  zeroing every block it frees, so the invariant says that every free block is zero.
- `mkfs` rounds the size of the root directory up by a whole block when it is already a multiple of
  the block size, and the last block is then missing (`Mkfs.Image.FixDirSize`); a directory of 32 entries
  is one (`Mkfs.FullBlockDirectory`).
- A directory made by `mkfs` is one for the kernel exactly when the host's names differ in their first
  14 bytes (`MkTree.AddDir`).  When they do everywhere, the kernel's walk along a path finds on the image
  what the path names on the host (`MkTree.PathFound`).
- A writer that gives up at a full pipe returns without a wakeup.  A reader is left asleep beside a
  full pipe in exactly that case (`PipeSpec.StepLosesWakeupIff`, `PipeSpec.KilledWriterLosesWakeup`).
- `kill` also finds unused slots, and allocation does not clear the mark.  A process starts out killed
  exactly when a `kill` hit its slot since the slot was last reaped, or since boot
  (`ProcSpec.KilledBeforeBirth`): after boot `kill(0)` answers 0 and dooms the next `fork`
  (`ProcSpec.KillZeroAfterBoot`).
- `setupkvm` needs thirteen free frames and keeps what it took when there are fewer
  (`Vm.Machine.Setupkvm`).
- `mprotect` and `munprotect` do what they answer for every range below 2^31 bytes, and for those only
  (`Vm.Machine.SysMprotect`).  From there on the size of the range does not fit an `int`, which C leaves
  undefined; with the product cut to 32 bits a range of 2^32 bytes is accepted and nothing is done
  (`Vm.Machine.ProtectNothing`).
- `>>` in the shell is `>`: with every `>>` replaced a line is the same command
  (`ShellGrammar.AppendIsOutput`).  `a & b` is not in the language of the parser
  (`ShellLex.BackgroundLine`).
- Ageing in the scheduler stops at the slot of the running process.  Along any run a process waits one more
  for every dispatch of a later slot and rises exactly when that makes ten time slices
  (`MlfqSpec.WaitCounts`); one behind every dispatched slot never rises (`MlfqSpec.BehindNeverRises`), so
  that a process in slot 0 that boosts itself starves the others for any number of dispatches
  (`MlfqSpec.Starves`), also from an empty table (`MlfqSpec.StarvedFromBoot`).  A promoted process gets the slices of the running one's level.
- The scheduler's invariant ends with the first process that uses up its slice at level 0
  (`MlfqSpec.StepKeepsInv`), and a process that runs alone gets there (`MlfqSpec.ExhaustedReachable`).
- `fork`, `dup` and `pipe` keep reference counts exact on every path, because a file without
  references is always of type FD_NONE, so that closing one after a failed `open` or `pipe` closes
  nothing else.

## Model

| member | source | states |
|---|---|---|
| Umalloc.Allocator.FindSlot | xv6 Scheduler/user/umalloc.c:30-32 | the search loop of free ends, at the block below the freed one, from wherever the roving pointer is |
| Umalloc.SearchStopsAtSlot | xv6 Scheduler/user/umalloc.c:30-32 | the loop's exit test holds at that block and at no other |
| Umalloc.Allocator.Link | xv6 Scheduler/user/umalloc.c:33-42 | the two coalescing tests leave the ring of headers of the merged list and touch two headers |
| Umalloc.Allocator.Free | xv6 Scheduler/user/umalloc.c:24-44 | exactly the block's units join the free list, the list stays ordered, coalesced and circular, no live block is written; the roving pointer is left at the last free block below |
| Sbrk.HonestGrant | xv6 Scheduler/kernel/sysproc.c:61-72 | below 2^28 units a grant moves the break up by exactly the memory asked for |
| Sbrk.HollowGrant | xv6 Scheduler/kernel/proc.c:119-134 | from 2^28 to 2^29 units a grant leaves the break where it was or moves it down |
| Sbrk.HollowAnswer | xv6 Scheduler/kernel/proc.c:119-134 | what exactly is answered from 2^28 to 2^29 units, for every break: refused, killed, or a break moved down by what is missing to 2^32 bytes or not at all |
| Sbrk.SomeHollowGrant | xv6 Scheduler/kernel/proc.c:119-134 | for every such size but three there is a break above the stack page at which it is granted |
| Sbrk.NoHollowGrant | xv6 Scheduler/kernel/proc.c:119-134 | for those three there is none |
| Umalloc.Allocator.Morecore | xv6 Scheduler/user/umalloc.c:46-61 | what sbrk grants, for 4096 units at least, joins the free list and the arena, and is below the break if and only if fewer than 2^28 units were asked for; a refusal changes nothing |
| Umalloc.Allocator.Walk | xv6 Scheduler/user/umalloc.c:72-86 | one round finds the first fitting block after the roving pointer, or no block fits |
| Umalloc.PassOne | xv6 Scheduler/user/umalloc.c:72-86 | having come round to the start, the search has seen every block |
| Umalloc.Allocator.Unhook | xv6 Scheduler/user/umalloc.c:74-81 | an exact fit leaves the ring, a larger block keeps its head and gives its tail |
| Umalloc.Allocator.Take | xv6 Scheduler/user/umalloc.c:73-83 | the block handed out is new, and exactly its units leave the free list |
| Umalloc.Allocator.Serve | xv6 Scheduler/user/umalloc.c:68-89 | sbrk is asked at most once, exactly when no free block fits; 0 is returned exactly when it then refuses |
| Umalloc.Allocator.Malloc | xv6 Scheduler/user/umalloc.c:63-90 | the same for a request in bytes, and the block is below the break and large enough if and only if the request is at most 2^31 - 16 bytes |
| Umalloc.RoundedRequest | xv6 Scheduler/user/umalloc.c:68-69 | the payload is large enough if and only if nbytes is at most 2^32 - 8, and then in the fewest units; the size in bytes of the units is below 2^31 if and only if nbytes is at most 2^31 - 16 or wraps |
| Umalloc.BrokenPromise | xv6 Scheduler/user/umalloc.c:46-90 | for every larger request but those of 2^29 - 513 to 2^29 - 511 units there is a first call, by a program with its stack under the break, that returns a block that is too small or has no memory behind it |
| Umalloc.NeverServed | xv6 Scheduler/user/umalloc.c:46-61 | for those sizes no such program gets a block: sbrk refuses or the process is killed |
| Umalloc.HollowGrants | xv6 Scheduler/user/umalloc.c:54-54 | sbrk grants two such requests, 2^31 and 2^32 - 8 bytes, to a program of three pages without moving the break |
| Umalloc.Allocator.Store | xv6 Scheduler/user/umalloc.c:63-90 | a program writing its own payload cannot disturb the allocator |
| Umalloc.Allocator.ServeAndFree | xv6 Scheduler/user/umalloc.c:24-90 | malloc followed by free of its block leaves the list malloc started from, with what sbrk granted in between joined to it |
| Umalloc.FreeUndoesMalloc | xv6 Scheduler/user/umalloc.c:24-90 | free of a block just taken restores the very list it was taken from |
| Umalloc.FreeUndoesGrownMalloc | xv6 Scheduler/user/umalloc.c:24-90 | when malloc had to grow, free leaves the list with the memory granted joined to it |
| Umalloc.Conservation | xv6 Scheduler/user/umalloc.c:24-90 | sizes of free and of live blocks add up to the units obtained from sbrk |
| FreeList.Canonical | xv6 Scheduler/user/umalloc.c:24-44 | an ordered, coalesced list is determined by the set of units it covers |
| FreeList.FreesCommute | xv6 Scheduler/user/umalloc.c:24-44 | the order of two frees leaves no trace |
| FreeList.FreeUndoesTake | xv6 Scheduler/user/umalloc.c:24-44 | freeing what was taken restores the same list |
| FreeList.CoalesceKeepsOrder | xv6 Scheduler/user/umalloc.c:33-42 | merging with both neighbours keeps the list ordered and without touching blocks |
| FreeList.CoalesceUnits | xv6 Scheduler/user/umalloc.c:33-42 | merging adds exactly the freed units |
| FreeList.CarveUnits | xv6 Scheduler/user/umalloc.c:74-81 | splitting removes exactly the tail's units |
| FreeList.TotalSizeCounts | xv6 Scheduler/user/umalloc.c:24-90 | the sizes in the list add up to the number of units it covers |
| Blocks.BitAfter | xv6 Scheduler/kernel/fs.c:60-69 | setting or clearing one bit of a bitmap block changes that bit and no other |
| Blocks.PutThenWord | xv6 Scheduler/kernel/fs.c:335-343 | a word stored in an indirect block reads back, the others are unchanged |
| Blocks.WordBytes | xv6 Scheduler/kernel/fs.c:335-337 | a word of an indirect block is four bytes, the lowest first |
| Blocks.BitIs | xv6 Scheduler/kernel/fs.c:60-64 | bit bi of a bitmap block is bit bi % 8 of byte bi / 8, counted from the lowest |
| Fs.FileSystem.Balloc | xv6 Scheduler/kernel/fs.c:52-76 | the lowest clear bit is set; the number is past the end if and only if the disk is full and some bit of the bitmap is clear, and the kernel panics if and only if none is |
| Fs.FirstFullBalloc | xv6 Scheduler/kernel/fs.c:52-76 | on a disk whose bits past the end are clear the first balloc once it is full gives the size of the disk, over any sequence of block writes and bit changes |
| Fs.FileSystem.Bfree | xv6 Scheduler/kernel/fs.c:78-97 | the block is zeroed and its bit cleared |
| Fs.FileSystem.Bmap | xv6 Scheduler/kernel/fs.c:317-347 | for the first twelve blocks the inode's own slot of that number, for the rest the word of the indirect block, each filled by `balloc` if it was empty; every file keeps its bytes and ownership stays exact |
| Fs.FileSystem.Itrunc | xv6 Scheduler/kernel/fs.c:349-380 | exactly the inode's own blocks become free and zero, every other file keeps its bytes |
| Fs.TruncatedBits | xv6 Scheduler/kernel/fs.c:349-380 | a bit is cleared if and only if its block was in some slot of the inode |
| Fs.TrimOne | xv6 Scheduler/kernel/fs.c:355-375 | freeing one slot keeps the state between the truncated and the whole inode |
| Fs.TrimEnd | xv6 Scheduler/kernel/fs.c:355-380 | with all slots freed the invariant holds again for the empty inode |
| Fs.FileSystem.Readi | xv6 Scheduler/kernel/fs.c:393-418 | what is read is the clipped slice of the contents; -1 exactly when off is past the end or off+n wraps |
| Fs.FileSystem.Writei | xv6 Scheduler/kernel/fs.c:420-451 | the clipped source is spliced in at off, the size grows if needed, no other file changes |
| Fs.FileSystem.CopyInAndGrow | xv6 Scheduler/kernel/fs.c:434-450 | the copying loop and the size update, for every split into blocks |
| Fs.WrittenSplices | xv6 Scheduler/kernel/fs.c:420-451 | byte by byte writing amounts to before[..off] + src + before[off+m..] |
| Fs.ReadAll | xv6 Scheduler/kernel/fs.c:393-418 | the bytes collected block by block are the slice of the contents |
| Fs.SetPastEnd | xv6 Scheduler/kernel/fs.c:60-69 | a bit set past the end of a full disk changes nothing that counts |
| FsState.NoSharing | xv6 Scheduler/kernel/fs.c:320-347 | two slots with the same block are the same slot of the same inode |
| FsState.UsedIffHeld | xv6 Scheduler/kernel/fs.c:52-97 | a data block's bit is set if and only if some slot of some inode has it |
| FsState.Layout | xv6 Scheduler/include/fs.h:36-45 | inode blocks, bitmap and data follow one another from block 2 on, without overlap |
| FsState.DirectByte | xv6 Scheduler/kernel/fs.c:310-329 | a byte of the first twelve blocks of a file is in the block that the inode lists at that place, or zero if there is none |
| FsState.IndirectByte | xv6 Scheduler/kernel/fs.c:330-344 | a later byte is in the block that the indirect block lists at its place, or zero if either is missing |
| FsSteps.GiveDirect | xv6 Scheduler/kernel/fs.c:323-333 | a fresh block in a direct or the indirect slot keeps the invariant; all of it reads as zero |
| FsSteps.GiveIndirect | xv6 Scheduler/kernel/fs.c:334-345 | the same for a word of the indirect block |
| FsSteps.WriteData | xv6 Scheduler/kernel/fs.c:438-444 | storing a block changes its own bytes of its own file and nothing else |
| FsSteps.TakeBlock | xv6 Scheduler/kernel/fs.c:354-375 | freeing the block of a slot leaves the inode its other slots and other files their bytes |
| Mkfs.Image.constructor | xv6 Scheduler/tools/mkfs.c:67-95 | a disk of zeros satisfies the kernel's invariant once the metadata blocks are marked |
| Mkfs.Image.Ialloc | xv6 Scheduler/tools/mkfs.c:291-303 | a new empty inode that owns nothing |
| Mkfs.Image.BlockFor | xv6 Scheduler/tools/mkfs.c:333-358 | the block of a file block number, from the inode's own slot or the word of the indirect block, taken from the counter on demand |
| Mkfs.Image.Iappend | xv6 Scheduler/tools/mkfs.c:323-370 | the contents become what they were followed by the appended bytes, no other file changes |
| Mkfs.Image.WriteBitmap | xv6 Scheduler/tools/mkfs.c:305-319 | with the bitmap written the disk itself satisfies the kernel's invariant, and no bit past its end is set |
| Mkfs.Image.FixDirSize | xv6 Scheduler/tools/mkfs.c:183-188 | the rounded directory has no hole if and only if its size was not a multiple of the block size |
| Mkfs.FullBlockDirectory | xv6 Scheduler/tools/mkfs.c:183-188 | a directory of 32 entries becomes one of two blocks without the second |
| MkTree.FilledOk | xv6 Scheduler/tools/mkfs.c:103-181 | a directory's names are unique if and only if the host's differ in their first 14 bytes |
| MkTree.AddFile | xv6 Scheduler/tools/mkfs.c:165-173 | the inode has the bytes of the host's file, no other inode changes |
| MkTree.AddDir | xv6 Scheduler/tools/mkfs.c:97-190 | the directory is one for the kernel if and only if the names differ in their first 14 bytes; when they do all the way down it shows the host's tree |
| MkTree.StillShown | xv6 Scheduler/tools/mkfs.c:97-190 | what is shown stays shown while its inodes stay |
| MkTree.BuildImage | xv6 Scheduler/tools/mkfs.c:196-236 | the finished image satisfies the kernel's invariant, and shows the host's tree from inode 1 on |
| MkTree.PathFound | xv6 Scheduler/kernel/fs.c:567-600 | on such an image the walk along a path without "." and ".." ends at what the path names on the host, and nowhere if and only if it names nothing; a file found there has the host's bytes |
| Mkfs.MarkedIsOneBlock | xv6 Scheduler/tools/mkfs.c:305-319 | marking the first blocks in use is writing the one bitmap block |
| Dirs.NameCmp | xv6 Scheduler/kernel/fs.c:456-460 | the comparison is equality of names cut to 14 bytes |
| Dirs.NameCpy | xv6 Scheduler/kernel/fs.c:517-517 | the stored name stands for the same name and is padded with NULs |
| DirFile.DecodeEncode | xv6 Scheduler/include/fs.h:50-53 | the 16 bytes of an entry read back as the entry |
| DirFile.EntryBytes | xv6 Scheduler/include/fs.h:48-53 | entry k of a directory is its 16 bytes at 16k: two of the number, low one first, and 14 of the name |
| DirFile.EntryWritten | xv6 Scheduler/kernel/fs.c:519-520 | writing the bytes of an entry in its place changes that entry and no other |
| DirFile.ScanBlock | xv6 Scheduler/kernel/fs.c:472-487 | the first entry of the block that has the name, or none of the block has it |
| DirFile.Dirlookup | xv6 Scheduler/kernel/fs.c:461-493 | the inode number that the directory's map has for the name, 0 exactly when it has none; no byte of any file changes |
| Dirs.ListingIs | xv6 Scheduler/kernel/fs.c:461-493 | with unique names a directory is a finite map from names to inode numbers |
| DirFile.Dirlink | xv6 Scheduler/kernel/fs.c:495-523 | on the bytes of the file, an absent name is added to the map with the low 16 bits of the number (not at all when they are 0), a listed one refused unchanged, and a panic exactly at a full directory of the largest size; other files keep their bytes |
| DirFile.Unlink | xv6 Scheduler/kernel/sysfile.c:186-200 | zeroing the entry found removes exactly that name, and other files keep their bytes |
| Dirs.EntrySet | xv6 Scheduler/kernel/fs.c:517-520 | a free entry that takes a new name extends the map by it |
| Dirs.EntryCleared | xv6 Scheduler/kernel/sysfile.c:198-200 | a zeroed entry takes its name out of the map |
| Paths.FirstComponent | xv6 Scheduler/kernel/fs.c:539-562 | up to the first slash is the first component, the rest has the others |
| Paths.ParentHas | xv6 Scheduler/kernel/fs.c:567-600 | what a path names is what its last component names in the parent found for it |
| Paths.Skipelem | xv6 Scheduler/kernel/fs.c:539-562 | takes the next non-empty component, cut to 14 bytes, and says whether one is left |
| Paths.Namex | xv6 Scheduler/kernel/fs.c:567-600 | the fold of the lookup over the components, in the directories on the disk, stopping one early, at a directory, for the parent; no directory changes |
| BufList.UnlinkKeepsLinks | xv6 Scheduler/kernel/bio.c:126-127 | taking a node out of the doubly linked ring leaves the ring of the others |
| BufList.PushKeepsLinks | xv6 Scheduler/kernel/bio.c:128-131 | putting it behind the head gives the ring with it in front |
| BufList.Follow | xv6 Scheduler/kernel/bio.c:66-92 | the links visit the buffers in order in one direction and backwards in the other |
| Bio.BufCache.constructor | xv6 Scheduler/kernel/bio.c:39-56 | all buffers are in the ring and stand for no sector |
| Bio.BufCache.Bget | xv6 Scheduler/kernel/bio.c:58-93 | the buffer of the sector, or else the one released longest ago of those not busy; a panic only when all are busy |
| Bio.BufCache.Bread | xv6 Scheduler/kernel/bio.c:95-105 | the buffer returned holds what a read of the plain disk gives, whatever the others did while the reader slept |
| Bio.BufCache.Bwrite | xv6 Scheduler/kernel/bio.c:107-115 | afterwards the disk holds the buffer's data, whatever the others did while the writer slept |
| Bio.BufCache.Brelse | xv6 Scheduler/kernel/bio.c:117-137 | the buffer moves to the front of the same permutation and may be taken again |
| Bio.BufCache.Iderw | xv6 Scheduler/kernel/ide.c:120-154 | the request joins the end of the queue, once |
| Bio.BufCache.Ideintr | xv6 Scheduler/kernel/ide.c:89-118 | the first request is done; its buffer then agrees with the disk |
| Bio.BufCache.Await | xv6 Scheduler/kernel/ide.c:148-152 | after any steps of other processes and interrupts the wait ends, with the buffer still held, valid, clean and equal to the disk |
| BioSpec.StepKeepsInv | xv6 Scheduler/kernel/bio.c:58-137 | every section of every process keeps: one buffer for a sector, busy exactly when held, and equal to the disk when valid and not edited |
| BioSpec.OthersStep | xv6 Scheduler/kernel/bio.c:58-137 | no step of another process touches a held buffer's key, data or holder |
| BioSpec.HeldThroughout | xv6 Scheduler/kernel/bio.c:58-137 | over any run, from taking a buffer to releasing it, it stays its holder's, alone stands for its sector, and is what the disk has there while valid and not edited |
| BioSpec.NobodyElseChanges | xv6 Scheduler/kernel/bio.c:58-137 | over any run in which the holder does nothing, a buffer without a request keeps its data and the disk its sector |
| BioSpec.ServedIsDisk | xv6 Scheduler/kernel/ide.c:89-118 | over any run in which the holder waits for its request, the buffer is as it was until served, and from then on valid, clean and what the disk has in its sector |
| BlockIo.ReadBlock | xv6 Scheduler/kernel/bio.c:95-137 | bread and brelse of a block give the block of the plain disk and change nothing |
| BlockIo.WriteBlock | xv6 Scheduler/kernel/bio.c:95-137 | bread, a change, bwrite and brelse set the block of the plain disk and no other |
| BlockIo.Perform | xv6 Scheduler/kernel/bio.c:95-137 | any sequence of block reads and writes has the answers and the effect it has on the plain disk |
| BlockIo.LastWritten | xv6 Scheduler/kernel/bio.c:95-137 | a block of that plain disk is what was last written to it, or what it was |
| Bio.OldestIsLast | xv6 Scheduler/kernel/bio.c:78-92 | the last buffer that is not busy is the one released longest ago |
| Bio.MoveToFront | xv6 Scheduler/kernel/bio.c:124-132 | the list stays a permutation of all buffers ordered by release |
| PipeSpec.StepKeepsOrder | xv6 Scheduler/kernel/pipe.c:75-118 | every critical section keeps bytes in order and at most 512 in between |
| PipeSpec.StepLosesWakeupIff | xv6 Scheduler/kernel/pipe.c:82-88 | a sleeper is left behind if and only if a writer gives up at a full pipe while a reader sleeps |
| PipeSpec.RunIsFifo | xv6 Scheduler/kernel/pipe.c:57-118 | over any interleaving what was read is a prefix of what was written |
| PipeSpec.SentIsPrefix | xv6 Scheduler/kernel/pipe.c:75-95 | over any interleaving, what one call of pipewrite puts in over all its sections are the first bytes of its argument, each once and in order |
| PipeSpec.CallSendsAll | xv6 Scheduler/kernel/pipe.c:75-95 | a section of the call returns n if and only if the call has then put in exactly the first n bytes |
| PipeSpec.SoleWriter | xv6 Scheduler/kernel/pipe.c:75-95 | with no other writer meanwhile the pipe gains these bytes and no others |
| PipeSpec.RunNeverBlocks | xv6 Scheduler/kernel/pipe.c:57-118 | without such a writer, sleeping readers mean an empty pipe and sleeping writers a full one, never both |
| PipeSpec.KilledWriterLosesWakeup | xv6 Scheduler/kernel/pipe.c:82-88 | a concrete run that leaves a reader asleep beside a full pipe |
| Pipe.WrapTellsFull | xv6 Scheduler/kernel/pipe.c:81-92 | counters modulo 2^32 still tell full and empty from everything else |
| Pipe.Pipe.Write | xv6 Scheduler/kernel/pipe.c:75-95 | as many of the bytes of addr from i0 on as fit go in, in order; it returns n once all are in, else the pipe is full and it gives up (killed, or no reader) or sleeps; who is woken; and all this over a ring with wrapping counters |
| Pipe.Pipe.Read | xv6 Scheduler/kernel/pipe.c:97-118 | sleeps, or gives up if killed, exactly at an empty pipe with a writer; else delivers the next min(n, used) bytes and wakes the writers |
| Pipe.Pipe.Close | xv6 Scheduler/kernel/pipe.c:57-73 | clears the flag of its own end and wakes the sleepers on the other |
| ProcSpec.ExitKeepsWaitOk | xv6 Scheduler/kernel/proc.c:177-215 | exit leaves no parent asleep beside a zombie, neither its own nor init |
| ProcSpec.ExitExactly | xv6 Scheduler/kernel/proc.c:194-212 | every slot after exit: the process a zombie, its children init's, runnable who slept on the parent's slot, or on init's if a zombie went there, all else as it was |
| ProcSpec.StepKeepsInv | xv6 Scheduler/kernel/proc.c:139-258 | every critical section keeps: no sleeper in wait has a zombie child, parents are alive, pids are unique |
| ProcSpec.RunKeepsInv | xv6 Scheduler/kernel/proc.c:139-258 | the same over any interleaving of any length |
| ProcSpec.ExitedOnce | xv6 Scheduler/kernel/proc.c:219-258 | a process that exited is either a zombie or reaped, not both, so it is reaped once |
| ProcSpec.ZombieParentAwake | xv6 Scheduler/kernel/proc.c:177-258 | while a child is a zombie its parent is not asleep in wait |
| ProcSpec.BootInv | xv6 Scheduler/kernel/proc.c:86-114 | the table as the first process finds it satisfies the invariant |
| Proc.ProcTable.AllocProc | xv6 Scheduler/kernel/proc.c:35-84 | the lowest unused slot becomes an embryo with a new pid, its other fields as they were; no other slot changes |
| Proc.ProcTable.Exit | xv6 Scheduler/kernel/proc.c:177-215 | the scanning loop leaves every slot as ExitExactly says |
| Proc.ProcTable.Wait | xv6 Scheduler/kernel/proc.c:219-258 | frees the first zombie child and returns its pid if there is one, returns -1 without children or when killed, and sleeps otherwise; no other slot changes |
| Proc.ProcTable.Wakeup1 | xv6 Scheduler/kernel/proc.c:434-442 | exactly the sleepers on the channel, whatever it is, become runnable |
| Proc.ProcTable.Kill | xv6 Scheduler/kernel/proc.c:455-474 | marks the first slot with the pid, in use or not, and makes it runnable if it sleeps, on whatever channel; its other fields and the other slots stay; -1 exactly when no slot has the pid |
| ProcSpec.KilledBeforeBirth | xv6 Scheduler/kernel/proc.c:35-84 | over any run from boot, faults of programs included, a slot is allocated killed if and only if some kill hit it since it was last reaped |
| ProcSpec.KillZeroAfterBoot | xv6 Scheduler/kernel/proc.c:455-474 | kill(0) after boot answers 0, and the next process starts killed |
| SleepLock.StepKeepsInv | xv6 Scheduler/kernel/proc.c:397-451 | each single action of sleep and wakeup keeps the lock discipline |
| SleepLock.NoLostWakeup | xv6 Scheduler/kernel/proc.c:397-451 | over any interleaving of any number of processes, nobody sleeps on a true condition without a wakeup on its way |
| SleepLock.WakeupFindsSleepers | xv6 Scheduler/kernel/proc.c:434-451 | a wakeup finds every waiter already asleep and makes it runnable |
| MlfqSpec.StepKeepsInv | xv6 Scheduler/kernel/proc.c:280-352 | levels, slices, ticks and waiting times stay in range if and only if the step is not a level-0 process coming back with its slice used up |
| MlfqSpec.RunKeepsInv | xv6 Scheduler/kernel/proc.c:280-352 | the same over every run up to that step; ticks add up to dispatches |
| MlfqSpec.DispatchExactly | xv6 Scheduler/kernel/proc.c:303-330 | a dispatch field by field: the charge, and each earlier runnable process waits one more or, at 640, 40 or 20, rises with the tick and slice of the level running |
| MlfqSpec.DispatchedHighest | xv6 Scheduler/kernel/proc.c:296-324 | only processes promoted by the very dispatch can outrank the dispatched one |
| MlfqSpec.WaitCounts | xv6 Scheduler/kernel/proc.c:312-324 | over any run, waiting grows by one for each dispatch of a later slot, and the process rises exactly when that makes 10 time slices |
| MlfqSpec.BehindNeverRises | xv6 Scheduler/kernel/proc.c:313-313 | over any run, a process behind every dispatched slot neither rises nor waits longer |
| MlfqSpec.Starves | xv6 Scheduler/kernel/proc.c:292-350 | runs of any length in which slot 0 is dispatched again and again and no other runnable process ever is |
| MlfqSpec.StarvedFromBoot | xv6 Scheduler/kernel/proc.c:292-350 | such runs from an empty table, with a runnable process in slot 1 that is left as it was |
| MlfqSpec.WearsOut | xv6 Scheduler/kernel/proc.c:335-348 | a process that runs alone uses up its slice at level 0 |
| MlfqSpec.ExhaustedReachable | xv6 Scheduler/kernel/proc.c:335-348 | so the excepted step of StepKeepsInv is reached from an empty table |
| Mlfq.Scheduler.GetHeight | xv6 Scheduler/kernel/proc.c:260-271 | the highest priority of a runnable process, 0 when there is none |
| Mlfq.Scheduler.Age | xv6 Scheduler/kernel/proc.c:312-324 | each earlier runnable process waits one more or is promoted |
| Mlfq.Scheduler.Consider | xv6 Scheduler/kernel/proc.c:292-330 | a slot is dispatched if and only if it is runnable and none has a higher priority; then the table is as DispatchExactly says |
| Mlfq.Scheduler.Pass | xv6 Scheduler/kernel/proc.c:290-350 | a pass dispatches the first such slot, and from slot 0 finds one whenever any is runnable |
| Mlfq.Scheduler.Back | xv6 Scheduler/kernel/proc.c:335-348 | relegation, a new time slice or neither, with the tick and slice of the level, and the slot to look at next; priority -1 exactly after a slice used up at level 0 |
| Mlfq.Scheduler.BoostProc | xv6 Scheduler/kernel/proc.c:552-562 | one level up with the tick and slice of that level, nothing at level 3 |
| Mlfq.Scheduler.AllocProc | xv6 Scheduler/kernel/proc.c:35-58 | the first unused slot starts at level 3 with tick 1, slice 8 and all counters 0 |
| FileTable.EndOpenIff | xv6 Scheduler/kernel/file.c:50-72 | between calls a pipe end is open if and only if some descriptor is on it |
| FileTable.EndsOpen | xv6 Scheduler/kernel/pipe.c:57-73 | readopen and writeopen say each whether some descriptor is on that end |
| FileTable.RefChanged | xv6 Scheduler/kernel/file.c:38-60 | a count that follows its slots keeps the table consistent |
| FileTable.FileFreed | xv6 Scheduler/kernel/file.c:50-72 | the last reference takes its pipe end with it |
| FileTable.Shared | xv6 Scheduler/kernel/sysfile.c:47-59 | one more slot and one more reference go together |
| Descriptors.Kernel.constructor | xv6 Scheduler/kernel/file.c:9-19 | at boot nothing is open |
| Descriptors.Kernel.Filealloc | xv6 Scheduler/kernel/file.c:21-36 | the first file without references, -1 exactly when there is none |
| Descriptors.Kernel.Fileclose | xv6 Scheduler/kernel/file.c:50-72 | one reference fewer; the last one unsets the file and closes its pipe end |
| Descriptors.Kernel.Fdalloc | xv6 Scheduler/kernel/sysfile.c:33-45 | the lowest empty slot, -1 exactly when there is none |
| Descriptors.Kernel.Dup | xv6 Scheduler/kernel/sysfile.c:47-59 | two descriptors for one file, counts exact; it fails if and only if the descriptor is bad or no slot is empty, and then changes nothing |
| Descriptors.Kernel.Close | xv6 Scheduler/kernel/sysfile.c:84-96 | the slot is empty, counts exact |
| Descriptors.Kernel.OpenInode | xv6 Scheduler/kernel/sysfile.c:258-294 | a descriptor with the requested modes, or slots, pipes and references as before, if and only if no file or no slot is free |
| Descriptors.Kernel.PipeAlloc | xv6 Scheduler/kernel/pipe.c:21-55 | two files for the ends of a new pipe, or everything as before, if and only if there are no two free files or no frame |
| Descriptors.Kernel.MakePipe | xv6 Scheduler/kernel/sysfile.c:371-392 | two descriptors on the two ends, or everything as before on each failing path: no two free files, no frame, or no two empty slots |
| Descriptors.Kernel.CopyFiles | xv6 Scheduler/kernel/proc.c:163-165 | the child has its parent's descriptors, every count exact |
| Descriptors.Kernel.CloseAll | xv6 Scheduler/kernel/proc.c:187-192 | no descriptor is left, every count exact |
| Kalloc.Kmem.constructor | xv6 Memory sub-system/part_a/kernel/kalloc.c:26-35 | the frames supplied, every one or every second one, are all free |
| Kalloc.Kmem.Kfree | xv6 Memory sub-system/part_b/kernel/kalloc.c:42-70 | the frame leaves the allocation list, order kept, and heads the free list |
| Kalloc.Kmem.Kalloc | xv6 Memory sub-system/part_a/kernel/kalloc.c:74-89 | the first free frame, recorded at the end of the allocation list |
| Kalloc.Kmem.KallocRandom | xv6 Memory sub-system/part_b/kernel/kalloc.c:76-117 | the frame the random number picks, and the other free frames stay in order; none exactly when no frame is free, where the code divides by zero |
| Kalloc.Kmem.DumpAllocated | xv6 Memory sub-system/part_b/kernel/kalloc.c:119-132 | the frames in use, newest first; -1 exactly for a count out of range |
| Kalloc.TakeKeepsPartition | xv6 Memory sub-system/part_b/kernel/kalloc.c:76-117 | free and allocated frames still partition the frames supplied, without duplicates |
| Kalloc.GiveKeepsPartition | xv6 Memory sub-system/part_b/kernel/kalloc.c:42-70 | the same for freeing |
| Kalloc.NeverAdjacent | xv6 Memory sub-system/part_a/kernel/kalloc.c:26-35 | with every second frame supplied no two frames ever handed out are neighbours |
| Vm.Machine.Walk | xv6 Memory sub-system/part_a/kernel/vm.c:52-72 | the table that holds an entry, made from a free frame on demand |
| Vm.Machine.Mappages | xv6 Memory sub-system/part_a/kernel/vm.c:77-98 | the kernel pages are mapped, and a frame is taken for each missing table and no more; failure means no frame is left |
| Vm.Machine.Setupkvm | xv6 Memory sub-system/part_a/kernel/vm.c:134-149 | a directory, if and only if thirteen frames are free, in which exactly the pages from 640K to the end of memory and the devices are present, each at its own number and out of the user's reach, and writable except the kernel's text from 1M to `data` |
| VmSpace.KernelEntries | xv6 Memory sub-system/part_a/kernel/vm.c:122-131 | the same of every entry of every table of a directory with the kernel's map |
| VmSpace.UserEntry | xv6 Memory sub-system/part_a/kernel/vm.c:52-72 | the entry of a user page is the one in table 0 at the number of the page |
| VmSpace.KernelStep | xv6 Memory sub-system/part_a/kernel/vm.c:122-131 | one range more of the kernel's map, never a page twice; a failing one leaves fewer than twelve tables |
| VmSpace.KernelCount | xv6 Memory sub-system/part_a/kernel/vm.c:122-149 | the kernel's map takes twelve tables |
| Vm.Machine.MapPage | xv6 Memory sub-system/part_a/kernel/vm.c:240-248 | a user page takes one frame; its table is there, so mapping cannot fail |
| Vm.Machine.Allocuvm | xv6 Memory sub-system/part_a/kernel/vm.c:228-251 | all new pages are zero and writable if and only if there are frames for them and the size is not past the top; otherwise owners, free frames and present mappings are as before |
| Vm.Machine.Deallocuvm | xv6 Memory sub-system/part_a/kernel/vm.c:257-278 | exactly the pages from the new size up to the old one go, with their frames |
| Vm.Machine.Freevm | xv6 Memory sub-system/part_a/kernel/vm.c:282-295 | exactly the frames the space used become free, other spaces are untouched |
| Vm.Machine.Life | xv6 Memory sub-system/part_a/kernel/vm.c:134-295 | setupkvm, allocuvm or deallocuvm to any sequence of sizes, then freevm: the free frames and all owners are as at the start |
| Vm.Machine.Copyuvm | xv6 Memory sub-system/part_a/kernel/vm.c:299-327 | same bytes and same writable bit on every page, in frames nobody used before, under the kernel's map as Setupkvm states it; a late failure restores the free frames |
| Vm.Machine.Mprotect | xv6 Memory sub-system/part_a/kernel/vm.c:369-386 | -1 exactly on a bad range; otherwise exactly the pages of the range, as far as 32 bits hold it, lose the writable bit |
| Vm.Machine.Munprotect | xv6 Memory sub-system/part_a/kernel/vm.c:388-405 | the same, and the pages become writable |
| Vm.Machine.SysMprotect | xv6 Memory sub-system/part_a/kernel/sysproc.c:92-101 | below 2^31 bytes, 0 if and only if the address is the process's and aligned and the range neither empty nor past the top, and then exactly its pages lose the writable bit; from there on fewer pages than asked for |
| Vm.Machine.SysMunprotect | xv6 Memory sub-system/part_a/kernel/sysproc.c:103-112 | the same, and the pages become writable |
| Vm.Machine.ProtectNothing | xv6 Memory sub-system/part_a/kernel/vm.c:369-386 | a range of 2^32 bytes is accepted and no page changes |
| VmState.AddPage | xv6 Memory sub-system/part_a/kernel/vm.c:77-98 | a frame in hand becomes a user page; every frame keeps one use |
| VmState.DropPage | xv6 Memory sub-system/part_a/kernel/vm.c:266-275 | a page and its frame go together, other spaces see no change |
| VmState.SetEntry | xv6 Memory sub-system/part_a/kernel/vm.c:369-405 | changing permission bits keeps ownership exact |
| MrList.KeyList.Insert | MapReduce/mapreduce.c:114-141 | the value goes in front of its key's values; a new key heads the list |
| MrList.KeyList.GetNext | MapReduce/mapreduce.c:179-242 | the first of the key's values, the newest, is taken, and a drained key leaves the list |
| MrList.InsertVals | MapReduce/mapreduce.c:114-141 | inserting adds to one key and no other |
| MrList.PopVals | MapReduce/mapreduce.c:179-242 | taking a value leaves every other key alone |
| MrList.ItoaAtoi | MapReduce/wordcount.c:24-56 | the count written as text reads back as the same number |
| MrList.ItoaDigit | MapReduce/wordcount.c:31-32 | digit k from the end of the text is n / 10^k % 10 |
| MrList.ItoaFits | MapReduce/wordcount.c:31-32 | the ten bytes allocated hold it if and only if it is below 10^9 |
| MapReduceProof.MapperKeeps | MapReduce/mapreduce.c:244-314 | no step of a mapper loses or invents an occurrence of a word |
| MapReduceProof.ReducerKeeps | MapReduce/mapreduce.c:212-293 | nor does a step of a reducer |
| MapReduceProof.HandedOver | MapReduce/mapreduce.c:270-283 | a combined count moves into the partition of its key |
| MapReduceProof.EachFileOnce | MapReduce/mapreduce.c:295-305 | dealing arguments in steps of the number of mappers reads each exactly once |
| MapReduce.HashIsDigits | MapReduce/mapreduce.c:277-283 | the hash is 5381 and the characters read as a number in base 33, modulo 2^64 |
| MapReduce.DefaultHashPartition | MapReduce/mapreduce.c:277-283 | the loop computes that number modulo 2^64 and then modulo the number of partitions |
| MapReduceProof.StepKeeps | MapReduce/mapreduce.c:244-429 | the ledger of every word is the same after every step of every thread |
| MapReduceProof.RunKeeps | MapReduce/mapreduce.c:325-429 | and over every interleaving |
| MapReduceProof.WordsCounted | MapReduce/wordcount.c:7-56 | when all threads are done the output has one line for each word, with the number of its occurrences, and no other line |
| WordCount.Combine | MapReduce/wordcount.c:24-36 | the loop drains one key, and its number of values goes to the partition as one value |
| WordCount.CombineIsRun | MapReduce/wordcount.c:24-36 | a call of Combine is a run of its mapper's steps, to the list and the partition that the loop leaves |
| WordCount.ReduceIsRun | MapReduce/wordcount.c:38-56 | a call of Reduce is a run of its reducer's steps, to the partition and the line that the loop leaves |
| WordCount.Reduce | MapReduce/wordcount.c:38-56 | the loop drains one key, and the line has the sum of its values |
| ShellLex.WordsOfTokens | xv6 Scheduler/user/sh.c:264-307 | a word token is a run of word characters, maximal at both ends |
| ShellLex.FirstToken | xv6 Scheduler/user/sh.c:264-307 | the next token in characters: behind the spaces a symbol, `>>`, or the longest run of other characters; what follows are the tokens of the rest of the line |
| ShellLex.BackgroundLine | xv6 Scheduler/user/sh.c:343-358 | the line "a & b" has three tokens and no tree |
| ShellGrammar.AppendIsOutput | xv6 Scheduler/user/sh.c:373-396 | with every ">>" replaced by ">" a line is accepted just the same, as the same command |
| ShellGrammar.NoneAfterBackground | xv6 Scheduler/user/sh.c:343-358 | a word, an ampersand and a word have no tree; the parser stops at the second word |
| Shell.Parser.GetToken | xv6 Scheduler/user/sh.c:264-307 | takes exactly the next token of the line and gives its bounds |
| Shell.Parser.Peek | xv6 Scheduler/user/sh.c:309-319 | looks at the next token and loses none |
| ShellGrammar.LineSound | xv6 Scheduler/user/sh.c:343-358 | what the parser accepts is the tokens of a well-formed tree, followed by what it leaves |
| ShellGrammar.LineComplete | xv6 Scheduler/user/sh.c:343-358 | every well-formed tree is found again from its tokens |
| ShellGrammar.ParsesExactly | xv6 Scheduler/user/sh.c:326-445 | a line is accepted with a tree if and only if it is the tokens of that well-formed tree |
| ShellGrammar.Unambiguous | xv6 Scheduler/user/sh.c:326-445 | no line has two trees |
| ShellGrammar.SimpleSound | xv6 Scheduler/user/sh.c:398-445 | the same soundness for blocks, arguments and redirections |
| ShellLaws.WordsRun | xv6 Scheduler/user/sh.c:414-445 | fewer than ten words are the command with these arguments, in order |
| ShellLaws.PipeRuns | xv6 Scheduler/user/sh.c:360-371 | `ts | us` is the pipe of the command of ts, on the left, and that of us |
| ShellLaws.ListRuns | xv6 Scheduler/user/sh.c:353-356 | `ts ; us` is the list of the command of ts, first, and that of us |
| ShellLaws.BackRuns | xv6 Scheduler/user/sh.c:348-352 | `ts &` is the command of ts in the background |
| ShellLaws.BlockRuns | xv6 Scheduler/user/sh.c:398-412 | `( ts )` is the command of ts |
| ShellLaws.RedirRuns | xv6 Scheduler/user/sh.c:373-396 | `ts < f` redirects 0 to f for reading, `ts > f` and `ts >> f` redirect 1 for writing, around what ts already redirects |
| ShellLaws.ArgRuns | xv6 Scheduler/user/sh.c:429-441 | `ts w` is the command of ts with one argument more, inside its redirections |
| ShellLaws.TwoWords | xv6 Scheduler/user/sh.c:343-396 | so `a | b` pipes a into b, and likewise for `;`, `<`, `>` and `&` |
| ShellOrder.LineLies | xv6 Scheduler/user/sh.c:343-445 | in the command of any accepted line: arguments stand in line order, all words left of a pipe or list before its bar or semicolon and those on its right behind it, a background command before its ampersand; a redirection has 0 and O_RDONLY just where a `<` stands before its file, 1 and O_WRONLY with O_CREATE just where a `>` does |
| Shell.RedirsInItems | xv6 Scheduler/user/sh.c:429-441 | redirections before and between arguments may be read in groups |
| Shell.Parser.ParseRedirs | xv6 Scheduler/user/sh.c:373-396 | the loop wraps the command in the redirections read, later ones outside |
| Shell.Parser.ParseLine | xv6 Scheduler/user/sh.c:343-358 | the descent over the line computes the command of the tree and leaves the rest |
| Shell.Parser.ParsePipe | xv6 Scheduler/user/sh.c:360-371 | the same for pipes |
| Shell.Parser.ParseExec | xv6 Scheduler/user/sh.c:414-445 | the same for commands, with fewer than ten arguments |
| Shell.Parser.NulTerminate | xv6 Scheduler/user/sh.c:448-492 | a NUL at the end of every word and no other change |
| ShellLex.EndsOutside | xv6 Scheduler/user/sh.c:448-492 | no terminator falls inside a word |
| ShellLex.WordsSurvive | xv6 Scheduler/user/sh.c:448-492 | every word then is, as a C string, its original slice of the line |
| ShellLex.LineWords | xv6 Scheduler/user/sh.c:326-445 | the words of a command are words of its line |
| Shell.Parser.ParseCmd | xv6 Scheduler/user/sh.c:326-341 | a command if and only if the whole line has a tree, that tree's command, which reads in the order of the line as LineLies says, and every word intact as a C string |
| Grep.Match | xv6 Scheduler/user/grep.c:71-81 | true if and only if some position, under ^ the first, begins a reading of the pattern |
| Grep.MatchHere | xv6 Scheduler/user/grep.c:83-95 | true if and only if the pattern's atoms read a prefix of the text |
| Grep.MatchStar | xv6 Scheduler/user/grep.c:97-105 | the loop tries every number of repetitions |
| Grep.StarFirst | xv6 Scheduler/user/grep.c:97-105 | a starred first atom reads some run of hits followed by the rest |
| Grep.SingleFirst | xv6 Scheduler/user/grep.c:83-95 | a single first atom reads one character followed by the rest |
| Grep.EndOnly | xv6 Scheduler/user/grep.c:89-90 | a final $ reads only the end of the text |
| Grep.PatternReads | xv6 Scheduler/user/grep.c:83-105 | what a pattern reads by its first characters, `.`, `*` and `$` among them, and the rest of the pattern |

## Left out

- Hardware and boot code, the console, traps, system call entry, `exec`, `runcmd`: plumbing around
  registers, ports and ELF files.
- `File System Checker/xfsck.c`, `Unix shell/smash.c`, the UnixFunctions tools, the other user
  programs and the reading loop of `grep`: byte-stream input and output around little state.
- The heap allocator project shows only its callers; `heapAlloc.c` is not part of this model.
- Inode cache and locks (`iget`, `iput`, `ilock`): in-memory inodes are a map by number, and an
  inode's record on disk is a copy of it, without its byte layout.
- The file system's methods name a plain disk instead of calling the cache; that reads and writes of blocks
  through the cache are those of a plain disk is proved in `BlockIo`, for one process at a time.
  Crash consistency: the code has no log.
- Superblock fields are constants of the model instead of being read from block 1.
- DirFile.Unlink: of `unlink` only the step that clears the entry.
- Paths.Namex: a number without an in-memory inode ends the walk as a file does.
- Mkfs.Image.BlockFor: ends when the image has no room left, where `mkfs` goes on counting past its size.
- Mkfs.Image.Iappend: the same, and `mkfs` then writes past the end of the image.
- MkTree.AddDir: ends at a file whose number does not fit an entry's 16 bits, and at a directory whose rounded
  size is more than a file can have, where `mkfs` cuts the number and writes the size.
- Umalloc.Allocator.Morecore: what the allocator does after a grant with no memory behind it is not
  described, as blocks then overlap.
- Umalloc.Allocator.Serve: the same.
- Umalloc.Allocator.Malloc: the same, for the calls after the first such grant.
- Umalloc.Allocator.ServeAndFree: the same.
- Umalloc.Allocator.Link: addresses are unbounded numbers; of the blocks with no memory behind them, one
  that ends exactly where addresses wrap would be merged with the sentinel in the code.
- Bio.BufCache.Bread: a busy buffer ends the call, where `bget` sleeps and looks again.
- Bio.BufCache.Brelse: a buffer changed and not written is not released, as no code in the kernel does;
  who holds a buffer and whether it was changed are kept beside the code's fields.
- Proc.ProcTable.Exit: closing files and leaving the working directory are modelled in
  `Descriptors`, not here.
- Starvation freedom of the scheduler: it does not hold (`MlfqSpec.StarvedFromBoot`).
- MlfqSpec.WaitCounts: `wait_ticks` is unbounded here, a 32-bit integer in the code.
- Descriptors.Kernel.OpenInode: finding or creating the inode, and its reference count, are outside.
- The slots of all processes are one sequence of file numbers, not pointers in each process.
- MapReduce.DefaultHashPartition: `char` is taken to be signed, as it is on x86.
- MapReduce's lists are sequences of nodes, not linked cells, and its memory free lists, the race of
  the thread number lookup and counts of 10^9 and more, which overrun the ten bytes, are not modelled.
- The queue of the disk driver is a sequence instead of `qnext` links, and device errors do not occur.
- Vm.Machine.Mappages: modelled for the kernel's one-to-one ranges; single user pages are mapped by
  `Vm.Machine.MapPage`.  Addresses are page numbers where the code only uses whole pages.
- Vm.Machine.Mprotect: where `len * PGSIZE` overflows an `int`, which C leaves undefined, the model takes
  the product modulo 2^32; fetching the arguments of the system call from the stack is outside.
- VmState.SetEntry: `inituvm`, `loaduvm` and the copying between user and kernel memory are left out.
- Shell.Parser.ParseExec: the argument array of a command node is a sequence in the node, updated under
  the redirections that wrap it, instead of being reached through a second pointer.
- Starting processes, memory of the shell's command nodes and reading lines from the console.
