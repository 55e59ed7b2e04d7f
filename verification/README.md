# A model of the kernel and its tools in ass5/final_repo

This Dafny project models the hard parts of the teaching kernel in `ass5/final_repo` and of the user programs
beside it, and proves what they are for. `dafny verify dfyconfig.toml` checks all of it. Sizes such as the number
of buffers, processes, log blocks, inodes and disk blocks are parameters, so the claims hold for any of them.

**The crash-safe file system.** `Bio` is the buffer cache over a disk of whole blocks: a linked ring of buffers in
the order of their last release, with pinning. `LogFormat` says which writes commit and recovery make, as
sequences, and proves crash atomicity about them; `Log` is log.c on that cache, each method proved to make
exactly those writes. `LogRuns` takes the protocol as a machine whose steps are log_writes, single disk writes
and crashes, and proves group atomicity over all runs; `LogMachine` shows that the log on its cache makes exactly
those steps. `FsFormat`, `Ownership`, `Supply`, `Content`, `Truncate` and `Fs` are
the bitmap, the block maps and the bytes of files: who owns a block, how many blocks an operation takes, what it
leaves alone, and that a file is a flat string of bytes. `FileWrite` splits a write into transactions, and `Mkfs` is
the image builder, whose images the model of the kernel reads back. `CrashSafety` puts all this together: an
operation on a file, made through cache and log, happens as a whole or not at all, and at whatever write the disk
stops, recovery brings back a file system in which every block is free or owned once. `FileSafety` says the same of
a write of many transactions: its first few chunks are in the file. `Sessions` goes from mkfs to the first boot, and
from any stop to the next one. `SideBySide` takes operations apart into single log_writes, which other operations may
come between, `FsActs` shows that those of `Fs` are of this kind, and `SideRuns` proves crash safety for all runs of
such operations. `RawDisk` reads the disk byte by byte as fs.h lays it out, by / and % alone, and `DiskLayout`
proves that the bits, inodes, files and log headers that all this is about are the ones in those bytes.

**The heap.** `Umalloc` is the circular free list of the user-level allocator, with byte addresses.

**Processes.** `SleepWakeup` is sleep and wakeup as small steps of any number of processes, with sleep-locks, the
log's begin_op and end_op, and pipes as its users; `SleepRuns` says what the data behind their locks mean, in terms
of what processes did in a run, and what a call has done when it returns. `ProcTable` is the process table, one method
a critical section, `ProcRuns` are its runs, and `ProcTimes` follows what one slot holds through a run. `Pipe` is the
ring buffer behind a pipe.

**Memory.** `Kalloc` is the free list of page frames; `PageTable` and `Vm` are two-level page tables as they lie
in frames, and an account of all frames that every operation keeps. `Mmu` is the processor's walk over the raw words
of those frames, which says what a program can read and write after each operation.

**Tools.** `ShellForms` is the language of the shell from the writer's side: in how many ways a command can be written,
and what it means. `ShellSyntax` is the grammar as the parser reads it, `ShellRoundTrip` proves that it accepts exactly
the texts that are written so and reads them as what is meant, `ShellErrors` says which texts meet which panic, and
`Shell` is the parser with its in-place NULs. `Grep` is the matcher against the language a pattern stands for.

How to read it:

- A method that can panic in the source returns `ok == false` or `None` there, and its contract says exactly when,
  or that it cannot happen. The one panic of which less is said is that of an operation that runs out of buffers
  (`Bio.Bcache.Bread`): for commits and what is built on them, a number of buffers that suffices.
- Where the result of a system resource is open (is there memory for a stack?), it is a parameter.
- An `int` or `uint` that can wrap does so in the model (`Add32`, `Next32`, `Counter`, `SbrkArg`).
- Ghost parameters and ghost fields name what the contracts talk about; they are not part of the program.
- `bread` is taken for a block that nobody else holds at that time: a second process would first wait for the
  sleep-lock, which `SleepWakeup` covers. Buffers of other blocks may be held by others, also during a commit.

Where the code does not do what one might expect:

- log_write tests for space before it looks whether the block is logged already, and mkfs makes the log on disk
  one block smaller than the reservation of begin_op assumes. `LogRuns.PanicsExactly` says when an operation within
  its budget can meet the panic, and `LogRuns.PanicReasons` which of the two is to blame.
- mkfs rounds the size of the root directory up. `Mkfs.RoundedHole` says when this makes a hole. In a hole, readi
  allocates a block (`Fs.Fs.Readi`), and writei within the old size leaves the inode on disk behind
  (`Content.StaysOnDisk`, `Mkfs.FillHole`). Once such a write is committed, a block is in use that no inode on disk
  has (`CrashSafety.TrailsSound`), so a crash loses it and what was written there.
- filewrite returns -1 when a file gets too big, although whole chunks were written (`FileWrite.Filewrite`).
- malloc reads the size of a request, and sbrk its argument, modulo 2 to the 32 (`Umalloc.NUnitsSuffice`,
  `Umalloc.SbrkArgExact`, `Umalloc.HeaderBeyond`).
- A killed writer leaves a full pipe without waking the reader (`SleepWakeup.LostWakeups`).
- Pids are distinct until the counter has gone round once (`ProcRuns.PidsDistinct`, `ProcRuns.PidClash`); a slot
  that fork gave up keeps its pid, a reaped one has pid 0, kill may find either, and fork does not clear the mark
  (`ProcRuns.BornKilled`, `ProcRuns.KillZero`).
- The shell opens the file of `>>` like that of `>`, so both are the same tree.
- increment_times means to skip UNUSED slots, but its test for them never holds; as only a RUNNING process gets run
  time, this changes nothing there (`ProcTable.PTable.IncrementTimes`).

## Model

| member | source | states |
|---|---|---|
| Words.PutGetU32 | ass5/final_repo/fs.c:389-394 | a word stored through the uint pointer of a block reads back little-endian, and no other word of the block changes |
| Words.Add32Wraps | ass5/final_repo/fs.c:464 | the test `off + n < off` is exactly wrap-around of 32-bit addition |
| Bio.Disk.Iderw | ass5/final_repo/memide.c:38-60 | one whole block is written if the buffer is dirty, else read; the trace of writes grows by exactly that write |
| Bio.MakeRing | ass5/final_repo/bio.c:46-55 | binit's loop links all buffers and the head into one doubly linked ring, last buffer first |
| Bio.Bcache.Lookup | ass5/final_repo/bio.c:68-76 | the first loop finds the buffer of a block if and only if the block is cached |
| Bio.Bcache.Victim | ass5/final_repo/bio.c:81-90 | the second loop returns the last buffer of the ring that is clean and unreferenced, so the least recently released of those, and nothing only if there is none |
| Bio.Bcache.Bget | ass5/final_repo/bio.c:61-93 | a cached block is found with its state untouched and one more reference; otherwise the last clean and unreferenced buffer of the ring is recycled, the least recently released one; it panics if and only if there is none; at most one buffer holds a block of device 1 |
| Bio.Bcache.FreeExists | ass5/final_repo/bio.c:81-92 | while fewer blocks are pinned or held than there are buffers, a recyclable buffer exists |
| Bio.Bcache.Bread | ass5/final_repo/bio.c:96-107 | the locked buffer shows the latest contents of its block, whether cached or read from disk, and the disk is not written; a panic exactly if the block is in no buffer and none can be recycled, which cannot be for a pinned block or while buffers are left |
| Bio.Bcache.Bwrite | ass5/final_repo/bio.c:110-117 | exactly one disk write, after which cache and disk agree on the block |
| Bio.Bcache.Brelse | ass5/final_repo/bio.c:120-141 | the last release moves the buffer behind the head of the ring, which stays a permutation of all buffers, and makes it the most recently released one |
| Bio.Bcache.MoveToFront | ass5/final_repo/bio.c:130-138 | the six pointer assignments take one buffer out of the ring and put it first; all others keep their order |
| LogFormat.HeaderRoundTrip | ass5/final_repo/log.c:86-112 | the block list that write_head stores is the one that read_head reads, and the rest of the block keeps its words |
| LogFormat.Replay | ass5/final_repo/log.c:69-82 | redo is idempotent: all writes over any prefix of them give what all of them give |
| LogFormat.CrashInRecovery | ass5/final_repo/log.c:115-122 | after a crash between any two writes of recovery, recovering again gives the same home blocks |
| LogFormat.ClearedIsStable | ass5/final_repo/log.c:115-122 | with an empty header, recovery changes no home block |
| LogFormat.CrashLoopConverges | ass5/final_repo/log.c:115-122 | after any number of crashes inside recovery, the recovery that finishes gives the home blocks the first one would have given |
| LogFormat.CommitRestIsRecovery | ass5/final_repo/log.c:192-202 | from its header write on, commit makes exactly the disk writes that recovery would make |
| LogFormat.RecoverCommitted | ass5/final_repo/log.c:115-122 | recovering right after the header write gives the blocks of the new state at home |
| LogFormat.CommitIsAtomic | ass5/final_repo/log.c:176-202 | for a crash after any number of commit's writes, recovery gives the old home blocks if the header was not written and the new ones otherwise |
| LogFormat.CommitSurvivesCrashes | ass5/final_repo/log.c:68-122 | the same after any further crashes inside recovery |
| LogFormat.CommitClears | ass5/final_repo/log.c:197-199 | a finished commit leaves an empty header on disk |
| LogFormat.RecoveryClears | ass5/final_repo/log.c:119-121 | a finished recovery leaves an empty header on disk |
| Log.Log.InstallTrans | ass5/final_repo/log.c:68-82 | on the cache, the disk writes are the copies of the log blocks to their home blocks, in order; pins go as blocks are copied; buffers that others hold stay as they are; cut short, a prefix was written |
| Log.Log.WriteLog | ass5/final_repo/log.c:176-190 | the disk writes are the copies of the modified blocks into the log, in order; nothing is unpinned, and buffers that others hold stay as they are |
| Log.Log.ReadHead | ass5/final_repo/log.c:85-95 | the in-memory header becomes the list stored on disk, and nothing is written |
| Log.Log.WriteHead | ass5/final_repo/log.c:101-112 | one disk write, of the header block with the in-memory list in it |
| Log.Log.RecoverFromLog | ass5/final_repo/log.c:115-122 | the disk writes are exactly the recovery writes for the disk as it was, or a prefix of them if the cache runs out of buffers |
| Log.Log.Commit | ass5/final_repo/log.c:192-202 | the disk writes are exactly commit's specified sequence, or a prefix; when done, disk and cache agree with what the cache showed at home; done whenever there are more buffers than logged blocks and buffers that others hold, and those stay as they are |
| Log.Log.LogWrite | ass5/final_repo/log.c:213-233 | succeeds exactly with fewer than 30 blocks logged and fewer than the log on disk holds behind its header; records a block number once (absorption), pins the buffer, and makes its data the latest contents |
| Log.Log.BeginOp | ass5/final_repo/log.c:125-141 | goes ahead exactly if no commit is on and 10 more blocks for every operation and this one fit into the 30 of the log |
| Log.Log.EndOp | ass5/final_repo/log.c:145-173 | the last operation commits, and no other one touches the disk; other processes may hold buffers of blocks that are neither logged nor in the log |
| Log.Boot | ass5/final_repo/log.c:53-66 | initlog on a fresh cache makes exactly the recovery writes and leaves a clean log |
| LogRuns.StepKeeps | ass5/final_repo/log.c:125-233 | every step of any operation, of commit, of a crash and of recovery keeps the invariant of the logging protocol, however many blocks an operation logs |
| LogRuns.RunHolds | ass5/final_repo/log.c:125-233 | so it holds in all states of all runs |
| LogRuns.GroupAtomicity | ass5/final_repo/log.c:125-233 | in every state of every run, recovery gives the effect of the groups whose header write reached the disk, in order; every operation lies in one group only, so it is durable as a whole or lost as a whole; no bound on what an operation logs is assumed |
| LogRuns.NoCommitDuringOperation | ass5/final_repo/log.c:145-173 | while an operation is outstanding no commit is in progress, home blocks on disk are those of the durable groups, and the cache shows these with all pending changes |
| LogRuns.ReservedKept | ass5/final_repo/log.c:125-141 | a step by an operation that appends at most MAXOPBLOCKS block numbers keeps the reservation |
| LogRuns.LogSpace | ass5/final_repo/log.c:125-141 | in every state reached by operations within their budgets, the logged blocks and the unused reservations of all outstanding operations fit into LOGSIZE, block numbers are distinct, and an operation that must append sees room |
| LogRuns.NoPanic | ass5/final_repo/log.c:213-219 | an operation that has not used up its budget meets no "too big a transaction" while what it used, LOGSIZE and 1 stay below MAXOPBLOCKS plus the size of the log on disk |
| LogRuns.PanicsExactly | ass5/final_repo/log.c:213-219 | that bound is sharp for all sizes that leave room for other operations: a log_write within its budget, by an operation that used at most u blocks, can meet the panic if and only if u, LOGSIZE and 1 reach MAXOPBLOCKS plus the size of the log on disk, or u is the whole budget |
| LogRuns.PanicReasons | ass5/final_repo/log.c:218-231 | for a block that is logged already the panic can be met however big the log on disk is, because the test for space comes first; for a new block if and only if the log on disk has LOGSIZE blocks or less |
| LogRuns.PanicReachable | ass5/final_repo/log.c:213-219 | so at the sizes mkfs makes (log size = LOGSIZE = 30) exactly the operations with at most one block to go can meet the panic |
| LogMachine.Machine.BeginOp | ass5/final_repo/log.c:125-141 | begin_op of `Log` is the step Begin of `LogRuns`, granted exactly if there is room |
| LogMachine.Machine.LogWrite | ass5/final_repo/log.c:213-233 | log_write of `Log`, on the cache, is the step LogWrite; it panics exactly where that step cannot be made |
| LogMachine.Machine.NoStep | ass5/final_repo/bio.c:96-141 | bread and brelse are no steps: disk, header and what the cache shows stay as they are |
| LogMachine.Machine.EndOp | ass5/final_repo/log.c:145-202 | end_op is the step End, and for the last operation the steps of the whole commit; the disk makes exactly the writes of commit, or a prefix if the buffers run out, and every image it passes through is the disk of a state of the run |
| LogMachine.CommitSteps | ass5/final_repo/log.c:176-202 | each image that the disk has during a commit is a state of the run, the group being durable from the header write on |
| LogMachine.Boot | ass5/final_repo/log.c:53-66 | after a crash at any moment of any run, a boot goes on with that run: the disk makes exactly the writes of recovery, every image it passes through is in the run, and an empty cache agrees with its last state |
| FsFormat.WithBitBits | ass5/final_repo/fs.c:66-69 | setting or clearing one bit of a number changes that bit only |
| FsFormat.MapBitUpdate | ass5/final_repo/fs.c:66-69 | the same for a bit of a bitmap block |
| FsFormat.InodeRoundTrip | ass5/final_repo/fs.c:220-236 | an inode written to its slot reads back, and the other slots of the block do not change |
| DiskLayout.MapBitIs | ass5/final_repo/fs.c:66-69 | bit i of a bitmap block is bit i mod 8, from the low end, of byte i / 8 |
| DiskLayout.WithBitIs | ass5/final_repo/fs.c:69 | setting a clear bit adds its power of two to the byte, clearing a set one takes it away, and nothing else changes |
| DiskLayout.MarkWritten | ass5/final_repo/fs.c:82-95 | writing the bit of one block changes the mark of that block and of no other, each read from its raw byte |
| DiskLayout.InodeIs | ass5/final_repo/fs.h:29-47 | the inode that the kernel reads is the one whose fields lie little-endian in 64 bytes, eight inodes to a block |
| DiskLayout.InodeWritten | ass5/final_repo/fs.c:220-236 | after iupdate these bytes spell the inode in memory |
| DiskLayout.ContentsAre | ass5/final_repo/fs.c:452-476 | the contents of a file, as the model has them, are the bytes that the addresses on the raw disk lead to: twelve in the inode and 128 in the indirect block, with zeroes for holes |
| DiskLayout.RecoveredIs | ass5/final_repo/log.c:68-122 | recovery, in bytes: each block that the raw header names gets the contents of its log block, the i-th of those behind the header; the other home blocks stay; the header then names none |
| Ownership.BitWrite | ass5/final_repo/fs.c:82-95 | writing one bit of the free map changes the free state of that block and no pointer of any inode |
| Ownership.InodeWrite | ass5/final_repo/fs.c:220-236 | writing an inode back changes no pointer, no other inode and no bit |
| Ownership.IndirectWrite | ass5/final_repo/fs.c:389-394 | storing an entry in an indirect block changes that one pointer of that one file |
| Ownership.AllocKeepsOK | ass5/final_repo/fs.c:57-78 | a block that balloc hands out was nobody's; marking and zeroing it keeps pointers, ownership and the other data |
| Ownership.SetPtrKeepsOK | ass5/final_repo/fs.c:378-394 | linking a fresh block into an inode keeps: pointers lead to data blocks in use, no block has two owners, set bits are exactly metadata plus owned blocks |
| Ownership.GrowAddr | ass5/final_repo/fs.c:378-388 | a new direct or indirect block adds exactly one pointer to the file, keeps the ownership invariant and all contents |
| Ownership.GrowIndirect | ass5/final_repo/fs.c:389-394 | the same for a block behind the indirect block |
| Ownership.GrownKeepsOthers | ass5/final_repo/fs.c:372-400 | growing one file leaves inodes, pointers and block contents of all others alone |
| Ownership.MappedByTwo | ass5/final_repo/fs.c:385-397 | a block reached through a new indirect block: two allocations together still do what bmap promises |
| Supply.LacksMore | ass5/final_repo/fs.c:372-400 | the blocks that a stretch of a file is missing: those for its beginning, and those for the rest once they are there |
| Supply.MappedFills | ass5/final_repo/fs.c:372-400 | bmap fills exactly the pointers that its block is missing: its own, and that to the indirect block |
| Supply.FilledTakes | ass5/final_repo/fs.c:57-78 | as many free blocks are taken as pointers were missing, and exactly those that are behind these pointers now |
| Supply.NotEnough | ass5/final_repo/fs.c:57-78 | if for a part there are too few free blocks, there were too few for the whole |
| Supply.MayLogSize | ass5/final_repo/fs.c:481-511 | what bmap and a copy behind it log: one block for each pointer needed, and one bitmap block for each missing one at most |
| Content.WriteTurn | ass5/final_repo/fs.c:498-504 | one turn of writei's loop writes its bytes at their offset and keeps every other byte of the file, also behind its end and in its holes |
| Content.MappedBytes | ass5/final_repo/fs.c:372-400 | bmap changes no byte of the file: a hole that gets a block reads zeroes as before |
| Content.BlockReads | ass5/final_repo/fs.c:469-474 | bytes of a file inside one block are the slice of that block |
| Content.WrittenMore | ass5/final_repo/fs.c:498-504 | the loop invariant of writei, for any bytes written so far |
| Content.WrittenIsSplice | ass5/final_repo/fs.c:498-504 | after the loop the file's bytes are the old ones with the source spliced in |
| Content.IupdateKeeps | ass5/final_repo/fs.c:506-509 | iupdate puts the in-memory inode on disk and changes no pointer, no contents and no other file |
| Content.SplicedBeyond | ass5/final_repo/fs.c:506-509 | a write that ends beyond the old size is a splice too, and afterwards the inode on disk equals the one in memory |
| Content.SplicedInside | ass5/final_repo/fs.c:506-509 | a write that ends within the old size is a splice, and iupdate does not run |
| Content.StaysOnDisk | ass5/final_repo/fs.c:506-509 | after writei the inode on disk equals the one in memory if and only if the file grew, or no pointer in the inode itself was missing before for the bytes written; so always in a file without holes |
| Content.LoggedSize | ass5/final_repo/fs.c:482-511 | a write logs at most the blocks it touches, one bitmap block for each one missing, the indirect block and the inode |
| Content.MissingNext | ass5/final_repo/fs.c:482-511 | the loops of readi and writei meet a block with too few free ones only if there were too few for all bytes |
| Content.MissingSize | ass5/final_repo/fs.c:372-400 | at most every block touched and the indirect block are missing; in a file without holes, a first block that is only partly written is not |
| Content.OthersContents | ass5/final_repo/fs.c:482-511 | a file that an operation leaves alone keeps its bytes |
| Truncate.NotYetFree | ass5/final_repo/fs.c:410-431 | itrunc never frees a block that is free already |
| Truncate.EmptiedIsOK | ass5/final_repo/fs.c:407-435 | freeing all blocks of one inode keeps the ownership invariant and every other file |
| Truncate.TruncatedBy | ass5/final_repo/fs.c:407-435 | after itrunc the inode has no block and size 0 on disk as in memory, and exactly its blocks became free |
| Fs.Fs.Balloc | ass5/final_repo/fs.c:57-78 | the first block whose bit, read from the raw byte, is clear is marked and zeroed, and no other mark or block changes; a panic exactly when all bits are set |
| Fs.Fs.Bfree | ass5/final_repo/fs.c:82-95 | exactly one mark, read from the raw byte, goes; a panic exactly when it was not there |
| Fs.Fs.Iupdate | ass5/final_repo/fs.c:220-236 | the in-memory inode replaces its slot, and one block is logged |
| Fs.Fs.Bmap | ass5/final_repo/fs.c:372-400 | the address of the block, allocated and zeroed if it was missing; a panic exactly behind MAXFILE blocks or if it lacks more blocks than are free; a mapped block is returned without any change; all other pointers, blocks and inodes stay; its log_writes are actions of `SideBySide` |
| Fs.Fs.Readi | ass5/final_repo/fs.c:452-476 | -1 for an offset behind the end or a wrapping length; else exactly the slice of the file's bytes up to its end, with zeroes for holes; the blocks stay as they are if and only if none of those read was missing; a panic if and only if more are missing than are free, or the bytes go beyond MAXFILE blocks |
| Fs.Fs.Writei | ass5/final_repo/fs.c:481-511 | -1 and nothing changed if the offset lies behind the end or the bytes end beyond MAXFILE blocks; else exactly a splice, holes or not; other files untouched, logged blocks within the bound; a panic if and only if more blocks are missing than are free; its log_writes are actions of `SideBySide` |
| Fs.Fs.Itrunc | ass5/final_repo/fs.c:407-435 | frees exactly the inode's blocks; "freeing free block" is unreachable; logs bitmap blocks and the inode block only, and these log_writes are actions of `SideBySide` |
| FileWrite.ChunkFits | ass5/final_repo/file.c:126-133 | by that count, a chunk of at most 1536 bytes logs at most MAXOPBLOCKS blocks wherever it starts, or one more in a file with holes |
| FileWrite.SplicedTwice | ass5/final_repo/file.c:134-152 | two splices in a row are one splice of both pieces |
| FileWrite.ChunkArrives | ass5/final_repo/file.c:134-152 | which chunks are written when the file cannot hold all bytes: exactly the whole chunks that fit |
| FileWrite.ArriveIs | ass5/final_repo/file.c:126-145 | in numbers: a file has at most 71680 bytes, a transaction writes at most 1536, so n bytes that fit take n / 1536 transactions, rounded up, and of those that do not fit, whole chunks of 1536 arrive |
| FileWrite.WriteChunk | ass5/final_repo/file.c:134-146 | one turn of the loop is one transaction, from begin_op to end_op: a splice of the chunk, or -1 and no change; the blocks it logs, which are those of its log_writes, are at most MAXOPBLOCKS in a file without holes; a panic exactly if there are too few free blocks |
| FileWrite.Filewrite | ass5/final_repo/file.c:118-156 | one transaction for each chunk that is tried, which starts where the one before ended, writes that chunk and logs at most MAXOPBLOCKS = 10 blocks in a file without holes (11 else); together they are one splice of the bytes that arrive; the result is n exactly if all arrive, else -1 with the offset moved past those that did; a panic exactly if there are too few free blocks for the bytes that arrive, and then in the first chunk that lacks them |
| CrashSafety.SoundHome | ass5/final_repo/log.c:115-122 | what the log area holds does not matter to the ownership invariant of the file system |
| CrashSafety.AlwaysSound | ass5/final_repo/log.c:115-202 | if the file system is sound whenever the last outstanding operation has ended, then after a crash at any write of any run, recovery brings back a sound one |
| CrashSafety.Transact | ass5/final_repo/log.c:125-233 | begin_op, bread, log_write and brelse for each block, and end_op: every image that the disk passes through is in the run, and from each, recovery brings back the blocks as before the operation or as after it; it gets to its end if log and cache have room for the blocks it logs |
| CrashSafety.TrailsSound | ass5/final_repo/fs.c:506-509 | if the inode on disk lacks a pointer that the one in memory has, the disk alone is not a sound file system: a block is in use that nobody owns; if it lacks none, it is sound |
| CrashSafety.SpliceTrails | ass5/final_repo/fs.c:497-509 | writei leaves the inode on disk complete, and so the disk sound, if and only if the file grew, or the inode was complete before and the bytes needed none of its own pointers that was missing |
| CrashSafety.Save | ass5/final_repo/log.c:125-233 | an operation of the file system made that way, on a file with holes or without: from every image, recovery brings back what was on disk before it or after it, which is a sound file system with the file as it was then, or an unsound one exactly if the inode on disk lacked a pointer |
| CrashSafety.SaveChunk | ass5/final_repo/file.c:134-146 | at whatever write the disk stops, a chunk of filewrite is in the file as a whole or not at all, and no block is lost or owned twice unless the chunk filled a hole without growing the file; it gets to its end unless there are too few free blocks, if log and cache are made for MAXOPBLOCKS blocks, one more for a file with holes |
| CrashSafety.SaveTruncate | ass5/final_repo/fs.c:407-435 | at whatever write the disk stops, a file that itrunc empties is whole or empty, and no block is lost or owned twice; it gets to its end if log and cache have room for the bitmap and one block more |
| FileSafety.SurviveMore | ass5/final_repo/file.c:135-145 | so much of it holds after each transaction |
| FileSafety.SaveFile | ass5/final_repo/file.c:118-156 | a whole filewrite through cache and log: at whatever write the disk stops, recovery brings back the file with the first few chunks of the write, each as a whole, and nothing of the others; the file system is sound then, but for files with a hole that a chunk filled without growing the file, and for those it is said exactly when |
| Sessions.StartUp | ass5/final_repo/log.c:53-66 | the kernel comes up on a disk as any run left it: its file system is what recovery makes of the disk, at rest if that is sound |
| Sessions.LayoutFits | ass5/final_repo/mkfs.c:94-104 | the superblock that mkfs computes is one to boot from if and only if its metadata fit the disk: log, blocks of all inodes, bits of all blocks and data follow each other; with the sizes of param.h, data start at block 59 |
| Sessions.FirstBoot | ass5/final_repo/mkfs.c:68-168 | the kernel comes up on the image that mkfs made, whose log is empty, and finds in every inode the bytes that were appended to it |
| Sessions.NextBoot | ass5/final_repo/log.c:53-66 | after a stop at any write of a filewrite, the kernel comes up with the file as it was before the write or after one of its chunks, with that inode and those bytes, ready for the next write |
| Sessions.WriteAndBoot | ass5/final_repo/file.c:118-156 | a filewrite that came to its end is there after the next boot |
| Sessions.Lifetime | ass5/final_repo/mkfs.c:68-168 | mkfs, a boot, a filewrite, a stop and a boot again: the file is what mkfs was given, spliced with the first few chunks, and with all that arrive if the write came to its end |
| SideBySide.ActKeeps | ass5/final_repo/fs.c:57-95 | whatever an operation does from one log_write to the next, while others have blocks and inodes in hand, every block stays free, owned once, or in the hands of one operation |
| SideBySide.ActOthers | ass5/final_repo/fs.c:481-511 | an operation touches no inode, pointer or block of a file that another one works on |
| SideRuns.SideBySideSound | ass5/final_repo/log.c:125-233 | crash safety for any number of operations that run side by side: however their log_writes follow each other, and wherever the machine stops, recovery brings back a sound file system |
| FsActs.GrowActs | ass5/final_repo/fs.c:372-400 | the log_writes of balloc for bmap, and putting the block into the inode, are such actions |
| FsActs.GrowEntryActs | ass5/final_repo/fs.c:386-396 | so are those for an entry of the indirect block |
| FsActs.WriteActs | ass5/final_repo/fs.c:497-504 | so is that of a data block by writei |
| FsActs.UpdateActs | ass5/final_repo/fs.c:220-236 | so is that of iupdate |
| FsActs.DirectActs | ass5/final_repo/fs.c:414-419 | so is that of bfree for a direct block by itrunc, and dropping the pointer |
| FsActs.DropActs | ass5/final_repo/fs.c:421-428 | so are those of itrunc for the entries of an indirect block, which still stand there when their blocks are free |
| FsActs.IndirectActs | ass5/final_repo/fs.c:429-431 | so is that for the indirect block itself |
| FsActs.MayEnd | ass5/final_repo/fs.c:506-509 | such an operation may end, as far as the others are concerned, if and only if the inode on disk is the one in memory |
| Mkfs.SyncedTake | ass5/final_repo/mkfs.c:272-284 | `freeblock++` is the kernel's balloc on the image with the used blocks marked |
| Mkfs.Builder.Ialloc | ass5/final_repo/mkfs.c:223-235 | a new inode of the type with no blocks; all files built so far are kept |
| Mkfs.Builder.Direct | ass5/final_repo/mkfs.c:271-275 | the direct block of the file, as the kernel's bmap would give it |
| Mkfs.Builder.Indirect | ass5/final_repo/mkfs.c:276-286 | the block behind the indirect block, as the kernel's bmap would give it |
| Mkfs.Builder.Iappend | ass5/final_repo/mkfs.c:255-297 | the bytes are appended to this file and no other file changes; fails if and only if the file would exceed MAXFILE blocks or more blocks are missing than are left |
| Mkfs.RoundedHole | ass5/final_repo/mkfs.c:158-163 | rounding a size up keeps the file free of holes if and only if the size was no multiple of the block size, or the file is as large as can be |
| Mkfs.Builder.FixRoot | ass5/final_repo/mkfs.c:158-163 | the root directory's size becomes the multiple of 512 next above it; its last block is a hole exactly when the directory filled its blocks |
| Mkfs.Builder.Balloc | ass5/final_repo/mkfs.c:237-252 | byte j of the bitmap block that mkfs writes is 2 to the k, less 1, where k is freeblock - 8j, clamped to 0 and 8; so exactly the blocks before freeblock are marked; fails exactly if one bitmap block is not enough |
| Mkfs.BytesOfImage | ass5/final_repo/mkfs.c:223-297 | the finished image, in raw bytes: each inode's size field, the bytes that its addresses lead to, which are those appended to it, and the marks of exactly the blocks before freeblock |
| Mkfs.ReadBack | ass5/final_repo/mkfs.c:255-297 | the kernel's readi on the finished image returns, for every inode, the slices of what was appended to it, and zeroes up to the rounded size of the root directory; a panic if and only if it reaches into the hole that rounding made and mkfs did not leave the one or two blocks for it |
| Mkfs.FillHole | ass5/final_repo/fs.c:481-511 | the kernel's writei into the hole that rounding made leaves the inode on disk behind if and only if the block is a direct one or needs the indirect block |
| CrashSafety.BuiltSound | ass5/final_repo/mkfs.c:237-252 | the finished image satisfies the kernel's ownership invariant |
| Umalloc.InsertedSound | ass5/final_repo/umalloc.c:36-44 | linking a live block at its place keeps the address-ordered cycle, disjointness and the sum of units |
| Umalloc.MergedSound | ass5/final_repo/umalloc.c:33-42 | swallowing the adjacent next block does, too |
| Umalloc.FreedOK | ass5/final_repo/umalloc.c:24-44 | free makes exactly the block's bytes free, keeps all live blocks, and leaves no free block that ends where another begins |
| Umalloc.OneCycle | ass5/final_repo/umalloc.c:30-32 | following ptr from any block of the list leads to any other: the list is one cycle |
| Umalloc.OneDescent | ass5/final_repo/umalloc.c:30-32 | on the way round, addresses descend exactly once |
| Umalloc.HasPlace | ass5/final_repo/umalloc.c:30-32 | every live block has a place in the ring, so free's loop ends |
| Umalloc.TakenOK | ass5/final_repo/umalloc.c:74-76 | handing out a whole block: its bytes and no others stop being free; units are conserved |
| Umalloc.CarvedOK | ass5/final_repo/umalloc.c:77-81 | handing out the tail of a block, likewise |
| Umalloc.NUnitsSuffice | ass5/final_repo/umalloc.c:69 | the unit count covers the requested bytes if and only if rounding up does not wrap around 32 bits, and then no smaller count does |
| Umalloc.CoreUnitsAre | ass5/final_repo/umalloc.c:51-54 | sbrk is asked for the units needed, but for 4096 at least |
| Umalloc.SbrkArgExact | ass5/final_repo/umalloc.c:54 | the argument that sbrk reads equals the bytes meant if and only if there are fewer than 2 to the 28 units |
| Umalloc.HeaderBeyond | ass5/final_repo/proc.c:185-201 | from 2 to the 28 units on, sbrk reads 0 or less; if it succeeds, the address it returns is at or behind the end of memory |
| Umalloc.NoneLeft | ass5/final_repo/umalloc.c:73-88 | malloc comes back to freep without a fit at most once, and then no free block fits |
| Umalloc.Heap.Free | ass5/final_repo/umalloc.c:24-44 | the loop terminates and the four merging cases give that state; freep is left at the block that free's search stopped at, the one before the freed block in the ring |
| Umalloc.Heap.Morecore | ass5/final_repo/umalloc.c:46-61 | 0 exactly if sbrk fails, with nothing changed; else the new units are free, merged, and counted, and some block has that many units |
| Umalloc.Heap.Malloc | ass5/final_repo/umalloc.c:63-90 | terminates with at most one morecore; returns a block of exactly the units needed that was free or is new, disjoint from all live blocks; takes the first fit from freep on, and leaves freep at the block before it; 0 only if sbrk failed, with nothing changed; stops exactly if sbrk would be asked for 2 to the 28 units or more; list coalesced and units conserved |
| SleepWakeup.StepKeeps | ass5/final_repo/proc.c:529-586 | every step of acquire, release, sleep, wakeup, scheduling and kill keeps the invariant, for any number of processes, but for a killed writer that gives up on a full pipe while a reader sleeps |
| SleepWakeup.GivingUpForgets | ass5/final_repo/pipe.c:84-91 | that step always leaves a sleeping reader forgotten |
| SleepWakeup.LostWakeups | ass5/final_repo/pipe.c:84-91 | in a run, kills included, somebody is ever asleep without a reason while the lock is free if and only if such a step is made; so never in runs about sleep-locks and the log |
| SleepWakeup.NoLostWakeup | ass5/final_repo/proc.c:529-586 | until such a step, whenever the condition lock is free, a process asleep in acquiresleep sees the lock held, in begin_op committing or no space, in piperead an empty pipe with writeopen, in pipewrite a full pipe with readopen |
| SleepWakeup.KilledWriterForgets | ass5/final_repo/pipe.c:84-91 | a run in which it happens: a killed writer fills the pipe and the reader sleeps on |
| SleepWakeup.MutualExclusion | ass5/final_repo/sleeplock.c:22-42 | in every run, kills included, a sleep-lock has at most one holder, is locked while it has one, and is released by its holder; that it is free while it has none is part of `SleepRuns.DataSay` |
| SleepRuns.DataSay | ass5/final_repo/sleeplock.c:22-42 | in every run the data say what happened: a sleep-lock is locked if and only if somebody got it and has not released it since, and that is the process it names; outstanding is the operations granted less those ended (log.c:125-173); committing holds from the end of the last operation to the end of the commit; the log's length is the blocks logged since it was cleared; a pipe's count is the bytes written less the bytes taken, at most its size, and an end is open until it is closed (pipe.c:59-121) |
| SleepRuns.Returned | ass5/final_repo/pipe.c:78-121 | in every run a call returns only when it has done what it is for: the lock was got or released once, the operation granted or ended once (sleeplock.c:22-42, log.c:125-173), every byte written or taken; piperead with fewer only if there are no more, and with none only if killed or the write end is closed; pipewrite with fewer only on a full pipe if killed or the read end is closed |
| SleepRuns.EndOpSound | ass5/final_repo/log.c:145-173 | if processes call begin_op and end_op in pairs, outstanding is in every run the number of processes in an operation, none is in one during a commit, and end_op never meets its panic |
| ProcTable.PTable.Allocproc | ass5/final_repo/proc.c:76-138 | the first UNUSED slot becomes an EMBRYO with the next pid, the present time as ctime, rtime 0 and etime -1; without memory for the stack only a pid is lost |
| ProcTable.PTable.Fork | ass5/final_repo/proc.c:206-249 | one slot becomes a RUNNABLE child of the caller with the pid returned, born now, with rtime 0 and etime -1; or no slot changes its state and parent and -1 is returned |
| ProcTable.PTable.Exit | ass5/final_repo/proc.c:276-294 | the caller becomes a ZOMBIE, its children initproc's, and exactly the waiters of its parent, and initproc if it inherits a zombie, are woken |
| ProcTable.PTable.Wakeup1 | ass5/final_repo/proc.c:569-577 | exactly the sleepers on the channel become RUNNABLE |
| ProcTable.PTable.FindChild | ass5/final_repo/proc.c:309-323 | whether there is a child, and the first zombie among the children |
| ProcTable.PTable.Wait | ass5/final_repo/proc.c:300-347 | one turn: the first zombie child is reaped and its pid returned; -1 exactly if there is none and there are no children or the caller was killed; else it sleeps |
| ProcTable.PTable.Waitx | ass5/final_repo/proc.c:351-410 | the same, with the run time of the reaped child and the time that it neither ran |
| ProcTable.PTable.Kill | ass5/final_repo/proc.c:591-610 | the first slot with the pid is marked and woken if asleep; -1 if there is none |
| ProcTable.PTable.IncrementTimes | ass5/final_repo/proc.c:693-713 | the run time of exactly the RUNNING processes grows by one |
| ProcTimes.TimesAreItsOwn | ass5/final_repo/proc.c:76-138 | in every run, whatever the slot held before: the process in it got its pid and ctime when fork last took the slot, its rtime is the time it ran since, and its etime is -1 until it exits, and then the time at which it did |
| ProcTimes.ReapedTimes | ass5/final_repo/proc.c:351-410 | so waitx reports the times of the child that it returns: what that child ran, between its own birth and its own exit |
| ProcTimes.EmptyStays | ass5/final_repo/proc.c:300-347 | a slot that wait emptied has no pid and no parent until fork takes it again |
| ProcTimes.MarkedSince | ass5/final_repo/proc.c:591-610 | in every state of a run, a slot is marked killed if and only if kill hit it since it was last emptied |
| ProcRuns.NextKeeps | ass5/final_repo/proc.c:76-410 | every step of fork, exit, wait, waitx, kill, sleep, wakeup and scheduling keeps the invariant of the process table |
| ProcRuns.TableIsTree | ass5/final_repo/proc.c:206-410 | in every run, UNUSED slots have no parent, and going up from any live process or zombie one comes to initproc |
| ProcRuns.SamePid | ass5/final_repo/proc.c:76-98 | in every run, two processes in the table share a pid if and only if a multiple of 2 to the 32 pids was handed out in between |
| ProcRuns.PidsDistinct | ass5/final_repo/proc.c:76-98 | so pids are distinct until 2 to the 32 processes have been allocated |
| ProcRuns.PidClash | ass5/final_repo/proc.c:76-98 | that bound is sharp: after one more allocation, a run has the first process and its child alive with the same pid |
| ProcRuns.BornKilled | ass5/final_repo/proc.c:206-249 | in a run, the child that fork makes RUNNABLE is marked killed if and only if some kill hit its slot while that was UNUSED or an embryo, since wait last emptied it |
| ProcRuns.MarkedBy | ass5/final_repo/proc.c:591-610 | so it is for every slot without a process, in every state of a run |
| ProcRuns.KillZero | ass5/final_repo/proc.c:591-610 | a run in which kill(0) does this: it hits the slot of the next child, which is born killed |
| ProcRuns.ReapedOnce | ass5/final_repo/proc.c:300-410 | in every run, each process that exited is a zombie in the table and was not returned, or was returned by exactly one wait or waitx |
| ProcRuns.ReapedByParent | ass5/final_repo/proc.c:300-410 | that one call was made by its parent at the time, and returned its pid |
| ProcRuns.NoZombieForgotten | ass5/final_repo/proc.c:276-294 | in every run, a process asleep in wait or waitx has a child, no zombie child, and was not killed |
| Pipe.SlotsAgree | ass5/final_repo/pipe.c:93 | the slot computed from the wrapped counter is right for all counts if and only if the size divides 2 to the 32 |
| Pipe.Tests | ass5/final_repo/pipe.c:85 | the tests for empty and full on wrapped 32-bit counters are exact |
| Pipe.Pipe.InOrder | ass5/final_repo/pipe.c:78-121 | bytes read followed by bytes buffered are the bytes written, and nwrite - nread modulo 2 to the 32 is their number, at most the size |
| Pipe.Pipe.Write | ass5/final_repo/pipe.c:78-98 | the bytes go in in order; it stops early only on a full pipe, to sleep if the read end is open and it is not killed, else with -1 |
| Pipe.Pipe.Read | ass5/final_repo/pipe.c:100-121 | takes the oldest bytes, as many as asked for or there are; for n > 0 nothing only if the pipe is empty and the write end closed |
| Pipe.Pipe.Close | ass5/final_repo/pipe.c:59-75 | closes one end, wakes those who sleep on the other, and gives the page back exactly if both are closed |
| ShellSyntax.LexOrder | ass5/final_repo/sh.c:265-308 | tokens come in order without overlap, and two words never touch |
| ShellSyntax.LineSound | ass5/final_repo/sh.c:344-446 | every tree has words for strings, at most MAXARGS - 1 arguments in a command, and redirections in one of the two ways |
| ShellForms.FormOfMeans | ass5/final_repo/sh.c:344-446 | every tree with valid words and at most 9 arguments to a command can be written, with parentheses where the operators demand them |
| ShellRoundTrip.LexSpaced | ass5/final_repo/sh.c:265-308 | the tokens of words that were written with any whitespace between them, or none where none is needed, are these words |
| ShellRoundTrip.LexGaps | ass5/final_repo/sh.c:265-308 | and every text is such words: those of its tokens, with whitespace between them |
| ShellRoundTrip.WrittenIsRead | ass5/final_repo/sh.c:327-446 | a command in any of the ways to write it, with `<`, `>` and `>>` before, between and behind the arguments and with any whitespace, parses to the tree that it means, to the last token |
| ShellRoundTrip.ReadIsWritten | ass5/final_repo/sh.c:327-446 | every text that parses is one of the ways to write the tree it parses to |
| ShellRoundTrip.ParsesExactly | ass5/final_repo/sh.c:327-446 | so a text parses to a tree if and only if it is a way to write that tree |
| ShellRoundTrip.RoundTrip | ass5/final_repo/sh.c:327-446 | every well-formed tree is read back from its text, with any whitespace |
| ShellRoundTrip.ParsedWellFormed | ass5/final_repo/sh.c:327-446 | every tree that any text parses to is well-formed |
| ShellErrors.NoFile | ass5/final_repo/sh.c:380-383 | a text that ends with a redirection operator behind any arguments and redirections panics for the missing file |
| ShellErrors.NoBlockHere | ass5/final_repo/sh.c:431-435 | an opening parenthesis behind an argument or redirection is a syntax error |
| ShellErrors.TooMany | ass5/final_repo/sh.c:436-440 | a tenth argument panics, wherever redirections stand |
| ShellErrors.NotOpened | ass5/final_repo/sh.c:333-338 | a closing parenthesis that nobody opened is left over |
| ShellErrors.NotClosed | ass5/final_repo/sh.c:404-410 | a block that is not closed panics for the missing parenthesis |
| Shell.Parser.Gettoken | ass5/final_repo/sh.c:265-308 | kind and place of exactly the next token, with the cursor behind it; terminates on every input |
| Shell.Parser.Peek | ass5/final_repo/sh.c:310-319 | whether the next token starts with one of the characters, without consuming it |
| Shell.Parser.Parseredirs | ass5/final_repo/sh.c:374-397 | reads exactly the redirections of the grammar around the command, or panics as it says; `ShellRoundTrip.ParsesExactly` says what they mean: `<` opens for reading on descriptor 0, `>` and `>>` for writing on descriptor 1, creating the file |
| Shell.Parser.Parseexec | ass5/final_repo/sh.c:415-446 | reads exactly a simple command or block of the grammar; the argument limit included |
| Shell.Parser.Parseblock | ass5/final_repo/sh.c:399-413 | reads exactly a parenthesised line and its redirections |
| Shell.Parser.Parsepipe | ass5/final_repo/sh.c:361-372 | reads exactly a pipeline of the grammar |
| Shell.Parser.Parseline | ass5/final_repo/sh.c:344-359 | reads exactly a line of the grammar |
| Shell.Parser.Nulterminate | ass5/final_repo/sh.c:449-493 | writes a NUL at the end of every string of the tree and nowhere else |
| Shell.EndsOutside | ass5/final_repo/sh.c:449-493 | no terminator lands inside a word |
| Shell.WordRead | ass5/final_repo/sh.c:449-493 | after termination every word reads as exactly its token |
| Shell.Parser.Parsecmd | ass5/final_repo/sh.c:327-341 | what the final buffer holds, read through the tree, is the tree of the grammar for the input; an error leaves the buffer alone |
| Grep.FirstElem | ass5/final_repo/grep.c:84-106 | the language of a pattern, split at its first element |
| Grep.HereStar | ass5/final_repo/grep.c:89-90 | `c*` followed by a pattern matches exactly if it does behind some run of fitting characters |
| Grep.HereOne | ass5/final_repo/grep.c:93-94 | one character followed by a pattern |
| Grep.HereDollar | ass5/final_repo/grep.c:91-92 | a final `$` matches exactly at the end |
| Grep.Matchhere | ass5/final_repo/grep.c:84-96 | true exactly if a prefix of the text is in the language of the pattern; terminates |
| Grep.Matchstar | ass5/final_repo/grep.c:98-106 | true exactly if the pattern matches behind some run of characters that fit c; terminates |
| Grep.Match | ass5/final_repo/grep.c:72-82 | true exactly if some substring of the text is in the declarative language of the pattern, at the ends that `^` and `$` demand |
| Grep.PlainMatches | ass5/final_repo/grep.c:72-106 | for a pattern without `*` this is: the text has the characters of the pattern in a row, a dot standing for any, at its beginning after `^` and at its end before `$` |
| Grep.StarMatches | ass5/final_repo/grep.c:84-106 | `^c*$` matches exactly the texts that are made of that character, or every text if it is a dot |
| Kalloc.Kmem.Alloc | ass5/final_repo/kalloc.c:82-96 | the head of the free list leaves it; nothing exactly if the list is empty |
| Kalloc.Kmem.Free | ass5/final_repo/kalloc.c:59-77 | the frame becomes the head and is filled with junk; a panic exactly for a frame out of range; the list stays without repetition if and only if the frame was not free |
| Kalloc.Kmem.FreeRange | ass5/final_repo/kalloc.c:46-53 | exactly the frames of the range become free, each once |
| PageTable.RepNewTable | ass5/final_repo/vm.c:44-53 | a zeroed frame entered in the directory adds a page table that maps nothing |
| PageTable.RepPte | ass5/final_repo/vm.c:73 | writing one page table entry changes what that one page maps to |
| PageTable.TableApart | ass5/final_repo/vm.c:44-53 | a frame that becomes a page table is owned once; no frame is lost |
| PageTable.UnmapApart | ass5/final_repo/vm.c:274-281 | unmapping a page takes exactly its frame out of the address space |
| Vm.Walk | ass5/final_repo/vm.c:35-56 | without alloc: the page table of the page if there is one, and the entry found there is the mapping |
| Vm.WalkAlloc | ass5/final_repo/vm.c:35-56 | with alloc: a missing page table is made from a free frame, and the directory word becomes that frame's address plus 7: present, writeable and open to user mode; nothing that is mapped changes; fails exactly if the table is missing and no frame is free |
| Vm.Translated | ass5/final_repo/mmu.h:68-101 | the processor's walk over the raw words of directory and page table gives every page, in either mode, exactly what the page's entry grants; the directory word of each page table is its address plus 7 |
| Vm.Mappages | ass5/final_repo/vm.c:60-80 | maps exactly the pages of the range to frames in a row, in kernel and user memory; fails if and only if there are fewer free frames than missing page tables, having mapped a prefix; frames are conserved |
| Vm.Deallocuvm | ass5/final_repo/vm.c:256-284 | unmaps exactly the pages from the new size up to the old one, skipping missing page tables, and frees each frame once; the processor then finds these pages in none of the words, and a program sees the others as before |
| Vm.Allocuvm | ass5/final_repo/vm.c:226-253 | maps exactly the pages between the sizes, to zeroed frames, which a program can then read and write by the raw words of directory and page table, while it sees all other pages as before; 0 if and only if the size is not allowed or there are fewer free frames than pages and missing page tables, and then user memory is mapped as before; frames are conserved |
| Vm.Freevm | ass5/final_repo/vm.c:288-303 | every frame of the address space, directory and page tables included, comes back to the free list exactly once |
| Vm.KernelMapOK | ass5/final_repo/vm.c:105-115 | the lines of kmap lie in the kernel's part and do not overlap |
| Vm.Setupkvm | ass5/final_repo/vm.c:118-136 | a new address space that maps exactly kmap; or, if and only if there are fewer free frames than a directory and its page tables take, no frame lost |
| Vm.ShippedFrames | ass5/final_repo/vm.c:105-115 | for the table kmap as it is, these are 65 frames |
| Vm.KernelSees | ass5/final_repo/vm.c:105-115 | with that table, the processor gives the kernel all physical memory behind KERNBASE and the devices at the end, each page where it lies, for writing all but the kernel's text, and gives a program none of it |
| Vm.Copyuvm | ass5/final_repo/vm.c:320-350 | the child maps exactly the pages below sz, to fresh distinct frames with the same bytes and flags, so that by the raw words it sees of every page below KERNBASE what the parent sees below sz and nothing else; or, if and only if there are fewer free frames than that takes, nothing, and the free frames are as before; the parent does not change |

## Left out

- Bio.Bcache.Bread: not for a block that another process holds or waits for at that time, where bget sleeps; that sleep is `SleepWakeup`'s.
- Log.Log.Commit: while nobody else holds a block of the log or a logged block; bread would wait for them.
- Log.Log.InstallTrans: as Log.Log.Commit, whose part it is.
- Log.Log.WriteLog: as Log.Log.Commit, whose part it is.
- Log.Log.WriteHead: while nobody else holds the header block, which only the log itself reads or writes.
- Log.Log.EndOp: as Log.Log.Commit, when the last operation ends.
- Log.Log.LogWrite: as one uninterrupted call; several processes take turns in `LogMachine` and `LogRuns`, whose operations are atomic log_writes.
- Fs.Fs.Readi: not the branch for device inodes, which calls a driver; in a hole it is taken to run inside a transaction, while fileread (file.c:95-114) calls it outside of one, where log_write would panic.
- Fs.Fs.Writei: not the branch for device inodes, which calls a driver.
- CrashSafety.Transact: one operation at a time, whose log_writes are made through cache and log in their order after `Fs` has found them; for operations that run side by side, `SideRuns` says that the file system stays sound, and `SideBySide.ActOthers` that they leave each other's files alone.
- CrashSafety.Save: as CrashSafety.Transact.
- CrashSafety.SaveChunk: as CrashSafety.Transact.
- CrashSafety.SaveTruncate: as CrashSafety.Transact.
- FileSafety.SaveFile: as CrashSafety.Transact.
- SideRuns.SideBySideSound: that the methods of `Fs` make such actions is proved of each method when its operation runs alone; that they find their own inode and buffers unchanged when it does not is what the locks are for (`SleepWakeup`).
- FileWrite.Filewrite: chunks of one call, without other processes' writes to the same file between them; its branch for pipes is `Pipe`.
- Mkfs.Builder.Iappend: the model stops when freeblock reaches the size of the file system, where mkfs, which does not check this, would go on writing behind it.
- Umalloc.Heap.Malloc: the model stops where sbrk would read its argument as zero or negative; what the program does behind the end of memory then is not modelled. The program calls sbrk nowhere else and does not write over headers.
- Umalloc.Heap.Morecore: as Umalloc.Heap.Malloc, for requests of 2 to the 28 units or more.
- SleepWakeup.NoLostWakeup: nothing is said about progress, only that nobody sleeps without a reason.
- ProcTable.PTable.Fork: as one uninterrupted call; its separate steps are those of `ProcRuns`.
- ProcRuns.ReapedOnce: a zombie whose parent never waits stays one; that it is waited for is not claimed.
- Shell.Parser.Parseexec: command nodes are values, and filling the arguments of a command that redirections already wrap is `AddArg` on the tree instead of a write through a pointer; malloc does not fail.
- Kalloc.Kmem.Alloc: the free list is a sequence, not links inside the frames.
- Vm.Mappages: addresses are page numbers and sizes whole pages, as all callers pass them; that no page is mapped twice ("remap") is required.
- Vm.Deallocuvm: not for an old size above KERNBASE, which allocuvm never grants a process.
- Vm.Copyuvm: every page below sz is mapped in the parent, as fork has it.
- Directories, path names, link counts, the inode cache and the file table (fs.c:163-369, fs.c:514-672, file.c:1-95).
- The superblock's own block: its fields are given to both mkfs and the kernel.
- Hardware and boot code, interrupts, context switching, system call arguments and exec; the disk is the one of memide.c.
- Console, formatted output, and the remaining user programs; the buffering loop of grep (grep.c:11-36), which drops partial lines.
- Times other than ctime, rtime and etime, which getpinfo reports; that increment_times does not take ptable.lock, so that it may run between the steps of the others; the order in which the scheduler picks processes.
- Spinlocks themselves: a critical section is one method, or steps under a lock with one holder.
- The exercises in ass4.
