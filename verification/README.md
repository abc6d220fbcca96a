# Models of the xv6 labs

This project models the parts of the repository whose correctness is hardest to see by reading: the xv6 kernel and
user library of lab quiz 4, the process table of lab 5, the semaphores and barrier of lab quiz 3, the reader-writer
lock of lab 9 and the small file system of lab 11. `dafny verify dfyconfig.toml` checks all of it.

Most components come as two modules. One gives the meaning: values, functions on them, and the theorems over every
run. The other (`...Code`) is the program: classes whose fields are the program's own, methods with its loops and
branches, and contracts that equate what each method leaves behind with the functions of the first. Files share
modules only where the components do.

- `Log`, `LogCode`, `LogSpace`: the write-ahead log. Each disk write is one step and a crash may come between any two,
  recovery included. `LogSpace` is the interleaving of operations that share one log.
- `Bio`: the buffer cache, as a list in order of release and as the linked ring of buffers.
- `Block`, `FsModel`, `FsCode`, `FsCount`, `FsRuns`, `FsShared`: blocks of bytes with words and bits in them, the
  bitmap, the direct and indirect maps, `readi`, `writei`, `itrunc`, `filewrite`, and when the disk is full.
- `FsCrash`: calls over the log, with crashes at any disk write.
- `Mkfs`, `FsBoot`, `FsDirs`: the image `mkfs` builds, the running file system that boots from it, and its directory.
- `Links`, `LinksCode`: directories, link counts, and inodes with references and locks.
- `Heap`, `HeapCode`: the user heap as blocks of units, and its ring of headers in memory.
- `Kalloc`, `Vm`, `VmOps`, `VmSpaces`, `VmFork`, `VmBytes`, `VmRuns`, `VmCost`, `VmCode`: frames, the two-level page
  tables and the flat maps they stand for, address spaces, and what user programs read.
- `Proc`, `ProcCode`: the process table, where a dead process's own parent adopts its children. A comment in the
  source still says init; the code wakes init, but hands them to the grandparent.
- `Pipe`, `PipeCode`, `Semaphore`, `ProdCon`, `RwLock`, `Barrier`: blocking protocols, as steps of any number of threads.
- `Grep`, `Shell`, `ShellGrammar`, `ShellCode`: the pattern matcher against a language defined without it, and the
  shell's parser against a grammar of what is typed and a printer of commands.
- `Emufs`, `EmufsCode`: the bitmap-and-inode file system with an encrypting mount.

## Where the code does not do what one would expect

Each of these is proved, with the exact condition under which the code does meet the property.

- A killed writer that fills a pipe returns without waking the readers, so a reader can sleep at a full pipe
  (`Pipe.PromptIff`, `Pipe.StrandingHappens`). Readers and writers still never sleep together.
- A directory can be unlinked while it is some process's current directory. Creating or linking a name in it then
  breaks the link counts, and nothing else does (`Links.CountsKeptIff`, `Links.StrayHappens`). Following its `..` when
  the parent is gone too leaves the counts right, but refers to a freed inode, and locking that is the panic
  "ilock: no type" (`Links.StrayLookup`).
- `mkfs` rounds the root's size past the next block boundary even when it is on one, and then claims a block that is
  not mapped: exactly when the number of root entries is a multiple of 32 (`Mkfs.Mkfs`, `Mkfs.RoundUp`, `Mkfs.BrokenRoot`).
- `mkfs` does not compare the names it is given, and cuts them to 14 characters: its image is a sound directory tree
  exactly when the names that are left are distinct and neither `.` nor `..` (`FsDirs.ImageStarts`).
- `growproc` takes the new size 0 for a failure: the pages are gone and the size stays (`VmRuns.GrowKeepsIff`), so the
  next fork panics on the missing pages (`VmRuns.EmptiedForkPanics`). A shrink below 0 wraps: nothing changes, and
  a success is reported unless the size was 0. Neither loses a frame.
- `copyuvm` loses the frame it has just taken when the page table for it cannot be had. For a parent of q pages that is
  exactly when 66 + 1025 j frames are free for some j with 1024 j < q (`VmCost.CopyUvmCost`, `VmCost.LossHappens`), and
  over a run as many frames are lost as there are such forks (`VmCost.LossesAre`).
- `uva2ka` reads through the null pointer that `walkpgdir` gives it when the page table is missing, so `copyout` does
  exactly when copying stops there (`VmCode.Machine.Copyout`).
- The log is exactly large enough for operations of up to nine blocks. Three that log ten distinct blocks each, which
  their reservation allows, panic: `log_write` refuses the 30th entry because it leaves one slot unused
  (`LogSpace.PanicFreeIff`, `FsBoot.LogSuffices`).
- `eread` on a mount that does not encrypt copies with `strcpy`, which stops at the first NUL of the data
  (`EmufsCode.Mount.WriteSeekRead` has the condition, `EmufsCode.ZerosAreLost` an input).
- `barrier_wait` has no loop around its wait, and every spurious wakeup breaks it (`Barrier.KeptIff`).

## Model

| member | source | states |
|---|---|---|
| Log.CrashAtomicity | 160050097-labquiz4/xv6/log.c:68-122 | For a log of any size nlog: a commit that crashes after any number of writes, then any number of recoveries that crash anywhere, then one that completes, leaves every block outside the log new if the header write with n > 0 reached the disk and old otherwise, and the log empty |
| Log.RunsAreAtomic | 160050097-labquiz4/xv6/log.c:176-202 | Over any run of commits, crashes and crashing recoveries the home blocks are those of a disk that performs whole transactions, exactly the ones whose header write was reached, in order |
| Log.CommitCrash | 160050097-labquiz4/xv6/log.c:193-202 | The disk after each prefix of a commit's writes: untouched up to the header write, pending from there, installed and clean at the end |
| Log.RecoverPending | 160050097-labquiz4/xv6/log.c:116-122 | Recovery of a pending transaction installs all of it and empties the log, from any partly installed disk |
| Log.RecoverClean | 160050097-labquiz4/xv6/log.c:116-122 | Recovery of a clean disk changes no home block |
| Log.RecoverCrashPending | 160050097-labquiz4/xv6/log.c:68-82 | A recovery that crashes leaves the same transaction pending, or done once its header is erased |
| Log.HeadRoundTrip | 160050097-labquiz4/xv6/log.c:84-113 | The header read back from its disk block is the list of block numbers written, word by word |
| LogCode.LogState.WriteLog | 160050097-labquiz4/xv6/log.c:178-190 | The loop writes the pinned contents of each listed block into its log slot, in order, and nothing else |
| LogCode.LogState.WriteHead | 160050097-labquiz4/xv6/log.c:102-113 | One disk write of the header block with the in-memory count and numbers |
| LogCode.LogState.ReadHead | 160050097-labquiz4/xv6/log.c:86-96 | The in-memory list becomes the one on disk |
| LogCode.LogState.InstallTrans | 160050097-labquiz4/xv6/log.c:70-82 | The loop writes each log slot to its home block, in order, and unpins exactly those blocks |
| LogCode.LogState.Commit | 160050097-labquiz4/xv6/log.c:193-202 | The writes of a commit are the ones crash atomicity is proved about; on a clean log every pinned block is then home and every other block outside the log as before; memory and disk hold no transaction |
| LogCode.LogState.RecoverFromLog | 160050097-labquiz4/xv6/log.c:116-122 | The writes of recovery are the ones crash atomicity is proved about |
| LogCode.LogState.LogWrite | 160050097-labquiz4/xv6/log.c:214-233 | Pins the block with its new contents and lists it at the end, or not again if it is listed (absorption); panics exactly when LOGSIZE or nlog - 1 blocks are listed or no operation is outstanding |
| LogCode.LogState.BeginTry | 160050097-labquiz4/xv6/log.c:126-141 | Enters if and only if no commit runs and the blocks listed, the outstanding operations and this one, at MAXOPBLOCKS each, fit LOGSIZE; asked at any time, in the middle of a commit too |
| LogCode.LogState.EndOp | 160050097-labquiz4/xv6/log.c:146-163 | One operation fewer; commits, and is committing, exactly when none is left; panics exactly when a commit runs |
| LogCode.LogState.Reopen | 160050097-labquiz4/xv6/log.c:164-173 | After the commit operations may begin again |
| LogSpace.Invariant | 160050097-labquiz4/xv6/log.c:125-174 | In every interleaving the listed blocks are those the operations logged and their reservations fit |
| LogSpace.Reserved | 160050097-labquiz4/xv6/log.c:125-141 | lh.n plus the unused part of every outstanding reservation stays within LOGSIZE, and committing means no operation is outstanding |
| LogSpace.BeginsIff | 160050097-labquiz4/xv6/log.c:126-141 | In every reachable state an operation gets in if and only if no commit runs and the log has room for one more reservation |
| LogSpace.WaitsForSomeone | 160050097-labquiz4/xv6/log.c:125-174 | In every reachable state in which begin_op waits a commit can go on or an operation can end |
| LogSpace.NoPanic | 160050097-labquiz4/xv6/log.c:213-233 | No reachable log_write or end_op panics while each operation logs fewer than MAXOPBLOCKS distinct blocks and nlog is at least LOGSIZE |
| LogSpace.PanicFreeIff | 160050097-labquiz4/xv6/log.c:213-233 | With nlog = LOGSIZE or more no interleaving panics if and only if operations log fewer than MAXOPBLOCKS distinct blocks; the run that does panic logs blocks behind the log, which callers may |
| FsBoot.LogIsApart | 160050097-labquiz4/xv6/mkfs.c:93-115 | With the layout mkfs writes the log is blocks 2 to 31, and every inode, bitmap and data block is outside it |
| FsBoot.LogSuffices | 160050097-labquiz4/xv6/log.c:213-233 | For that log: panic-free if and only if operations log fewer than ten distinct blocks |
| Bio.CacheIsBlockMap | 160050097-labquiz4/xv6/bio.c:58-141 | Over every run of bread, bwrite, brelse and log pins by callers that pin or write before they release, what readers see is a plain block map; every key is cached at most once and the list stays in order of release |
| Bio.DiskIsLastWrite | 160050097-labquiz4/xv6/bio.c:110-116 | Over every run block k of the disk is what readers of k saw at the last bwrite of it, or what was there at the start |
| Bio.StepRefines | 160050097-labquiz4/xv6/bio.c:58-141 | Each single call does to what readers see what it does to the map |
| Bio.RecycleKeeps | 160050097-labquiz4/xv6/bio.c:76-93 | Recycling picks the least recently released idle buffer and no reader can tell |
| Bio.BreadGives | 160050097-labquiz4/xv6/bio.c:97-106 | bread returns the buffer of that block, holding what readers see there |
| Bio.ReleaseKeeps | 160050097-labquiz4/xv6/bio.c:121-141 | Releasing a pinned or written buffer loses no modification |
| Bio.MayRelease | 160050097-labquiz4/xv6/bio.c:110-116 | After a write, or a pin by the log, the buffer may be let go |
| Bio.FreshGood | 160050097-labquiz4/xv6/bio.c:39-56 | The empty cache of all-zero keys satisfies the invariant and shows the disk |
| Bio.Detached | 160050097-labquiz4/xv6/bio.c:130-132 | Unlinking a buffer keeps the rest one circular doubly linked list |
| Bio.Attached | 160050097-labquiz4/xv6/bio.c:133-136 | Linking it behind the head gives one circular list with it first |
| Bio.Bcache.constructor | 160050097-labquiz4/xv6/bio.c:39-56 | binit links all buffers into one ring, empty and idle |
| Bio.Bcache.Bget | 160050097-labquiz4/xv6/bio.c:62-93 | A hit counts one user more and changes nothing else; a miss takes the buffer nearest the end of the list that nobody uses and the log has not pinned, for one user and with no contents yet; None exactly when there is neither |
| Bio.Bcache.Bread | 160050097-labquiz4/xv6/bio.c:97-106 | The buffer returned is valid, holds what readers see and counts one user more, or one; no other buffer changes, nor the disk |
| Bio.Bcache.Bwrite | 160050097-labquiz4/xv6/bio.c:110-116 | The disk has the buffer's contents at its block and is as before elsewhere; the buffer is not dirty, and no other changes |
| Bio.Bcache.Brelse | 160050097-labquiz4/xv6/bio.c:121-141 | One user fewer; the ring is still one permutation of all buffers, the same but for a buffer nobody uses any more, which moves to the front |
| FsRuns.Run | 160050097-labquiz4/xv6/fs.c:453-512 | Over every run of whole calls of writei, readi and itrunc on any inodes, replies and contents are those of growable byte arrays, across the direct and indirect blocks, the in-memory inode agrees with disk, and each data block has one owner; the run ends early at the first call after which the files would take more blocks than the disk has, and only there; and how many blocks it logs at most |
| FsCount.FilesFit | 160050097-labquiz4/xv6/fs.c:374-401 | Files that are on the disk, their indirect blocks counted, take no more blocks than it has behind the metadata |
| FsCount.JammedShort | 160050097-labquiz4/xv6/fs.c:57-78 | When balloc panics, the files with the one being written one byte longer would take more blocks than there are, whatever the write has allocated so far |
| FsCount.HeldCount | 160050097-labquiz4/xv6/fs.c:374-401 | The blocks that name an inode as their owner are as many as its file maps, and its indirect block |
| FsBoot.Mount | 160050097-labquiz4/xv6/mkfs.c:68-168 | The image of mkfs is a state those runs start from, holding mkfs's files and the root's entries followed by zeros, unless the entries fill blocks |
| FsBoot.BootAndRun | 160050097-labquiz4/xv6/fs.c:453-512 | mkfs, boot and any run of calls: unless the root's entries fill blocks, the replies are those of byte arrays that start as mkfs's files, up to the first call after which they would take more blocks than mkfs's disk has |
| FsBoot.BootAndTransact | 160050097-labquiz4/xv6/log.c:116-202 | mkfs, boot and any transactions with crashes anywhere: the disk holds mkfs's files as the transactions that survived left them |
| FsShared.SharedRuns | 160050097-labquiz4/xv6/fs.c:55-96 | When calls on different inodes interleave, with blocks in processes' hands between balloc and the store by that process, a block is used exactly when it is metadata or has one holder, and bfree does not panic |
| FsShared.StepKeeps | 160050097-labquiz4/xv6/fs.c:374-436 | Each step keeps that, and what balloc gives no slot and no process has |
| FsRuns.Serve | 160050097-labquiz4/xv6/fs.c:289-313 | The same for one call, with its inode read from disk; a read changes no block |
| FsRuns.OwnersExist | 160050097-labquiz4/xv6/fs.c:55-96 | A bitmap bit is set exactly when one slot holds the block, if and only if the owner map the proofs carry exists |
| FsRuns.OwnedIsOne | 160050097-labquiz4/xv6/fs.c:55-96 | The owner map gives that statement back |
| FsCrash.Transactions | 160050097-labquiz4/xv6/log.c:116-202 | Any number of transactions of such calls, each of which commits or is cut off by a crash after any number of disk writes, with recoveries that crash too: the recovered disk has one slot for each used block and holds the files as plain byte arrays after the transactions that survived, whole and in order; one is lost only to a full disk, to a panic of the log or to a crash before its header write |
| FsCrash.Transact | 160050097-labquiz4/xv6/log.c:145-202 | The same for one transaction; the disk is what the log's commit, or its crash and recoveries, make of the blocks logged, a full disk is found exactly when the files would not fit, and a transaction logs no more blocks than its calls do one by one |
| FsCrash.OnlyHome | 160050097-labquiz4/xv6/fs.c:222-237 | A disk that has the same blocks behind the log has the same owners, bits, inodes and files |
| FsRuns.Updated | 160050097-labquiz4/xv6/fs.c:483-512 | A call that leaves other files alone and changes one file's bytes is the update of that one byte array |
| FsRuns.Ilock | 160050097-labquiz4/xv6/fs.c:289-313 | The inode read from disk is the one the model has |
| FsModel.AllocKeeps | 160050097-labquiz4/xv6/fs.c:55-78 | A free block is nobody's, lies in the data region, and giving it out changes no file |
| FsModel.MapEntry | 160050097-labquiz4/xv6/fs.c:386-397 | Putting a fresh block into an indirect entry maps that one block of the file and keeps ownership |
| FsModel.WriteEffect | 160050097-labquiz4/xv6/fs.c:493-499 | bmap followed by the block write is a splice of the file's bytes, with every other file unchanged |
| FsModel.GrownStep | 160050097-labquiz4/xv6/fs.c:493-505 | The mapped blocks stay exactly those below the rounded-up size |
| FsModel.TruncKeeps | 160050097-labquiz4/xv6/fs.c:409-436 | After every slot of the inode is freed ownership holds without it and no other file changed |
| FsCode.Fs.Balloc | 160050097-labquiz4/xv6/fs.c:57-78 | The lowest free block, marked and zeroed; never block 0 or one in use; the panic only when every block is used |
| FsCode.Fs.Bfree | 160050097-labquiz4/xv6/fs.c:82-96 | Clears that bit alone; the panic exactly when it was clear |
| FsCode.Fs.Bmap | 160050097-labquiz4/xv6/fs.c:374-401 | The block's address, newly owned if there was none, with no other block of any file changed |
| FsCode.Fs.Iupdate | 160050097-labquiz4/xv6/fs.c:222-237 | The disk inode equals the one in memory, and the file is the same |
| FsCode.Fs.Writei | 160050097-labquiz4/xv6/fs.c:483-512 | Returns -1 exactly when the offset is past the end or the file would be too long; otherwise the bytes are spliced in, other files are unchanged, disk and memory agree although iupdate runs only on growth; and which blocks were logged. A panic finds every block used and the file mapped up to a block it still had to write |
| FsCode.Fs.Readi | 160050097-labquiz4/xv6/fs.c:454-477 | Reads the bytes below the size and, on a file only writei has grown, allocates and changes nothing |
| FsCode.Fs.Itrunc | 160050097-labquiz4/xv6/fs.c:409-436 | Frees exactly the inode's own blocks; the panic cannot happen; and it logs bitmap blocks and the inode's alone |
| FsCode.Fs.Filewrite | 160050097-labquiz4/xv6/file.c:118-156 | The bytes written are a prefix put at the offset, short exactly when writei refuses a chunk; each chunk logs at most 7 distinct blocks when the bitmap fits one block |
| FsCode.OpSize | 160050097-labquiz4/xv6/file.c:133-141 | The count behind that: data, bitmap, indirect and inode blocks of one chunk |
| FsCode.LoggedSize | 160050097-labquiz4/xv6/file.c:133-141 | A call logs no more than its data blocks, the blocks of the bitmap and two more |
| Mkfs.Mkfs | 160050097-labquiz4/xv6/mkfs.c:68-168 | The program ends well if and only if the files fit: inodes, the size of each, and blocks in all; the image then has an empty log, one owner per data block, every disk inode right with its type and link count, every copied file its bytes and the root its entries and then zeros; the root's size covers only mapped blocks if and only if the number of entries is not a multiple of 32 |
| Mkfs.FateIff | 160050097-labquiz4/xv6/mkfs.c:130-156 | The first file that does not fit decides how the program ends; it ends well if and only if all fit, and lacks an inode if and only if the first 198 fit and there are more |
| Mkfs.BrokenRoot | 160050097-labquiz4/xv6/mkfs.c:158-163 | For any thirty files of one block at most the program ends well with a root that claims a block it does not have |
| Mkfs.FateJoins | 160050097-labquiz4/xv6/mkfs.c:152-153 | Appending a file piece by piece ends as appending it at once |
| Mkfs.Image.Iappend | 160050097-labquiz4/xv6/mkfs.c:256-297 | The file grows by these bytes, with zeros behind them to the end of the block, and no other changes; it runs out of blocks, or trips over the assertion, exactly when the blocks up to the limit, or the limit, do not suffice; and how many blocks it took |
| Mkfs.Image.MapBlock | 160050097-labquiz4/xv6/mkfs.c:269-286 | The block found or made is the file's, freeblock is the block the kernel's balloc would take, and Full means exactly that the block or the indirect block is missing and none is left |
| Mkfs.Image.Ialloc | 160050097-labquiz4/xv6/mkfs.c:224-235 | The next inode, empty, with its type and one link; one past the last is the overflow the program does not test for |
| Mkfs.Image.Balloc | 160050097-labquiz4/xv6/mkfs.c:238-251 | The bitmap written marks exactly the blocks handed out |
| Mkfs.Image.FixRoot | 160050097-labquiz4/xv6/mkfs.c:158-163 | The root's size is rounded past the next boundary, its bytes stay and those behind them are zero; exactly when it was on one, a block it claims is missing |
| Mkfs.RoundUp | 160050097-labquiz4/xv6/mkfs.c:160-162 | That rounding keeps to mapped blocks if and only if the size was not on a block boundary |
| Mkfs.CopyFile | 160050097-labquiz4/xv6/mkfs.c:130-156 | One file more: an inode, a root entry and the contents, with the others as they were; or the first of those that does not fit |
| Mkfs.MakeRoot | 160050097-labquiz4/xv6/mkfs.c:117-128 | The root holds . and .. in one block, and nothing else is allocated |
| FsDirs.ImageStarts | 160050097-labquiz4/xv6/mkfs.c:117-163 | Decoded from its blocks, the image of mkfs is the tree from which runs of create, link and unlink start: types, link counts, entries and unused entries; it satisfies their invariant if and only if the names, cut to 14 characters, are distinct and neither . nor .. |
| FsDirs.RootIs | 160050097-labquiz4/xv6/mkfs.c:120-150 | The root's bytes read back as dirents are ., .. and one entry for each file, numbered from 2 on |
| Links.LinkCounts | 160050097-labquiz4/xv6/sysfile.c:118-284 | From the file system mkfs builds with any proper names, over every run of create, link, unlink and name lookups that are not stray, nlink is the number of entries other than . naming the inode from linked directories, plus links under way; named inodes exist; inodes are free exactly when uncounted and unreferenced; directories form a tree |
| Links.KeptIff | 160050097-labquiz4/xv6/sysfile.c:118-284 | From a good state a step keeps all of that if and only if it is not stray: it enters no name in an unlinked directory, and looks up no .. whose inode is gone |
| Links.CountsKeptIff | 160050097-labquiz4/xv6/sysfile.c:118-284 | The counts alone are kept if and only if no name is entered in an unlinked directory |
| Links.StrayLookup | 160050097-labquiz4/xv6/fs.c:289-310 | Looking up a freed inode leaves the counts right but refers to an inode without a type, whose lock is a panic |
| Links.StepKeeps | 160050097-labquiz4/xv6/sysfile.c:118-284 | The forward half, step by step |
| Links.LooksIs | 160050097-labquiz4/xv6/fs.c:243-310 | Looking a name up, duplicating a reference and locking add one reference, or none, and change no link and no entry |
| Links.StrayHappens | 160050097-labquiz4/xv6/sysfile.c:242-284 | A run that removes the current directory reaches a stray create |
| Links.StrayCreate | 160050097-labquiz4/xv6/sysfile.c:242-284 | Creating in an unlinked directory always breaks the counts |
| Links.StrayEnter | 160050097-labquiz4/xv6/sysfile.c:148-165 | So does finishing a link there |
| Links.NamedCounts | 160050097-labquiz4/xv6/sysfile.c:211-212 | The panic of unlink on nlink < 1 cannot happen |
| Links.EmptyOnce | 160050097-labquiz4/xv6/sysfile.c:213-229 | An empty directory is named by one entry only, so unlinking it frees it |
| Links.ParentTwice | 160050097-labquiz4/xv6/sysfile.c:221-224 | Its parent is counted at least twice, so the decrement for .. does not free the parent |
| Links.StartIs | 160050097-labquiz4/xv6/mkfs.c:117-163 | The root with one entry for each file satisfies the invariant if and only if the names are distinct and neither . nor .. |
| LinksCode.Icache.Iput | 160050097-labquiz4/xv6/fs.c:333-353 | One reference fewer; the inode is freed if and only if this was the last one, it was read from disk and has no links |
| LinksCode.Icache.DirLookup | 160050097-labquiz4/xv6/fs.c:526-549 | The first entry in use of that name |
| LinksCode.Icache.DirLink | 160050097-labquiz4/xv6/fs.c:553-579 | Refuses a name that is present and otherwise puts it in the first unused entry, or behind the last |
| LinksCode.Icache.IsDirEmpty | 160050097-labquiz4/xv6/sysfile.c:169-181 | True exactly when nothing but . and .. is in use |
| LinksCode.Icache.Ialloc | 160050097-labquiz4/xv6/fs.c:196-215 | The first free inode |
| LinksCode.Icache.Create | 160050097-labquiz4/xv6/sysfile.c:242-284 | For a name that exists the file, if a file was asked for, or nothing, with no link or entry changed; otherwise the first free inode, with one link and the entries . and .. if it is a directory, entered in the first unused entry, and one link more for the parent of a directory; every other inode as before; its two panics cannot happen |
| LinksCode.Icache.Unlink | 160050097-labquiz4/xv6/sysfile.c:185-239 | Succeeds if and only if the name is there, is neither . nor .., and is not that of a directory with entries; then that entry is unused, the name is not found any more, the target has one link fewer and is freed with the last link and reference, the parent of a directory has one fewer, and every other entry and inode is as before; a refusal changes no link; the invariant is kept and there is no panic |
| LinksCode.Icache.LinkStart | 160050097-labquiz4/xv6/sysfile.c:119-141 | Counts one link more before the name exists, and changes nothing else; refused exactly for a directory |
| LinksCode.Icache.LinkFinish | 160050097-labquiz4/xv6/sysfile.c:144-165 | Enters the name in the first unused entry, with every other inode as before; or, exactly when it is present, takes the count back |
| Heap.HeapRuns | 160050097-labquiz4/xv6/umalloc.c:24-90 | In every run of malloc and free the free list is in address order with no two blocks touching, and free and live blocks share out all units sbrk gave, each in one block |
| Heap.MallocGives | 160050097-labquiz4/xv6/umalloc.c:64-90 | The block is new, as long as asked and disjoint from the live ones, which are as before; nothing is given exactly when no free block has room and sbrk has no more |
| Heap.InsertKeeps | 160050097-labquiz4/xv6/umalloc.c:25-44 | free's coalescing adds the block's units and keeps order and gaps |
| Heap.TakeKeeps | 160050097-labquiz4/xv6/umalloc.c:75-84 | malloc's cut takes exactly the tail it returns |
| Heap.ReleaseKeeps | 160050097-labquiz4/xv6/umalloc.c:25-44 | Freeing a live block adds exactly its units to the free ones and keeps the partition |
| Heap.GrowKeeps | 160050097-labquiz4/xv6/umalloc.c:47-61 | A block from sbrk joins the list, and the request fits then |
| HeapCode.Relinked | 160050097-labquiz4/xv6/umalloc.c:33-43 | The header writes of free give the ring of the coalesced list |
| HeapCode.CutLaid | 160050097-labquiz4/xv6/umalloc.c:75-84 | The header writes of malloc give the ring of the shorter list |
| HeapCode.FirstFitIs | 160050097-labquiz4/xv6/umalloc.c:74-87 | The walk stops at the first block with room after the rover, once around the ring |
| HeapCode.NoFit | 160050097-labquiz4/xv6/umalloc.c:74-87 | A walk back to the rover has seen every block too small |
| HeapCode.UserHeap.FindPrev | 160050097-labquiz4/xv6/umalloc.c:30-32 | The search loop ends, at the block before the one freed or at the wrap point |
| HeapCode.UserHeap.Free | 160050097-labquiz4/xv6/umalloc.c:25-44 | The block is not live any more and exactly its units are free beside those that were; the ring in memory is that of the model's release, and live headers are untouched |
| HeapCode.UserHeap.Morecore | 160050097-labquiz4/xv6/umalloc.c:47-61 | At least 4096 units more, inserted through free |
| HeapCode.UserHeap.Malloc | 160050097-labquiz4/xv6/umalloc.c:64-90 | A new live block of the fewest units that hold the header and the bytes, or nothing, exactly when no free block has that many and sbrk has no more; the other live blocks and their headers are as before |
| VmRuns.FramesConserved | 160050097-labquiz4/xv6/vm.c:219-343 | From boot on, over every run of setupkvm, allocuvm, growproc, copyuvm, freevm and other kalloc and kfree by any processes, no frame has two owners among free list, kernel code, directories, page tables and user pages, each space maps exactly the pages of its size and has the kernel's mappings, as long as no process shrinks itself to nothing |
| VmRuns.FramesAlways | 160050097-labquiz4/xv6/vm.c:219-343 | Frames have one owner each in every run whatever, a frame left in the hands of kernel code counted as owned, processes that shrink to nothing included, up to a fork that panics |
| VmRuns.EmptiedForkPanics | 160050097-labquiz4/xv6/proc.c:201-217 | After a process has shrunk to nothing its fork is the panic on a page that is not present |
| VmRuns.StepKeepsIff | 160050097-labquiz4/xv6/vm.c:219-343 | Each step leaves every frame one owner, counting what kernel code holds, and keeps sizes true if and only if it is not growproc shrinking a process to size 0 |
| VmRuns.GrowKeepsIff | 160050097-labquiz4/xv6/proc.c:201-217 | growproc keeps the size true to the page table if and only if it does not shrink to 0, where the pages go but the result reads as a failure and the size stays; a success has added n to the size if and only if sz + n is not below 0, where nothing changes; and no frame is lost |
| VmRuns.GrowsIff | 160050097-labquiz4/xv6/proc.c:201-217 | growproc succeeds if and only if, to grow, the new size is a user's and there are frames for the new pages and the missing page tables, and, to shrink, the process is not empty and does not become so; the pages it adds are zeroed frames that were free |
| VmOps.AllocUvmIs | 160050097-labquiz4/xv6/vm.c:221-249 | A success maps exactly the pages from PGROUNDUP(old) to PGROUNDUP(new) to zeroed frames that were free; a failure leaves every mapping, page and held frame as it was |
| VmOps.DoneIff | 160050097-labquiz4/xv6/vm.c:232-248 | It succeeds if and only if there are free frames for the pages and the missing page tables |
| VmOps.CostIs | 160050097-labquiz4/xv6/vm.c:36-55 | How many frames the pages of a range need: one each, and one for each directory entry without a page table |
| VmOps.NoSharing | 160050097-labquiz4/xv6/vm.c:232-247 | No two pages of any spaces share a frame, and none is on the free list, so new frames are distinct |
| VmOps.DeallocPagesKeeps | 160050097-labquiz4/xv6/vm.c:255-279 | The loop unmaps its range, frees those frames and changes no other page of any space |
| VmOps.JumpIsSame | 160050097-labquiz4/xv6/vm.c:266-268 | Jumping over an absent directory entry unmaps what the page-by-page loop does |
| VmSpaces.FreeVmIs | 160050097-labquiz4/xv6/vm.c:283-298 | freevm adds to the free list the space's directory, page tables and user pages, each once, and nothing else; other spaces are unchanged |
| VmSpaces.TablesDiffer | 160050097-labquiz4/xv6/vm.c:291-297 | The frames freed by its loop are distinct |
| VmFork.SetupKvmIs | 160050097-labquiz4/xv6/vm.c:118-136 | A new space has the kernel's mappings and no user page; a failure gives back every frame |
| VmFork.KMapIs | 160050097-labquiz4/xv6/vm.c:105-115 | The four ranges of kmap together map physical memory from KERNBASE to PHYSTOP and the devices |
| VmFork.KMapApart | 160050097-labquiz4/xv6/vm.c:105-115 | No page is in two of them, so mappages does not panic |
| VmFork.MapPagesKeeps | 160050097-labquiz4/xv6/vm.c:60-80 | mappages is an update of the flat map on its range, seen through two levels of tables |
| VmFork.CopyUvmIs | 160050097-labquiz4/xv6/vm.c:315-343 | The child's pages have the parent's flags and contents in frames of its own; a failure gives all back, except for the frame in hand when mappages was what failed |
| VmCost.CopyUvmCost | 160050097-labquiz4/xv6/vm.c:315-343 | It succeeds if and only if there are free frames for the kernel half, the pages and their tables, 65 + q + ceil(q / 1024) for q pages; and it loses a frame if and only if the number of free frames is 66 + 1025 j with 1024 j < q |
| VmCost.LossesAre | 160050097-labquiz4/xv6/vm.c:219-343 | In every run up to a fork that panics the frames in the hands of kernel code are those its own kalloc and kfree account for, and one lost frame for each fork that meets the free list CopyUvmCost names; with no such fork none is lost |
| VmCost.HeldIff | 160050097-labquiz4/xv6/vm.c:315-343 | A step changes what kernel code holds only as its kalloc and kfree say, if and only if it is not such a fork, which leaves one frame more |
| VmCost.GrowSize | 160050097-labquiz4/xv6/proc.c:201-217 | What growproc makes of a process's size, in terms of free frames and missing page tables |
| VmCost.LoadSize | 160050097-labquiz4/xv6/vm.c:219-249 | What allocuvm makes of the size of an image under construction, in the same terms |
| VmCost.SetupSpace | 160050097-labquiz4/xv6/vm.c:118-136 | setupkvm makes a new space without pages if and only if 65 frames are free |
| VmCost.ForkSpace | 160050097-labquiz4/xv6/vm.c:315-343 | fork makes a new space as big as the parent's if and only if there are the frames CopyUvmCost names, and none otherwise |
| VmCost.LossHappens | 160050097-labquiz4/xv6/vm.c:325-342 | A run from boot with 133 frames in which fork fails and loses one |
| VmCost.SetupCost | 160050097-labquiz4/xv6/vm.c:118-136 | setupkvm succeeds if and only if 65 frames are free, and takes them |
| VmCost.MapCost | 160050097-labquiz4/xv6/vm.c:60-80 | mappages succeeds if and only if there are frames for the page tables that are missing |
| VmBytes.ForkReads | 160050097-labquiz4/xv6/vm.c:315-343 | After fork the child reads at every address what the parent reads, and all others read what they did |
| VmBytes.CopyOutIs | 160050097-labquiz4/xv6/vm.c:363-384 | copyout changes the bytes it reports in that space and no byte of any other; it stops short exactly at a page that is not the user's |
| VmCode.Machine.Walkpgdir | 160050097-labquiz4/xv6/vm.c:36-55 | Finds the page table or makes an empty one; fails exactly when none is there and none may or can be made |
| VmCode.Machine.Mappages | 160050097-labquiz4/xv6/vm.c:61-80 | The loop over addresses maps each page of the unaligned range |
| VmCode.Machine.Allocuvm | 160050097-labquiz4/xv6/vm.c:222-249 | Its result and memory are those AllocUvmIs describes |
| VmCode.Machine.Deallocuvm | 160050097-labquiz4/xv6/vm.c:256-279 | With the jump, the same as the page-by-page loop |
| VmCode.Machine.Freevm | 160050097-labquiz4/xv6/vm.c:284-298 | The frames FreeVmIs names, and kfree's tests hold for each |
| VmCode.Machine.Setupkvm | 160050097-labquiz4/xv6/vm.c:119-136 | The loop over kmap, with freevm on failure |
| VmCode.Machine.Copyuvm | 160050097-labquiz4/xv6/vm.c:316-343 | The loop over pages, with freevm on failure; neither panic happens for a process whose pages are mapped |
| VmCode.Machine.Copyout | 160050097-labquiz4/xv6/vm.c:352-384 | 0 exactly when every byte was copied, and the memory CopyOutIs describes; the null that walkpgdir returns is followed if and only if copying stops at a page whose page table is missing |
| VmCode.Machine.Growproc | 160050097-labquiz4/xv6/proc.c:201-217 | The result, size and memory GrowKeepsIff describes |
| Kalloc.Kmem.Kfree | 160050097-labquiz4/xv6/kalloc.c:60-77 | Pushes the page on the linked list |
| Kalloc.Kmem.Kalloc | 160050097-labquiz4/xv6/kalloc.c:83-95 | Pops it, or 0 when the list is empty |
| Kalloc.Kmem.Freerange | 160050097-labquiz4/xv6/kalloc.c:47-53 | Adds exactly the whole pages of the range |
| Kalloc.Kinit | 160050097-labquiz4/xv6/kalloc.c:32-44 | Afterwards every whole page from the kernel's end to PHYSTOP is on the list, once |
| Kalloc.OffList | 160050097-labquiz4/xv6/kalloc.c:72-74 | A link written into a page off the list leaves the list as it is |
| Proc.ProcRuns | 160050097_lab5/proc.c:183-327 | In every run a process that sleeps in wait has a child, and none that has exited; parents of live processes are alive and lead to init; each exited process is in the table or reported, once |
| Proc.StepKeeps | 160050097_lab5/proc.c:73-524 | Every step of fork, exit, wait, sleep, wakeup and kill keeps the table invariant |
| Proc.KidsKept | 160050097_lab5/proc.c:288-327 | No step takes its last child from a process that sleeps in wait |
| Proc.NamedOnly | 160050097_lab5/proc.c:184-502 | What the parts of fork, the scheduler, yield, sleep and wakeup do to each process; wakeup rouses exactly the sleepers on its channel |
| Proc.ExitKeeps | 160050097_lab5/proc.c:232-283 | exit keeps it although init is woken and not the grandparent that adopts |
| Proc.FindsParent | 160050097_lab5/proc.c:259-268 | The pid search in exit finds the process's own parent, alive and older |
| Proc.WaitKeeps | 160050097_lab5/proc.c:288-327 | wait reports a zombie child once, or sleeps only without one |
| Proc.Chain | 160050097_lab5/proc.c:259-277 | Parent links end at init |
| ProcCode.Ptable.Wakeup1 | 160050097_lab5/proc.c:485-492 | Wakes exactly the sleepers on that channel |
| ProcCode.Ptable.Allocproc | 160050097_lab5/proc.c:74-116 | Takes the first unused slot with the next pid and changes nothing else; fails exactly when there is none |
| ProcCode.Ptable.Exit | 160050097_lab5/proc.c:232-283 | The process is a zombie, its children are its parent's, the sleepers on its parent wake, and those on init exactly when one of the children had exited; nothing else changes |
| ProcCode.Ptable.Adopt | 160050097_lab5/proc.c:270-277 | Every child goes to the grandparent, and init is woken if one had exited |
| ProcCode.Ptable.Wait | 160050097_lab5/proc.c:288-327 | One scan: a pid exactly when some child has exited, and then that child's, whose slot is free; -1 exactly when none has exited and there is no child or the caller is killed; a sleep on its own slot otherwise, and nothing else changes |
| ProcCode.Ptable.Kill | 160050097_lab5/proc.c:507-524 | Marks the first slot with that pid and wakes it if asleep, and changes nothing else; fails exactly when there is none |
| Pipe.PipeRuns | 160050097-labquiz4/xv6/pipe.c:59-121 | For all interleavings delivered bytes are a prefix of accepted ones and at most PIPESIZE behind; a sleeping writer has a full pipe; readers and writers never sleep together; and unless a reader was stranded a sleeping reader has an empty pipe |
| Pipe.PromptIff | 160050097-labquiz4/xv6/pipe.c:85-98 | A step leaves a reader asleep at a pipe with bytes if and only if a killed writer fills the pipe and returns without waking it |
| Pipe.StrandingHappens | 160050097-labquiz4/xv6/pipe.c:85-89 | A run in which that happens |
| Pipe.StepKeeps | 160050097-labquiz4/xv6/pipe.c:59-121 | Contents, counters and sleepers stay consistent at every step |
| Pipe.WriteTakes | 160050097-labquiz4/xv6/pipe.c:79-98 | A stretch of pipewrite accepts as many bytes as there is room for, in order; it then returns, sleeps or gives up exactly as these were all, and readers are woken unless it gives up |
| Pipe.ReadTakes | 160050097-labquiz4/xv6/pipe.c:101-121 | A stretch of piperead sleeps on an empty pipe somebody may write to, or gives up when killed; otherwise it delivers the next n bytes, or all there are, and wakes the writers |
| Pipe.ClosesIs | 160050097-labquiz4/xv6/pipe.c:60-75 | Closing an end wakes exactly the sleepers of the other side; a kill wakes its victim; neither moves a byte |
| Pipe.Counters | 160050097-labquiz4/xv6/pipe.c:85-93 | The wrapping 32-bit counters tell full from empty |
| Pipe.WrapSize | 160050097-labquiz4/xv6/pipe.c:93-93 | PIPESIZE divides 2^32, so the index is right after a wrap |
| Pipe.PutAllHolds | 160050097-labquiz4/xv6/pipe.c:79-98 | What pipewrite puts in follows what was accepted |
| Pipe.GetHolds | 160050097-labquiz4/xv6/pipe.c:101-121 | What piperead takes follows what was delivered |
| PipeCode.PipeBuf.Pipewrite | 160050097-labquiz4/xv6/pipe.c:79-98 | Accepts as many bytes as fit, then returns, sleeps or gives up; and whether readers were woken |
| PipeCode.PipeBuf.Piperead | 160050097-labquiz4/xv6/pipe.c:101-121 | Sleeps on an empty pipe with a writer, else takes what is there, up to n |
| PipeCode.PipeBuf.Pipeclose | 160050097-labquiz4/xv6/pipe.c:60-75 | Closing an end wakes the other side; the pipe is freed exactly when both ends are closed |
| Semaphore.SemRuns | 160050097-labquiz3/part1/xv6/sysproc.c:135-194 | In every run value = initial + the calls of sem_up - the units taken by sem_down >= 0, and a process asleep on a semaphore means its value is 0 |
| Semaphore.RunCounts | 160050097-labquiz3/part1/xv6/sysproc.c:135-194 | The counts are those of the run's calls |
| Semaphore.StepKeeps | 160050097-labquiz3/part1/xv6/sysproc.c:135-194 | Each step keeps that |
| Semaphore.Table.SemInit | 160050097-labquiz3/part1/xv6/sysproc.c:112-133 | Sets that one semaphore; -1 for a bad index |
| Semaphore.Table.SemDown | 160050097-labquiz3/part1/xv6/sysproc.c:136-165 | One pass: takes a unit if there is one, or goes to sleep on the semaphore in one step with the test; no other process or semaphore changes |
| Semaphore.Table.SemUp | 160050097-labquiz3/part1/xv6/sysproc.c:168-194 | Adds a unit and wakes exactly the sleepers of that semaphore |
| Semaphore.Table.Wakeup | 160050097-labquiz3/part1/xv6/proc.c:493-509 | Wakes exactly the sleepers on that channel |
| ProdCon.CounterInBounds | 160050097-labquiz3/part1/xv6/prodcon.c:75-121 | For any numbers of producers, consumers and items the counter stays in 0..bsize and one process at a time is inside the lock |
| ProdCon.AllDoneIff | 160050097-labquiz3/part1/xv6/prodcon.c:75-121 | There is no deadlock: when no worker can go on, all work is done if and only if the items produced cover those consumed and the rest fits the buffer, and the counter is that rest |
| ProdCon.StillCounts | 160050097-labquiz3/part1/xv6/prodcon.c:75-121 | When no worker can go on whoever has work left waits for a place in a full buffer or an item of an empty one |
| ProdCon.OneLocked | 160050097-labquiz3/part1/xv6/prodcon.c:75-121 | The mutex semaphore admits one |
| ProdCon.StepKeeps | 160050097-labquiz3/part1/xv6/prodcon.c:75-121 | Each worker step keeps the accounting of the three semaphores |
| RwLock.LockRuns | 160050097_lab9/reader-writer.c:45-95 | For any threads and with spurious wakeups inw <= 1, inw = 1 implies r = 0, inw <= w, data counts the stores of the run, writers exclude everyone, and while anyone is in the protocol someone can move |
| RwLock.StepKeeps | 160050097_lab9/reader-writer.c:45-146 | Each step keeps the counts true to the threads |
| RwLock.NotStuck | 160050097_lab9/reader-writer.c:45-95 | No state is stuck: a waiter has someone who can move |
| RwLock.NoOvertaking | 160050097_lab9/reader-writer.c:45-55 | Once a writer has announced itself no reader enters |
| RwLock.ReadWriteLock.ReaderLock | 160050097_lab9/reader-writer.c:45-55 | Enters exactly when no writer is announced, and is counted then; nobody else is affected |
| RwLock.ReadWriteLock.ReaderUnlock | 160050097_lab9/reader-writer.c:58-67 | One reader fewer; the last one out wakes exactly the waiting writers |
| RwLock.ReadWriteLock.WriterLock | 160050097_lab9/reader-writer.c:70-82 | Announces itself once, and enters exactly when no one is inside |
| RwLock.ReadWriteLock.WriterUnlock | 160050097_lab9/reader-writer.c:85-95 | Leaves and wakes all who wait |
| Barrier.BarrierRuns | 160050097-labquiz3/part2/barrier.c:6-41 | Without spurious wakeups the run's arrivals = nt * generation + currt with currt < nt, no thread leaves a generation before its nt-th arrival, and nt threads are at most one generation apart |
| Barrier.KeptIff | 160050097-labquiz3/part2/barrier.c:18-41 | A step keeps the invariant if and only if it is not a spurious wakeup |
| Barrier.NearKept | 160050097-labquiz3/part2/barrier.c:18-41 | With exactly nt threads no one gets two generations ahead |
| Barrier.BarrierT.BarrierWait | 160050097-labquiz3/part2/barrier.c:18-41 | Waits exactly when it is not the nt-th; the nt-th signals every waiting thread and starts the count again |
| Grep.MatchIff | 160050097-labquiz4/xv6/grep.c:73-82 | match accepts exactly the texts with a part in the pattern's language, anchored by a leading ^ or a final $ |
| Grep.HereIff | 160050097-labquiz4/xv6/grep.c:85-96 | matchhere accepts exactly the texts with a beginning in the language |
| Grep.StarIff | 160050097-labquiz4/xv6/grep.c:99-106 | matchstar accepts c repeated any number of times and then the rest |
| Grep.BeginsMany | 160050097-labquiz4/xv6/grep.c:99-106 | The language of c* as none, or one and again |
| Grep.MatchText | 160050097-labquiz4/xv6/grep.c:73-82 | The loop over the NUL-terminated buffer, with the language as its specification; the recursion ends |
| Grep.Matchhere | 160050097-labquiz4/xv6/grep.c:85-96 | The recursion on pointers is the one on strings |
| Grep.Matchstar | 160050097-labquiz4/xv6/grep.c:99-106 | The loop on pointers is the recursion on strings |
| Shell.RoundTrip | 160050097-labquiz4/xv6/sh.c:328-446 | For every command tree with at most 9 words a command, parsing the parenthesised printed form gives the tree back |
| Shell.LinePrinted | 160050097-labquiz4/xv6/sh.c:345-359 | The same inside any text that ends a line, for every kind of command |
| Shell.TooManyWords | 160050097-labquiz4/xv6/sh.c:436-440 | Ten words one blank apart, at the end of a line or before a closing parenthesis, are the panic |
| ShellGrammar.ParsesIff | 160050097-labquiz4/xv6/sh.c:266-446 | The parser takes a text, as the command c, if and only if the text is a line of the shell's grammar, typed with any spacing, that means c: redirections before, between and behind words or behind parentheses, in order; pipes, then any number of &, then ; and a line; at most nine words a command |
| ShellGrammar.TypedParses | 160050097-labquiz4/xv6/sh.c:328-446 | Every line of the grammar, with any blanks between its tokens, is parsed as what it means |
| ShellGrammar.LineGive | 160050097-labquiz4/xv6/sh.c:345-359 | The tokens of a line are parsed as that line wherever it ends or a parenthesis closes it |
| ShellGrammar.LineCome | 160050097-labquiz4/xv6/sh.c:345-359 | Whatever parseline takes is the tokens of a line of the grammar |
| ShellGrammar.TypedLexes | 160050097-labquiz4/xv6/sh.c:266-308 | gettoken reads back the tokens typed, with any blanks between and none needed but where two words, or two arrows, would run together |
| ShellGrammar.LexedTyped | 160050097-labquiz4/xv6/sh.c:266-308 | And every text without a NUL is its tokens with such blanks |
| ShellCode.Parser.ParseCmd | 160050097-labquiz4/xv6/sh.c:328-342 | On any input the parser ends with the specification's tree or its panic; after the cut every argument and file name, read as a C string, is its own token |
| ShellCode.CutReads | 160050097-labquiz4/xv6/sh.c:450-493 | No end marker lies inside a word, so each word is cut where it ends |
| ShellCode.CutReadsAs | 160050097-labquiz4/xv6/sh.c:450-493 | So the whole tree reads as the command |
| ShellCode.Parser.Nulterminate | 160050097-labquiz4/xv6/sh.c:450-493 | Writes a NUL behind each word and changes nothing else |
| ShellCode.Parser.GetToken | 160050097-labquiz4/xv6/sh.c:266-308 | The token, its bounds and the cursor behind it |
| ShellCode.Parser.PeekAt | 160050097-labquiz4/xv6/sh.c:311-320 | Skips blanks and looks at one character |
| ShellCode.Parser.ParseRedirs | 160050097-labquiz4/xv6/sh.c:375-397 | The redirections of the specification, or its panic |
| ShellCode.Parser.ParseArgs | 160050097-labquiz4/xv6/sh.c:428-442 | The word loop of parseexec |
| ShellCode.Parser.ParseExec | 160050097-labquiz4/xv6/sh.c:416-446 | A command or a block, as specified |
| ShellCode.Parser.ParseBlock | 160050097-labquiz4/xv6/sh.c:400-413 | A parenthesised line, as specified |
| ShellCode.Parser.ParsePipe | 160050097-labquiz4/xv6/sh.c:362-372 | A pipeline, as specified |
| ShellCode.Parser.ParseLine | 160050097-labquiz4/xv6/sh.c:345-359 | A line, as specified |
| Emufs.EmufsRuns | 160050097-lab11/emufs.c:124-394 | From formatting on, over every run of eopen, ewrite and eread, refused and failing ones too, a data block is marked 1 if and only if one slot of one used inode names it, and a name opens one inode |
| Emufs.StepKeeps | 160050097-lab11/emufs.c:124-394 | Each call keeps that |
| Emufs.FormatGood | 160050097-lab11/emufs.c:124-163 | create_file_system establishes it, whatever the inodes held |
| Emufs.AssignKeeps | 160050097-lab11/emufs.c:289-306 | The allocation loop keeps it |
| Emufs.AssignFills | 160050097-lab11/emufs.c:257-306 | With as many free blocks as missing ones every slot of the write is filled, and no other slot changes |
| EmufsCode.Mount.CreateFileSystem | 160050097-lab11/emufs.c:124-163 | The bitmap and the unused inodes |
| EmufsCode.Mount.Eopen | 160050097-lab11/emufs.c:166-234 | The used inode of that name with nothing changed; or, when there is none, the first unused inode made an empty file of that name; null exactly when there is neither |
| EmufsCode.Mount.Ewrite | 160050097-lab11/emufs.c:236-337 | -1 exactly when the write passes four blocks, has more empty slots than there are free blocks, or hits a device error; otherwise the size is where the write ends, the slots written read back as the data, and every other block of every file and every other inode is as before; a failure saves no metadata |
| EmufsCode.RefusedIff | 160050097-lab11/emufs.c:236-285 | The refusal, by counting the empty slots of the write and the free blocks |
| EmufsCode.Mount.WriteSlots | 160050097-lab11/emufs.c:289-327 | The loop that allocates, encrypts and writes block by block |
| EmufsCode.HasRoom | 160050097-lab11/emufs.c:257-285 | The two counting loops compare blocks missing with blocks free |
| EmufsCode.FindFree | 160050097-lab11/emufs.c:296-305 | The first free block |
| EmufsCode.Mount.Eread | 160050097-lab11/emufs.c:339-394 | -1 exactly when the read passes four blocks, meets an empty slot or hits a device error; otherwise the caller's buffer holds the bytes of those slots, decrypted, or on a mount that does not encrypt what strcpy copies of them |
| EmufsCode.Mount.WriteSeekRead | 160050097-lab11/emufs.c:236-394 | A block-aligned write of whole blocks, a seek back and a read of that length return the same bytes if and only if the mount encrypts or the buffer already held what stands behind the first NUL |
| EmufsCode.ZerosAreLost | 160050097-lab11/emufs.c:387-387 | A block of zeros does not come back into a buffer of ones on a mount that does not encrypt |
| EmufsCode.CopyGives | 160050097-lab11/emufs.c:387-387 | strcpy brings the data back exactly when nothing behind their first NUL was different |
| EmufsCode.Strcpy | 160050097-lab11/emufs.c:387-387 | Copies up to the first NUL and leaves the rest of the buffer |
| EmufsCode.CipherTwice | 160050097-lab11/emufs.c:6-21 | Decrypting what was encrypted gives it back |
| EmufsCode.Encrypt | 160050097-lab11/emufs.c:6-21 | Every byte of the block is inverted |

## Left out

- The order of memory operations, interrupts, timing and fairness: a section under one lock is one step.
- Hardware and boot, the console, `exec`, traps, argument fetching and the small user programs.
- The taskmaster calls of lab quiz 4, the lazy allocation of lab 6, the buffering loop of grep, and the shells of labs 2 and 3.
- Contents of devices: `readi` and `writei` on an inode of type T_DEV.
- FsCode.Fs.Iupdate: writes the size and the addresses; the type, device and link words of a disk inode are not modelled there, since `Links` counts links on values.
- FsCode.Fs.Writei: after the panic of a full disk the size and the inode on disk are not described; the kernel stops there.
- FsCode.Fs.Readi: off + n that wraps is an error return as in the code; the caller's buffer is a sequence.
- FsRuns.Run: calls are whole; for calls on different inodes that interleave, `FsShared` proves who owns each block, while the bytes of a file change only under its inode's lock. After a panic the files are not described. A run starts with every file as writei or mkfs grew it.
- FsRuns.Ilock: the inode cache and its locks are in `Links`; here each call reads its inode afresh.
- Mkfs.Mkfs: the superblock's own bytes are not in the image; a full image or too many files, which the program does not test for, end the model's run with an outcome.
- FsDirs.ImageStarts: names are what `strncpy` leaves of them; the check for a slash and the leading underscore that is skipped are not modelled.
- FsCrash.Transactions: transactions run one after another, the calls of each between one begin_op and one end_op; group commits are in `LogSpace` and `Log`. A transaction that logs nlog - 1 blocks is taken to panic, which in the code it does only if it calls log_write once more.
- FsCrash.Transact: a full disk and a full log stop the machine as the panics they are, before the commit; the reboot that follows finds the files as they were.
- Log.CrashAtomicity: a block write is atomic, and logged block numbers are distinct and outside the log, which `LogCode.LogState.LogWrite` maintains; `FsBoot.LogIsApart` has the blocks callers log.
- LogCode.LogState.BeginTry: one pass of the loop; the sleep between passes is not modelled.
- LogCode.LogState.WriteLog: the cache is seen through the contents of the pinned buffers, as `Bio` proves a reader sees them.
- Bio.CacheIsBlockMap: sleep locks are the condition that a user holds the buffer; release times are stamps the program does not have, and the all-zero key of a fresh cache is not asked for.
- Links.LinkCounts: nlink is unbounded; a disk of 1000 blocks holds fewer entries than its 16 bits count. Directories grow as needed, so a full disk, where the code panics, does not occur, and paths are given as the directory they lead to.
- Links.KeptIff: linking a file to the name "." of its own directory, where the code waits for a lock it holds, is not a step.
- LinksCode.Icache.Ialloc: the array is the disk's inodes and the cache in one; a full inode cache does not occur, and no step of `Links` meets a disk without a free inode, where ialloc panics.
- HeapCode.UserHeap.Malloc: the request fits the signed argument of sbrk, and base lies below the heap; sizes do not overflow.
- Heap.HeapRuns: other users of sbrk only move its break upwards.
- Vm entries are records of a frame and flags, not 32-bit words; accessed and dirty bits, segments, `inituvm`, `loaduvm` and `clearpteu` are not modelled.
- VmCode.Machine.Copyout: for ranges below KERNBASE; after the read through the null pointer the result is not described.
- VmCode.Machine.Mappages: the panic on a page mapped already is a precondition, shown at every call.
- VmCode.Machine.Deallocuvm: oldsz is at most KERNBASE, as at every call; above it the jump could wrap.
- VmFork.CopyUvmIs: the panic on an unmapped page is a precondition, as in `VmCost.CopyUvmCost`, which `VmRuns.FramesConserved` gives for every process that has not emptied itself.
- VmRuns.FramesConserved: exec is the sequence of its calls to setupkvm, allocuvm and freevm. Each step is a whole allocuvm, growproc, copyuvm or freevm, while the code takes the lock of the free list for one kalloc or kfree at a time, so other processes can move the list inside a call.
- VmCost.CopyUvmCost: counts the frames free before the call, and no other process takes or frees one during it.
- VmBytes.CopyOutIs: for addresses below KERNBASE.
- Proc.ProcRuns: pids do not wrap; the scheduler, open files and the memory of a process are not modelled. kill of pid 0 finds an unused slot and marks it, so the next process made there is born killed; the steps include this.
- ProcCode.Ptable.Wait: one scan; the sleep between scans is a step of `Proc`.
- PipeCode.PipeBuf.Pipewrite: one stretch between taking and giving up the lock.
- Semaphore.SemRuns: initial values are not negative and values do not wrap. Re-initialising a semaphore in use is not a step.
- ProdCon.CounterInBounds: the workers' loops are a state machine on values, since every call in them is a point where others go on; get_var and set_var are separate steps.
- RwLock.LockRuns: a lock is given up by the thread that has it; a mutex makes each of the calls a step up to its wait.
- Barrier.BarrierRuns: the source has no generation counter; it is added to say which wait a thread is in.
- Grep.MatchText: a string is what stands before the first NUL of its buffer.
- ShellCode.Parser.ParseCmd: nodes of the tree are values, so redcmd and its fellows do not share or reuse memory; a redirection is input or output, since ">" and ">>" build the same command.
- Shell.TooManyWords: for words that stand one blank apart; `ShellGrammar.ParsesIff` has what is refused, but not with which panic.
- FsShared.SharedRuns: bfree and the clearing of the slot that held the block are one step, since nobody else can read that slot; the contents of inodes and indirect blocks are a map of slots.
- Shell.RoundTrip: words are made of characters that are neither blank nor a symbol of the shell.
- EmufsCode.Mount.Eread: the copy strcpy makes must stay within memory: some NUL follows the bytes read, and the caller's buffer has room up to it.
- EmufsCode.Mount.Ewrite: device errors on the metadata blocks are not modelled, nor modification times, nor how metadata is laid out in its block; names fit their ten bytes, offsets and sizes are not negative, a device has at most 42 blocks, and handles are from after the last formatting.
