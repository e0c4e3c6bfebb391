# VibeOS: a Dafny model of its core, with proofs

Dafny 4.11 models of the parts of VibeOS that carry the most state and arithmetic, and proofs of what
they are for. `dafny verify dfyconfig.toml` checks everything.

* **The file system** (`Disk`, `TreeLemmas`, `TreeEdits`, `Paths`, `TreeMoves`, `TreeLoss`, `FsSteps`,
  `MoveSteps`, `Outcomes`, `ScanSteps`, `Runs`, `VibeFS`, `FdLayer`, over `Bitmaps`). The disk is an array of
  blocks, and one block write is atomic. `Look` says what a path reads as on an image. A layout (the
  depth and parent slot of every directory, the chain of every file, the owner of every block) certifies
  that an image is well-formed: directories form a tree with right parent pointers, chains end and share
  no block. `FileSystem` is the driver itself: its ghost `log` holds the image after every block write,
  so the images a crash can leave behind are exactly the elements of the log; its ghost `leaked` holds
  the blocks that are marked used and reached by nothing. `Fd` is the buffered file-descriptor layer,
  proved against a plain sequence with a position.
* **The GIF decoder** (`BitStream`, `Lzw`, `LzwEncoder`, `GifPaint`, `GifDecoder`, `GifRoundTrip`). The
  reference is the decoder whose dictionary holds whole strings (appendix F of the GIF89a
  specification); the tables of prefixes and suffixes, the reversed stack and the running row and column
  counters are proved to put the same pixels in the same places. What the compressor of that appendix
  writes, put into bytes and sub-blocks, is decoded to the pixels it was given.
* **Arithmetic** (`Calendar`, `Division`, over `Arithmetic`). Dates by loops and by the closed form;
  64-bit division by shifting and subtracting.
* **The JIT single-stepper** (`RiscV`, `CodePatch`, `JitDecode`, `JitPlan`, `JitHits`, `JitStep`,
  `JitCases`, `JitExamples`, `Assembler`, over `Words`). The reference is the control flow of RV32IC
  (sections 2.5 and 16.4 of the RISC-V Unprivileged ISA, version 20191213).
* **Kernel managers** (`TaskRounds`, `Scheduler`, `TaskTable`; `PageRuns`, `PageAlloc`; `Sv32`). The
  scheduler's queues, the page allocator, and the application's page tables against the two-level walk
  of section 4.3.2 of the RISC-V Privileged Architecture, version 20211203.
* **Fast forms and a protocol** (`VgaPixels`, `Vga`; `EditorLines`, `EditorWindow`; `Handshake`). The
  display's shadow copy and cursor overlay, the editor's lazy window over a chain, and the one-slot
  producer/consumer handshake over shared words.

`Wrappers` and `Sequences` hold what several of them share.

## What came out

Where a property one would expect does not hold, the code is kept as it is, and the exact condition is
proved.

* A store or a remove is crash-atomic: every image that a crash can leave is a well-formed tree that
  reads as before the operation or as after it. **A mkdir of a new name is not**: the entry is written
  before the block it names, and the image in between is never well-formed (`FsSteps.MkdirWindow`),
  although every path reads in it as it will in the end (`FsSteps.MkdirWindowLooks`). **A successful
  move is crash-atomic if and only if** the target directory is the source directory, or the move loses
  a directory moved into itself (`MoveSteps.TransferAtomic`, `VibeFS.FileSystem.Move`). Otherwise the
  entry is nowhere after the first write (`MoveSteps.FileWindow`, `MoveSteps.DirWindow`), and after the
  second write a directory still points back to its old parent, which is never well-formed
  (`MoveSteps.ParentWindow`). `Runs.Atomic` is the condition by path, for all operations. In a run of
  atomic operations a crash at any time leaves the tree after the operations that were done, or after
  these and the one under way (`Runs.RunCrash`), and a start-up with a rebuilt map goes on from there
  (`VibeFS.Recover`).
* A store that runs out of blocks changes no file, but **keeps every block it took**: afterwards no
  block is free (`VibeFS.FileSystem.Store`). Rebuilding the map gets exactly those blocks back. A run
  leaks blocks **if and only if** it holds such a store that still found a free block, or a successful
  move of a directory into itself; when nothing was leaked before, the map is exact at the end if and
  only if the run leaked nothing (`VibeFS.FileSystem.Run`).
* The rebuilt map is exact **if and only if no directory is deeper than 32** (`ScanSteps.RebuildExact`).
* The walk upward that is to refuse a move of a directory into itself runs only when the destination's
  name already is a directory, and it looks at 64 parents at most. Such a move is let through **if and
  only if** the new name is free, a slot is free, and the destination's name is no directory or the
  moved directory is 64 or more levels up (`MoveSteps.IntoItselfLetThrough`); a move to a new name right
  inside the moved directory is, whenever that has a free slot (`MoveSteps.NewNameInside`). It cuts the
  subtree off: nothing below it can be reached again (`MoveSteps.IntoItselfFacts`).
* After a step was prepared the instruction to be stepped is the program's own **if and only if** no
  armed place hits it (`JitHits.IntactExactly`): that is, none is the place itself, none lies two bytes
  into it over a halfword that is not the breakpoint's own, no long one begins two bytes before it, and
  none is an odd target beside it (`JitHits.HitPlaces`). The machine, running on the code with the
  breakpoints in it, executes its own instruction, and the stub of a call when it goes through one, and
  then traps at an armed place **if and only if** the program before the step meets a condition
  (`JitHits.CaughtExactly`, `JitStep.Stepper.Install`): the step is not barred; the stop is in the
  range, holds an instruction that can be armed, is not behind a compressed jump to an odd address and
  not two bytes behind a branch target that holds a four-byte instruction; no armed place hits the
  instruction or the stub; and the stop of a branch is not the middle of the instruction behind it.
  `JitExamples` has a program for each way to fail.
* Code is given back whole after a step **if and only if** the step is not one of a branch to the middle
  of the four-byte instruction behind it, both places in the range and fit to be armed, where the
  program does not have the breakpoint's own first two bytes (`JitPlan.Spoils`,
  `JitStep.Stepper.StepOnce`).
* A descriptor opened for writing that may create the file starts empty even when the file is there and
  is not to be truncated, and closing it replaces the file by what was written (`FdLayer.Fd.Open`,
  `FdLayer.Fd.Close`).
* A descriptor whose directory was removed since it was opened can still be closed with success. What it
  stored is there under some path **if and only if** the directory is in the tree (`FdLayer.Fd.Close`,
  `FdLayer.Fd.RemoveAndClose`).
* The page tables map the application region to itself and nothing else **if and only if** the region
  starts on a multiple of 4 MiB and has at most 16 MiB (`Sv32.IdentityExactly`).
* Setting aside pages up to the last page of the address space sets aside nothing, because the end wraps
  when it is rounded up (`PageAlloc.Allocator.ReserveRange`).
* The scheduler's bound on waiting is met, not only respected (`TaskRounds.BoundMet`).
* The directory block of the code's headers declares more entries than fit in a block; the model takes
  the 102 that fit.

## Model

| member | source | states |
|---|---|---|
| Bitmaps.PackedUpdate | vibeos/fs.c:37-52 | setting or clearing one bit of a byte changes how exactly that unit reads |
| Bitmaps.Bitmap.CountMarked | vibeos/fs.c:207-218 | the loop counts exactly the marked units of a range |
| TreeLemmas.ReachableIsReach | vibeos/fs.c:960-1017 | on a well-formed image the certificate's blocks are exactly those reached from the root by links |
| TreeLemmas.SameTree | vibeos/fs.c:399-527 | an image that agrees on every reachable block is well-formed with the same layout, and every path reads the same |
| TreeLemmas.ChainUnique | vibeos/fs.c:226-236 | the chain that starts at a block is determined by the image |
| TreeEdits.ChainsDisjoint | vibeos/fs.c:226-236 | no block is in two chains, and none twice in one |
| TreeEdits.PutFileWF | vibeos/fs.c:510-525 | one directory write that points an entry at a fresh chain keeps the tree well-formed |
| TreeEdits.PutFileLook | vibeos/fs.c:510-525 | after that write the file's path reads as the chain's bytes and every other path as before |
| TreeEdits.DropFileWF | vibeos/fs.c:280-295 | clearing a file's entry keeps the tree well-formed without its chain |
| TreeEdits.DropFileLook | vibeos/fs.c:280-295 | clearing a file's entry makes its path missing and changes no other path |
| TreeEdits.DropDirLook | vibeos/fs.c:280-295 | clearing an empty directory's entry makes its path missing and changes no other path |
| TreeEdits.AddDirLook | vibeos/user_fs_shell.c:384-404 | a new directory is there, empty, and every other path reads as before |
| Paths.PathUnique | vibeos/fs.c:82-159 | in a well-formed tree two different paths never lead to the same name of the same directory |
| Paths.MovedMeansRenamed | vibeos/fs.c:331-397 | a moved entry takes every path below it along: paths under the old name read as missing, paths under the new one as the old ones did, all others as before |
| TreeMoves.MoveFileWF | vibeos/fs.c:372-397 | after all writes of a file's move the tree is well-formed |
| TreeMoves.MoveDirWF | vibeos/fs.c:372-397 | after all writes of a directory's move, its parent pointer included, the tree is well-formed and reaches the same blocks |
| TreeLoss.CutOffLook | vibeos/fs.c:331-397 | when a subtree is cut off every path into it is missing and every other path reads as before |
| FsSteps.WrittenReadsBack | vibeos/fs.c:529-592 | a chain written block by block reads back as the data, across block boundaries and a partial last block |
| FsSteps.CommitFacts | vibeos/fs.c:510-525 | at the one directory write that commits a store: new tree, new account of blocks, all other paths unchanged |
| FsSteps.MkdirFacts | vibeos/user_fs_shell.c:384-404 | after both writes of a mkdir the tree has the directory and the account has its block |
| FsSteps.MkdirWindow | vibeos/user_fs_shell.c:390-404 | the image between the two writes of a mkdir is not well-formed under any layout |
| FsSteps.MkdirWindowLooks | vibeos/user_fs_shell.c:390-404 | in that image the new name already reads as a directory and every other path as before |
| FsSteps.OldOrNewIsAtomic | vibeos/fs.c:399-527 | images that are wholly old or wholly new at one name are before or after the operation for every path |
| MoveSteps.FileWindow | vibeos/fs.c:372-397 | between the first two writes of a file's move the tree is well-formed and the file is nowhere |
| MoveSteps.DirWindow | vibeos/fs.c:372-397 | between the first two writes of a directory's move everything below it is nowhere |
| MoveSteps.ParentWindow | vibeos/fs.c:384-394 | the image between the second and third writes of a directory's move is not well-formed under any layout, unless it loses the directory |
| MoveSteps.TransferAtomic | vibeos/fs.c:378-397 | every image of a move between directories is before or after it if and only if the move loses a directory moved into itself |
| MoveSteps.IntoItselfLetThrough | vibeos/fs.c:317-382 | when a move of a directory into itself is let through, and when it is refused for that reason, each as an if-and-only-if |
| MoveSteps.NewNameInside | vibeos/fs.c:354-382 | a move of a directory to a new name right inside itself is let through whenever that directory has a free slot |
| MoveSteps.IntoItselfFacts | vibeos/fs.c:331-397 | a directory moved into its own subtree is cut off, and its blocks stay marked with nothing reaching them |
| Outcomes.BlocksLeast | vibeos/fs.c:449-508 | the number of blocks of a file is the least that holds its bytes |
| Outcomes.StoreCodeMeans | vibeos/fs.c:399-508 | each way a store ends, as an if-and-only-if over what the name is, free slots and free blocks |
| Outcomes.RemoveCodeMeans | vibeos/fs.c:280-288 | the same for a remove |
| Outcomes.MkdirCodeMeans | vibeos/user_fs_shell.c:369-404 | the same for a mkdir |
| Outcomes.LoadCodeMeans | vibeos/fs.c:529-592 | the same for a load |
| Outcomes.MoveCodeMeans | vibeos/fs.c:343-382 | the same for a move |
| Outcomes.TransferStamps | vibeos/fs.c:378-382 | a moved entry keeps its first time and its mode and gets the time of the move; no other entry's times change |
| ScanSteps.RebuildExact | vibeos/fs.c:960-1017 | what the scan marks is exactly the reserved and reachable blocks if and only if no directory is deeper than 32, and never more than those |
| ScanSteps.RebuildReclaims | vibeos/fs.c:999-1017 | an exact rebuild drops precisely the leaked blocks from the live map |
| ScanSteps.AccountsExact | vibeos/fs.c:999-1017 | a live map is exact, and so agrees with a rebuild, if and only if nothing is leaked |
| VibeFS.FileSystem.Format | vibeos/fs.c:245-265 | from any disk contents: an empty root, only the reserved blocks used, no path but the root |
| VibeFS.FileSystem.Balloc | vibeos/fs.c:191-205 | takes the lowest free block and zeroes it; 0 exactly when every block is used, although the search starts at the hint |
| VibeFS.FileSystem.Bfree | vibeos/fs.c:220-224 | unmarks one block and keeps the hint below every free block |
| VibeFS.FileSystem.FreeChain | vibeos/fs.c:226-236 | ends on every chain and frees exactly its blocks |
| VibeFS.FileSystem.FindEntryIndex | vibeos/user.c:657-664 | the first entry of the name that passes the type filter, or -1 when there is none |
| VibeFS.FileSystem.FindFreeEntryIndex | vibeos/fs.c:184-189 | the first free entry, or -1 when all are taken |
| VibeFS.FileSystem.WriteChain | vibeos/fs.c:449-508 | writes only blocks nothing reaches, so every image on the way reads as before; the chain holds the data, or all blocks are gone |
| VibeFS.FileSystem.Store | vibeos/fs.c:399-527 | which of five ways it ends, each exactly when the name, the free slots and the free blocks say so; on success exactly this path changes, to the data, and exactly its entry's times, a replaced one keeping its first; every crash image is wholly old or wholly new; the free count changes by the new chain less the old; out of space leaves no free block and no visible change; in a directory that is no longer in the tree it changes no path, and nothing reaches the blocks it took |
| VibeFS.FileSystem.Load | vibeos/fs.c:529-592 | returns the bytes that the tree says the name holds, never more than the limit, or says that there is no such file or that it is too large, each exactly then |
| VibeFS.FileSystem.Remove | vibeos/fs.c:280-295 | succeeds exactly for a file and for a directory in which no name is anything; on success exactly this path disappears, crash-atomically, and exactly the blocks it held become free |
| VibeFS.FileSystem.DirIsEmpty | vibeos/fs.c:267-278 | true exactly when no entry of the directory is in use |
| VibeFS.FileSystem.Mkdir | vibeos/user_fs_shell.c:369-404 | fails exactly when the name is missing and no slot or no block is free; a new directory takes one block and changes no other path; an existing name succeeds without a change; the image after the entry's write is damaged and reads as the last one |
| VibeFS.FileSystem.IsAncestor | vibeos/fs.c:317-329 | true exactly when the directory is met within 64 steps upward |
| VibeFS.FileSystem.Move | vibeos/fs.c:331-397 | which of five ways it ends, each exactly when the two names, the walk up and the free slots say so; the entry keeps its first time and its mode; a move outside the moved directory renames every path below it and nothing else; one into it loses the subtree; every image on the way: one write within a directory; between directories the entry is nowhere after the first write, and a directory not lost is damaged after the second; crash-atomic if and only if within a directory or a loss |
| VibeFS.FileSystem.ScanChain | vibeos/fs.c:960-974 | ends on every chain and marks exactly its blocks |
| VibeFS.FileSystem.ScanDir | vibeos/fs.c:976-997 | marks exactly the blocks below a directory that the depth limit lets it see |
| VibeFS.FileSystem.Rebuild | vibeos/fs.c:999-1017 | the map is exact if and only if the tree is shallow; on a shallow tree all invariants hold again and only leaked blocks were dropped |
| VibeFS.FileSystem.UsageInfo | vibeos/fs.c:207-218 | used and free add up to the disk |
| VibeFS.FileSystem.Step | vibeos/fs.c:280-527 | one operation by path: its result code, told by paths, free slots and free blocks, its effect on every path when it succeeds and none when it fails, exactly when every crash image is before or after it, and exactly when it leaks blocks |
| VibeFS.FileSystem.Run | vibeos/fs.c:220-527 | every run keeps all invariants, every operation of it is such a step from the moment before to the moment after, and it leaks blocks if and only if one of its operations does; a run that starts with none leaked ends with an exact map if and only if none does |
| Runs.OnePath | vibeos/fs.c:82-159 | a change at a name of a directory is a change of exactly one path |
| Runs.IntoItselfByPath | vibeos/fs.c:357-366 | a move enters the moved directory's subtree if and only if the path it leads to goes on from the directory's path |
| Runs.MoveDone | vibeos/fs.c:331-397 | what a move of directory entries means for every path: renamed, or lost |
| Runs.FullLeaks | vibeos/fs.c:449-508 | a store that ran out of blocks leaked some if and only if one was free before |
| Runs.CrashImages | vibeos/fs.c:280-527 | every image a crash can leave during an atomic operation is a well-formed tree, before or after the operation, by path |
| Runs.RunLeaks | vibeos/fs.c:220-527 | a run leaks blocks if and only if one of its operations does |
| Runs.CodeByPath | vibeos/fs.c:280-527 | how every operation ends, told by what paths read as, free slots and free blocks |
| Runs.RefusedByPath | vibeos/fs.c:317-366 | the walk upward refuses a move exactly when the destination's path goes on from the directory's by fewer than 64 names |
| Runs.RunCrash | vibeos/fs.c:220-527 | a crash at any time of a run of atomic operations leaves the tree after the operations whose images the log had by then, and at most the one under way besides |
| ScanSteps.ShallowByPath | vibeos/fs.c:976-997 | a tree is shallow exactly when no path of more than 32 names is a directory |
| VibeFS.Recover | vibeos/fs.c:999-1017 | after such a crash a start-up finds that tree, with an exact map if and only if it is shallow, and then every invariant holds and nothing is leaked |
| FdLayer.Fd.Reserve | vibeos/fs.c:711-729 | doubling the 32-bit capacity makes room and keeps the content |
| FdLayer.Fd.Open | vibeos/fs.c:805-877 | fails exactly for a name that is no file and is not to be created, nor written and truncated; otherwise the stream is the file, or empty when it is truncated or opened for writing with create, at position 0 |
| FdLayer.Fd.Read | vibeos/fs.c:879-896 | the bytes and the new position of the plain sequence |
| FdLayer.Fd.Write | vibeos/fs.c:898-915 | the plain sequence with the bytes at the position, longer when they reach past its end |
| FdLayer.Fd.Seek | vibeos/fs.c:917-946 | the position asked for; past the end of a writable file the sequence is filled with zeros; otherwise refused unchanged |
| FdLayer.Fd.Tell | vibeos/fs.c:948-953 | the position of the plain sequence, or -1 |
| FdLayer.ReadTwice | vibeos/fs.c:879-896 | two reads are one longer read, of the bytes there are |
| FdLayer.WriteThenRead | vibeos/fs.c:898-946 | a write changes exactly its own bytes; going back and reading gives them |
| FdLayer.WriteTwice | vibeos/fs.c:898-915 | two writes are one longer write |
| FdLayer.SeekLeads | vibeos/fs.c:917-946 | where a seek leads, when it fails, and that it adds nothing but zeros |
| FdLayer.DoubledEnough | vibeos/fs.c:711-718 | doubling stops at the first capacity that is enough |
| FdLayer.Fd.Close | vibeos/fs.c:765-791 | a descriptor with write, create or truncate stores its content whole or not at all, exactly when the name, a slot and the free blocks allow it, and with success the file reads as its content; one with none of them changes nothing; a descriptor whose store failed stays open; some path leads to the name if and only if the directory is still in the tree |
| FdLayer.Fd.RemoveAndClose | vibeos/fs.c:280-295 | a close after the empty directory was removed succeeds whenever there is room, and the file is nowhere |
| FdLayer.Fd.RunOps | vibeos/fs.c:879-953 | any run of reads, writes and seeks reads and leaves what the plain sequence does, with position, size and capacity in order throughout |
| FdLayer.Fd.WriteCloseReopen | vibeos/fs.c:765-877 | after any run, close and reopen give back exactly the plain sequence, exactly when the name, a slot and the free blocks allow a store |
| BitStreams.ToNatSplit | vibeos/user_utils.c:242-245 | masking and shifting the accumulator split its digits |
| BitStreams.BitStream.Read | vibeos/user_utils.c:230-246 | a code is the next bits of the payload, wherever sub-blocks are cut, and the 32-bit accumulator never overflows |
| Lzw.CodeMeans | vibeos/user_utils.c:358-384 | every code of a valid stream has a table entry or is the next one, and its string fits the stack of 4096 |
| Lzw.LearnStands | vibeos/user_utils.c:377-383 | storing the previous code and the new first letter keeps the tables standing for the dictionary, full table included, with every prefix smaller than its code |
| LzwEncoder.LearnWidth | vibeos/user_utils.c:377-383 | the width of the next code is the number of digits of the largest code that can come |
| LzwEncoder.EncodeDecodes | vibeos/user_utils.c:332-425 | decoding gives back what was compressed, for all data, whatever bits follow |
| GifRoundTrip.ImageDecodes | vibeos/user_utils.c:230-246 | the same through bytes and sub-blocks, whatever bytes are around them |
| GifRoundTrip.ShowImage | vibeos/user_utils.c:322-425 | the decoder paints an image so written with exactly its pixels |
| GifPaint.InterlacedOnce | vibeos/user_utils.c:408-421 | the interlaced order visits every row exactly once: row and index are inverse |
| GifPaint.InterlacedOrder | vibeos/user_utils.c:410-421 | interlaced rows come pass by pass: every eighth row, those halfway between, those halfway between these, the odd ones; each pass from the top |
| GifPaint.PlaceOrder | vibeos/user_utils.c:389-423 | the pixels go over the image's rectangle in that order of rows, each row from the left |
| GifPaint.PlaceReached | vibeos/user_utils.c:389-423 | every place of the rectangle has its pixel |
| GifPaint.PixelShown | vibeos/user_utils.c:402-407 | a pixel is seen at its own column and row, with its colour unless it is transparent or has none |
| GifPaint.PaintedAt | vibeos/user_utils.c:390-407 | after painting, the place of every pixel holds its colour, or what was there when it is transparent or has none |
| GifPaint.Untouched | vibeos/user_utils.c:402-407 | a place no pixel belongs to keeps what was there |
| GifDecoders.Painter.Put | vibeos/user_utils.c:389-423 | the running counters place the next pixel where its number says, interlaced or not |
| GifDecoders.Painter.NextPass | vibeos/user_utils.c:410-421 | stepping over passes without rows ends at the next interlaced row |
| GifDecoders.GifDecoder.FirstChar | vibeos/user_utils.c:213-219 | the walk down the prefixes ends at the first letter of the code's string |
| GifDecoders.GifDecoder.PushString | vibeos/user_utils.c:371-375 | the walk ends, stays within the stack and leaves the code's string reversed on it |
| GifDecoders.GifDecoder.Expand | vibeos/user_utils.c:358-387 | one code puts on the stack what it means to the dictionary, the newest code included, and the tables learn what the dictionary learns |
| GifDecoders.GifDecoder.PopAll | vibeos/user_utils.c:389-424 | the string comes off the stack in order, as far as the picture wants pixels |
| GifDecoders.GifDecoder.Decode | vibeos/user_utils.c:332-425 | the pixels emitted are those of the dictionary of strings for every valid stream |
| Calendar.ClosedFormExact | vibeos/apps/ssh/ssh_client.c:1392-1403 | the closed form gives back every date from its day number, so it agrees with the loops for every day |
| Calendar.EraDaysBelow | vibeos/apps/ssh/ssh_client.c:1393-1397 | the closed form never takes away more days than there are |
| Calendar.DateUnique | vibeos/timer.c:210-253 | a day number has only one valid date |
| Calendar.DaysBeforeMonth | vibeos/timer.c:89-102 | the month loop sums the lengths of the months before, clamping the month |
| Calendar.ToUnix | vibeos/timer.c:104-117 | seconds since 1970 of a date and time, modulo 2^32; fields out of range count as the nearest year, month and day, and surplus days go on into the next months |
| Calendar.NearestDay | vibeos/timer.c:89-117 | what is out of range counts as what is nearest, and surplus days one by one |
| Calendar.GmTime | vibeos/timer.c:210-253 | valid fields, weekday and day of the year included, whose seconds are the argument, negative ones counting as zero |
| Calendar.Weekdays | vibeos/timer.c:231-231 | the epoch is a Thursday and every day is followed by the next day of the week |
| Calendar.ClockAgrees | vibeos/apps/ssh/ssh_client.c:1375-1403 | for every number of seconds the loops and the closed form give the same date |
| Calendar.ThereAndBack | vibeos/timer.c:104-253 | for every t below 2^32 converting to fields and back gives t |
| Calendar.BackAndThere | vibeos/timer.c:104-253 | for every valid date and time below 2^32 converting to seconds and back gives the same fields |
| Division.BringDown | vibeos/lib.c:143-148 | shifting in the next bit never loses the remainder's top bit, even for divisors above 2^63, and keeps quotient times divisor plus remainder |
| Division.UMod | vibeos/lib.c:141-150 | the remainder for every 64-bit pair; the dividend when the divisor is zero |
| Division.UDiv | vibeos/lib.c:153-170 | the quotient for every 64-bit pair; all ones when the divisor is zero |
| Division.TruncatedUnique | vibeos/lib.c:173-188 | quotient toward zero and remainder with the dividend's sign are determined |
| Division.Div | vibeos/lib.c:173-179 | the quotient rounded toward zero; -1 or 1 when the divisor is zero |
| Division.Mod | vibeos/lib.c:182-188 | the remainder with the dividend's sign; the dividend when the divisor is zero |
| Division.DivideBoth | vibeos/lib.c:173-188 | the two routines give one truncated division |
| TaskRounds.RemovedOrder | vibeos/task.c:99-110 | taking a task out leaves the others in the order in which they were to run |
| TaskRounds.AppendedOrder | vibeos/task.c:62-76 | adding a task leaves the others in the order in which they were to run |
| TaskRounds.IdleOnlyWhenEmpty | vibeos/task.c:212-241 | nothing is picked exactly when no level has a task |
| TaskRounds.FirstIsNearest | vibeos/task.c:217-228 | the search finds the busy level that comes first, going round |
| TaskRounds.NextSays | vibeos/task.c:212-250 | which level and task a call picks, what is left of the quota, and that the task goes to the back |
| TaskRounds.OneNearer | vibeos/task.c:212-240 | every call picks from a busy level or brings it exactly one call nearer |
| TaskRounds.BoundedWaiting | vibeos/task.c:212-261 | from every state every task of a level with n tasks is picked within 6n calls |
| TaskRounds.BoundMet | vibeos/task.c:212-261 | a state in which a task waits for the whole bound |
| Scheduler.SleptKeeps | vibeos/task.c:178-189 | after a sleep a task is flagged running exactly when it is in the queue of its own level, once, and cursors are in range |
| Scheduler.WokenKeeps | vibeos/task.c:191-200 | the same after a wake |
| Scheduler.RanKeeps | vibeos/task.c:159-176 | the same after a run request, which leaves the task running on the level asked for |
| Scheduler.CreatedKeeps | vibeos/task.c:128-141 | the same after a task is created |
| Scheduler.RestartedKeeps | vibeos/task.c:143-157 | the same after a task is reset |
| Scheduler.SleptDone | vibeos/task.c:178-187 | what a sleep does, and that it does nothing else |
| Scheduler.WokenDone | vibeos/task.c:191-200 | what a wake does, and that it does nothing else |
| Scheduler.RanDone | vibeos/task.c:159-176 | what a run request does, and that it does nothing else |
| Scheduler.CreatedDone | vibeos/task.c:128-141 | what creating a task does, and that it does nothing else |
| Scheduler.RestartedDone | vibeos/task.c:143-157 | what a reset does, and that it does nothing else |
| Scheduler.SleptUndisturbed | vibeos/task.c:178-189 | a sleep leaves the cyclic order of all other tasks, seen from the cursor |
| Scheduler.WokenUndisturbed | vibeos/task.c:191-200 | so does a wake |
| Scheduler.RanUndisturbed | vibeos/task.c:159-176 | so does a run request, a change of level included |
| Scheduler.RestartedUndisturbed | vibeos/task.c:143-157 | so does a reset |
| Scheduler.CreatedUndisturbed | vibeos/task.c:128-141 | so does the creation of a task |
| Scheduler.RunningGetsPicked | vibeos/task.c:212-261 | every running task is picked within six calls for each task of its level, and something is picked as long as a task is running |
| Scheduler.TaskLevel.Remove | vibeos/task.c:78-112 | the array without the task, the tasks behind it moved up, the cursor adjusted |
| Scheduler.TaskLevel.Pick | vibeos/task.c:243-250 | the task at the cursor; the cursor moves on in a circle |
| TaskTable.TaskTable.SwitchSub | vibeos/task.c:114-125 | back to the lowest busy level with its full quota |
| TaskTable.TaskTable.Run | vibeos/task.c:159-176 | any task ends up running in the queue of exactly the level asked for, cut to the levels there are, with a positive priority, behind the others when it was not there; all other tasks keep flag, level, priority and order; the lowest busy level comes next with its full quota |
| TaskTable.TaskTable.Sleep | vibeos/task.c:178-189 | a running task is flagged sleeping and in no queue any more; all other tasks keep flag, level, priority and order; the lowest busy level comes next with its full quota; any other task changes nothing |
| TaskTable.TaskTable.Wake | vibeos/task.c:191-200 | a task that is not running is put behind the others of its own level and flagged running; the others and the next level as for a sleep; a running task changes nothing |
| TaskTable.TaskTable.Create | vibeos/task.c:128-141 | the new task runs behind the others of the level asked for; the others and the next level as for a sleep |
| TaskTable.TaskTable.Reset | vibeos/task.c:143-157 | the task runs last in the queue of the level asked for, level 0 when none is; the others and the next level as for a sleep |
| TaskTable.TaskTable.Pick | vibeos/task.c:212-261 | the task picked and the new cursor, level and quota are those of the round |
| TaskTable.TaskTable.PickMany | vibeos/task.c:212-261 | n calls in a row pick every running task whose level allows it by the bound, and never -1 while a task is running |
| PageRuns.WrapIsZero | vibeos/alloc.c:121-124 | a page count that wraps comes out as zero and any other is right |
| PageRuns.NeedLeast | vibeos/alloc.c:121-124 | the pages of a request are the least that hold the header and the bytes |
| PageAlloc.GoodHeapLeaves | vibeos/alloc.c:192-204 | the machine does not stop exactly when a page is left behind the bitmap |
| PageRuns.LiveApart | vibeos/alloc.c:245-364 | live blocks are disjoint page runs that avoid the bitmap's pages and those set aside |
| PageRuns.TakeRun | vibeos/alloc.c:276-282 | handing out a free run keeps the used pages exactly those of the live blocks and adds its length to the used count |
| PageRuns.GiveRun | vibeos/alloc.c:344-358 | taking a block back does the same in reverse |
| PageRuns.Skip | vibeos/alloc.c:265-274 | a used page rules out every start the skip-ahead passes over |
| PageAlloc.Allocator.constructor | vibeos/alloc.c:138-196 | the bitmap lies in front of the pages handed out and takes no page more than it needs, and only those pages are free |
| PageAlloc.Allocator.ReserveRange | vibeos/alloc.c:90-119 | sets aside exactly the pages the range touches, or nothing when its end wraps |
| PageAlloc.Allocator.UsageInfo | vibeos/alloc.c:222-238 | used and free add up, and used is the number of used pages |
| PageAlloc.Allocator.FirstFit | vibeos/alloc.c:260-274 | the lowest fitting run in spite of skipping ahead |
| PageAlloc.Allocator.Malloc | vibeos/alloc.c:245-304 | NULL exactly when no free run of pages holds the header and the request; otherwise the block holds them and has no page too many, it is the lowest such run, its pages are used, its header filled in, all else unchanged |
| PageAlloc.Allocator.Free | vibeos/alloc.c:306-364 | gives back exactly the block's pages and clears its header; any other address changes nothing |
| PageAlloc.Allocator.Scribble | vibeos/alloc.c:284-292 | whatever a program writes inside its block behind the header leaves the allocator in order |
| PageAlloc.GiveBack | vibeos/alloc.c:245-364 | allocating and freeing gives back the same live blocks and used pages |
| Handshake.StepKeeps | vibeos/http_test/jit_producer.c:1-23 | every single read or write keeps the slot's invariant, and what was received is only added to |
| Handshake.Delivered | vibeos/http_test/jit_consumer.c:1-23 | in every interleaving the values received are the first numbers in order; on leaving all n of them with the sum n(n+1)/2 |
| Handshake.Nearer | vibeos/http_test/jit_producer.c:10-21 | a turn of the process that does not wait brings the end nearer, and no turn puts it off |
| Handshake.FairRunsDeliver | vibeos/http_test/jit_consumer.c:9-20 | every run in which both processes keep getting turns ends with everything delivered |
| JitDecode.JalImmRight | vibeos/trap.c:1289-1290 | the gathered and sign-extended offset of JAL is the architecture's |
| JitDecode.BranchImmRight | vibeos/trap.c:1334-1335 | the same for conditional branches |
| JitDecode.ITypeRight | vibeos/trap.c:1313-1313 | the same for JALR and loads |
| JitDecode.CjImmRight | vibeos/trap.c:407-418 | the same for compressed jumps |
| JitDecode.CbImmRight | vibeos/trap.c:420-428 | the same for compressed branches |
| JitDecode.StepShortRight | vibeos/trap.c:430-469 | the debugger steps a compressed instruction to where its expansion goes, except for the lowest bit of a register jump |
| JitDecode.StubReaches | vibeos/trap.c:573-618 | executing the three instructions of a stub leads to the address the debugger computes |
| Assembler.JalDecoded | vibeos/trap.c:1287-1291 | JAL taken apart gives the register and the offset it was put together from |
| Assembler.JalrDecoded | vibeos/trap.c:1310-1315 | the same for JALR |
| Assembler.BranchDecoded | vibeos/trap.c:1333-1336 | the same for conditional branches |
| Assembler.CjDecoded | vibeos/trap.c:407-418 | the same for compressed jumps |
| Assembler.CbDecoded | vibeos/trap.c:420-428 | the same for compressed branches |
| Assembler.CjrDecoded | vibeos/trap.c:455-465 | the same for compressed jumps through a register |
| Assembler.SuspectWord | vibeos/trap.c:381-393 | a load or store is refused if and only if its base is register 0 and its offset, as a signed number, at least -16 and below 4096 |
| Assembler.SuspectAccess | vibeos/trap.c:381-393 | the same for every load and store put together from its parts |
| Assembler.StubFound | vibeos/trap.c:573-618 | a stub is found exactly where AUIPC, LW and JALR go through one register other than 0 |
| CodePatch.UndoTwo | vibeos/trap.c:1117-1128 | which byte is where after two breakpoints went in and came out again |
| JitPlan.SecondHalf | vibeos/trap.c:1150-1187 | the second half of a four-byte breakpoint can never be armed |
| JitStep.Stepper.Restore | vibeos/trap.c:1117-1128 | every byte is given back if and only if no breakpoint hid a differing byte of another |
| JitStep.Stepper.AddTempBreak | vibeos/trap.c:1150-1187 | when a breakpoint is taken, what it changes, and that the table still knows every byte |
| JitStep.Stepper.SingleStepPc | vibeos/trap.c:620-635 | the return address exactly for calls that leave the range, at once or through a stub |
| JitPlan.StopPlaced | vibeos/trap.c:1189-1409 | a step that is not barred arms its stop under an exact condition, and, but for odd jumps, nothing but the next instruction and the target |
| JitCases.ValidShort | vibeos/trap.c:395-405 | the two-byte words that are no instruction |
| JitCases.RefusedExactly | vibeos/trap.c:1209-1345 | exactly which instructions a step refuses |
| JitCases.StraightArms | vibeos/trap.c:1364-1383 | an instruction that goes straight on has just the next one armed |
| JitCases.BranchArms | vibeos/trap.c:1333-1347 | a branch has both ways armed, but for the next instruction under the target's breakpoint |
| JitCases.JumpArms | vibeos/trap.c:1281-1333 | a jump or call has just its stop armed |
| JitCases.CallStops | vibeos/trap.c:620-635 | a call stops behind itself exactly when it leaves the range, at once or by executing a stub |
| JitStep.Stepper.Install | vibeos/trap.c:1189-1409 | exactly which places are armed, and that the result is -1 exactly when none is; the instruction to be stepped is the program's own, the machine is caught at its stop, and the code can be given back, each if and only if the program before the step meets a stated condition; it refuses exactly a place without an instruction, a load or store through register 0 near address 0 and a jump to itself, and arms just the next instruction for one that goes straight on |
| JitHits.IntactExactly | vibeos/trap.c:1189-1409 | after a step was prepared the instruction at its place is the program's own if and only if no armed place changes a byte of it |
| JitHits.HitPlaces | vibeos/trap.c:1189-1409 | which armed places do so, address by address |
| JitHits.TrapsExactly | vibeos/trap.c:1150-1187 | an armed stop traps unless the other breakpoint of a branch lies over it |
| JitHits.StopKept | vibeos/trap.c:620-635 | with its instruction and its stub unchanged the machine goes where the program goes |
| JitHits.CaughtExactly | vibeos/trap.c:1189-1409 | running on the code with breakpoints the machine executes the program's own instructions and traps at its armed stop if and only if the program before the step meets the condition |
| JitPlan.OverlapExactly | vibeos/trap.c:1117-1187 | two breakpoints an even distance apart harm each other if and only if the first lies in the middle of the second and the program's halfword there is not the breakpoint's own |
| JitPlan.HarmlessExactly | vibeos/trap.c:1117-1409 | the breakpoints of a step harm each other if and only if the program, the place and the registers before the step meet a stated condition |
| JitStep.Stepper.StepOnce | vibeos/trap.c:1117-1409 | after installing the breakpoints of a step and taking them out the code is whole if and only if the step does not spoil it |
| JitExamples.OverlapSpoils | vibeos/trap.c:1334-1347 | a branch over six bytes, whose step spoils code and whose breakpoint at the stop lies under the other one |
| JitExamples.SpinIsHit | vibeos/trap.c:1334-1347 | a branch to itself that is not taken: the step arms the branch itself |
| JitExamples.OwnHalfIsHit | vibeos/trap.c:1288-1309 | a jump into its own middle: the breakpoint makes another jump of it |
| JitExamples.PoolIsHit | vibeos/trap.c:573-635 | a call through a stub that loads the word behind the call: the breakpoint there changes where the stub goes |
| JitExamples.OddJumpMisses | vibeos/trap.c:455-465 | a compressed return to an odd address: the odd place is armed and the even one, to which the machine goes, is not |
| JitExamples.OwnMiddleMisses | vibeos/trap.c:1334-1347 | a branch into its own middle that the breakpoint there leaves as it is: its stop is not armed though the step goes on |
| Sv32.LeafBits | vibeos/app_runtime.c:41-43 | the leaf entry has every flag a user access needs and the page's number |
| Sv32.EnterOne | vibeos/app_runtime.c:33-45 | entering one more page gives the tables of one more page |
| Sv32.AddressSpace.Reset | vibeos/app_runtime.c:22-51 | the tables after filling, and that they map exactly the region to itself if and only if it is aligned and small enough |
| Sv32.GoodMapped | vibeos/app_runtime.c:22-51 | the architecture's walk maps every address of a good region to itself for every access and faults on every other |
| Sv32.BadUnmapped | vibeos/app_runtime.c:38-48 | an address that a bad region loses |
| Sv32.IdentityExactly | vibeos/app_runtime.c:22-51 | both directions together |
| Words.SetBytes | vibeos/vga.c:246-249 | masking in one byte of a word leaves the other three |
| VgaPixels.CursorInside | vibeos/vga.c:73-88 | every pixel of every cursor is inside the rectangle flushed for it |
| VgaPixels.ArrowShape | vibeos/vga.c:152-177 | the normal cursor is a triangle, a wedge, a stem and a foot with black edges and coloured inside |
| Vga.PixelKind | vibeos/vga.c:179-217 | the searched shape is bars with arrowheads and diagonals with corners |
| Vga.Screen.PutWord | vibeos/vga.c:253-260 | writing only words that changed keeps display and shadow equal and shows the word |
| Vga.Screen.Update | vibeos/vga.c:266-283 | the display becomes the back buffer |
| Vga.Screen.UpdateRect | vibeos/vga.c:285-318 | exactly the words that have a pixel of the rectangle in them show the back buffer |
| Vga.TouchedWord | vibeos/vga.c:285-318 | clipping and rounding out to words gives the words that have a pixel of the rectangle |
| Vga.Screen.FlushRect | vibeos/vga.c:219-263 | exactly the touched words change: the back buffer, with the cursor over the rectangle |
| Vga.Screen.PresentCursor | vibeos/vga.c:320-369 | the display is the back buffer overlaid with exactly the new cursor, the old one gone everywhere |
| EditorLines.PiecesJoined | vibeos/apps/editor/tool_editor.c:312-336 | reference: splitting at newlines loses nothing |
| EditorLines.ShownSnoc | vibeos/apps/editor/tool_editor.c:316-328 | how one more character changes the lines: dropped, ending a line, added, or cut |
| EditorLines.ShownPrefix | vibeos/user_editor.c:46-100 | finished lines never change |
| EditorWindow.Window.LoadBytes | vibeos/apps/editor/tool_editor.c:312-336 | the rows are the first 128 lines of the text |
| EditorWindow.Window.Take | vibeos/user_editor.c:78-95 | one character changes the rows as it changes the lines, inside the window and before it |
| EditorWindow.Window.LoadFileWindow | vibeos/user_editor.c:42-112 | for every chain and start line the rows are the lines from there on, wherever blocks are cut; one empty row when there is no such line |
| EditorWindow.Window.ShowsLine | vibeos/user_editor.c:42-112 | row for row such a window holds the lines from the start line on |
| EditorWindow.LoadEntryPrefix | vibeos/user_editor.c:4-40 | the beginning of the file up to the limit, and whether there is more |
| EditorWindow.ReadLess | vibeos/user_editor.c:10-36 | reading less of a chain gives the beginning of reading more |

## Left out

* Device and register access. The disk is an array of blocks with atomic block writes; clocks are
  parameters; caches, interrupts and locks are not there.
* Path text: `cwd` strings, `.` and `..`, `~`. Operations take a directory block and a name, or a path
  as a sequence of names.
- VibeFS.FileSystem.Step: the codes of operations whose directory does not exist are one code, because path text is not modelled.
* The scan that the first use of the file system runs, the numbering of the sixteen descriptors, and
  the copying helpers built on store and load.
- FdLayer.Fd.Open: allocation always succeeds and sizes stay below 2^31; the branch for a file that disappears between lookup and load cannot happen in the model.
- FdLayer.Fd.Close: when the directory was removed and its block, as a directory, has since got a file of that name, the code frees that file's chain, which may belong to something else by then; nothing is said of that.
- FdLayer.Fd.WriteCloseReopen: is about a directory that is still in the tree.
- Lzw.Decode: code sizes outside 2 to 8 and streams with a code beyond the next one are not valid, and streams that end early have no value, so nothing is said of them.
* Headers, palettes and extension blocks of a GIF file, and bitmaps.
- Calendar.GmTime: years are not cut to 32 bits, which would first matter for dates after the year 2147485547.
* The digits of the formatted date.
- Division.Div: the most negative value is excluded, because negating it is undefined.
* Context switching and stacks of tasks: every task's context is valid, and a task that puts itself to
  sleep goes on in the caller. The repairs of out-of-range queue fields cannot be reached.
- TaskTable.TaskTable.Create: with sixteen tasks the system stops, so this needs a free one.
- PageAlloc.Allocator.Free: needs that no page in use by a program starts with a forged header at this address.
- PageAlloc.Allocator.constructor: the machine stops on a heap too small for its bitmap and a page.
- Handshake.Delivered: counts and sums are not cut to 32 bits.
- JitStep.Stepper.Install: messages, the instruction cache and the display of the stop are left out; instructions that trap count as going on to the next one, and code outside the range comes back to the call.
* The line table, source locations and disassembly of the debugger.
- Sv32.AddressSpace.Reset: an end of 2^32 is not representable in the code and not in the model.
* The video mode, palette and drawing code, and the build without the shadow copy.
* Editing, saving and the cursor of the editor.
* The asm toy, the z-order list, the input rings, the FAT16 probe and the test benches.
