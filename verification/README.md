# NachOS 3.4, modelled and proved in Dafny

A Dafny model of the parts of this NachOS tree where the behaviour of several functions has to fit
together, with proofs about all inputs, all runs and all interleavings. `dafny verify dfyconfig.toml`
checks everything.

What is modelled, and the main result about each:

* **File system.** Bitmap, file headers, directory, open files, and `Create`, `Remove`, `Open` on a disk of
  sectors, with the bitmap and the directory stored as files on that same disk (`BitMaps`, `Disks`, `FileHeaders`,
  `Directories`, `OpenFiles`, `Volumes`, `VolumeImages`, `DiskLayout`, `FileSystems`, `FsTest`). After formatting and
  any operations the bitmap *on disk* marks exactly the sectors in use and no sector has two owners; reads and
  writes of any alignment are those of a flat byte array.
* **Threads and semaphores.** `P`, `V`, the ready list, `Fork`, `Yield`, `Sleep`, `Finish` and `Run` as steps
  (`Kernel`), seen over whole runs (`KernelRuns`) and carried out on linked ready and semaphore queues (`Lists`,
  `Threads`). In every interleaving no unit and no wakeup is lost, a semaphore of one unit excludes, every live thread is
  in exactly one place, and none is deleted that is still somewhere.
* **Simulated time.** `Schedule`, `OneTick`, `SetLevel`, `Idle` and `CheckIfDue` on the linked pending list (`Lists`,
  `Interrupts`), seen over whole runs (`InterruptRuns`). In every run interrupts are delivered in order, never early, at
  most one system tick late, and each exactly once.
* **The machine.** The shift-and-add multiplier (`Multiply`), the decoder and the layout it undoes (`Decoder`,
  `Encoding`), the instructions and their delay slots (`Mips`), what they leave as numbers and bits (`WordLaws`,
  `InstructionLaws`), the processor's in-place step (`Processor`), address translation and memory (`Memory`,
  `AddrSpaces`), and disk timing with the track buffer (`DiskLatency`).
* **The airport programs.** Three processes passing a token through semaphores (`Airport`), and the greedy choice of
  scanner (`Greedy`).
* **Integer text** (`IntText`) and the **Join/Exit handshake** (`JoinExit`).

`Basics`, `Words` and `Codec` hold small common things, words and their bits, and ints and byte images.

Code that updates things in place is written as classes and methods with loops, each proved against a
specification function or relation; the laws are then lemmas about that specification.

Where the code does not do what its comments or the names of its parts promise, the code is followed, a lemma says
exactly when the promise is kept, and another shows it broken at an input:

* the size of a new file (`FileSystems.FileSystem.Create`, `VolumeImages.OversizedCreates`);
* the clipping of reads and writes (`OpenFiles.TransferIsClip`, `UnclippedRequest`);
* interrupts an idle machine leaves undelivered (`Interrupts.DueAfter`, `StalledTimerIsLate`, `LateTimer`);
* frames outside memory (`AddrSpaces.FramesBeyondMemory`, `Frame128`);
* track-buffer hits before the sector has passed (`DiskLatency.HitAlreadyPassed`, `HitWhileStillPassing`);
* OR, SRL and SRLV (`WordLaws.OrInstruction`, `OrFails`, `LogicalShiftInstruction`, `LogicalShiftFails`);
* weights beyond the program's ints (`Airport.ChoicesAsWritten`, `LostBag`, `Greedy.IdsAgree`);
* printing and reading the smallest int, and reading nothing (`IntText.RoundTrip`, `SmallestText`, `ParseNothing`);
* the order of interrupts for the same time (`Lists.PutBackOrder`, `InterruptRuns.QuietRun`, `SwappedDeliveries`);
* the slot of a child with a nonzero exit code (`JoinExit.Outcome`, `KeptSlot`).

## Model

| member | source | states |
|---|---|---|
| `BitMaps.BitMap.constructor` | nachos/nachos-3.4/code/userprog/bitmap.cc:20-27 | A new map has the given number of bits, all clear, in freshly allocated words. |
| `BitMaps.BitMap.Mark` | nachos/nachos-3.4/code/userprog/bitmap.cc:46-51 | The word operation sets the one bit named and leaves every other bit of the map. |
| `BitMaps.BitMap.Clear` | nachos/nachos-3.4/code/userprog/bitmap.cc:60-65 | The word operation clears the one bit named and leaves every other bit of the map. |
| `BitMaps.BitMap.Test` | nachos/nachos-3.4/code/userprog/bitmap.cc:73-82 | True exactly when that bit is set. |
| `BitMaps.BitMap.FindFreeSlot` | nachos/nachos-3.4/code/userprog/bitmap.cc:93-102 | Finds and marks the lowest clear bit; -1 and no change exactly when there is none. |
| `BitMaps.BitMap.NumClear` | nachos/nachos-3.4/code/userprog/bitmap.cc:110-118 | The number of clear bits. |
| `BitMaps.CountClearMark` | nachos/nachos-3.4/code/userprog/bitmap.cc:46-51 | Marking a clear bit lowers the count of clear bits by one, wherever the bit is. |
| `BitMaps.AllocatedCount` | nachos/nachos-3.4/code/userprog/bitmap.cc:93-102 | Handing out slots lowers the count of clear bits by their number. |
| `BitMaps.AllBelow` | nachos/nachos-3.4/code/userprog/bitmap.cc:93-102 | Slots handed out one after another are all below a limit exactly when there are no more of them than clear bits below it. |
| `Words.BitwiseBits` | nachos/nachos-3.4/code/userprog/bitmap.cc:46-82 | The word operations the map is built on act on each bit separately. |
| `Words.TestBit` | nachos/nachos-3.4/code/userprog/bitmap.cc:73-82 | Masking with a shifted one is nonzero exactly when that bit is set. |
| `Codec.WordsRoundTrip` | nachos/nachos-3.4/code/userprog/bitmap.cc:147-164 | Words written to a file as bytes are the words read back. |
| `Disks.SynchDisk.ReadSector` | nachos/nachos-3.4/code/filesys/synchdisk.cc:72-79 | Delivers the sector's bytes into the buffer and changes nothing on disk. |
| `Disks.SynchDisk.WriteSector` | nachos/nachos-3.4/code/filesys/synchdisk.cc:90-97 | Replaces that sector and no other. |
| `FileHeaders.FileHeader.Allocate` | nachos/nachos-3.4/code/filesys/filehdr.cc:41-52 | With enough clear sectors and a size up to the maximum, the header lists the lowest clear ones in order and the map has just these marked in addition; with too few the map is unchanged; an overrun is reported exactly when there is room for a size above the maximum, and nothing is promised then. |
| `FileHeaders.FileHeader.Deallocate` | nachos/nachos-3.4/code/filesys/filehdr.cc:61-68 | Clears exactly the header's sectors; its assertion holds because they are distinct and marked. |
| `FileHeaders.FileHeader.FetchFrom` | nachos/nachos-3.4/code/filesys/filehdr.cc:77-81 | The header becomes the one stored in that sector. |
| `FileHeaders.FileHeader.WriteBack` | nachos/nachos-3.4/code/filesys/filehdr.cc:90-94 | Fetching that sector afterwards gives this header again, and no other sector has changed. |
| `Directories.SameNameIffSameKey` | nachos/nachos-3.4/code/filesys/directory.cc:90-97 | Two names compare equal exactly when their first nine characters, up to a zero, are the same. |
| `Directories.KeyIsPrefix` | nachos/nachos-3.4/code/filesys/directory.cc:90-97 | A file is known by the longest beginning of its name of at most nine characters and no NUL. |
| `Directories.StrncpyKey` | nachos/nachos-3.4/code/filesys/directory.cc:129-143 | A stored name keeps the key of the name it was copied from. |
| `Directories.TableRoundTrip` | nachos/nachos-3.4/code/filesys/directory.cc:63-80 | A table written as bytes and read again is the same table. |
| `Directories.Directory.FindIndex` | nachos/nachos-3.4/code/filesys/directory.cc:90-97 | The first live entry with the name's key, or -1 when there is none. |
| `Directories.Directory.Find` | nachos/nachos-3.4/code/filesys/directory.cc:108-116 | The header sector of that entry, or -1 when there is none. |
| `Directories.Directory.Add` | nachos/nachos-3.4/code/filesys/directory.cc:129-143 | Fails exactly when the name is live or no slot is free, then without change; otherwise fills the first free slot and no other. |
| `Directories.Directory.Remove` | nachos/nachos-3.4/code/filesys/directory.cc:153-162 | Frees the entry of that name and no other; fails exactly when there is none. |
| `OpenFiles.OpenFile.ReadAt` | nachos/nachos-3.4/code/filesys/openfile.cc:134-162 | Delivers exactly the slice of the file's bytes at the position, clipped to the file's length, for every alignment and every count and position whose sum is an int; an overrun is reported exactly otherwise. |
| `OpenFiles.OpenFile.WriteAt` | nachos/nachos-3.4/code/filesys/openfile.cc:164-204 | The file's bytes become the old ones with exactly the clipped range replaced and only the file's own sectors change, for every alignment and every count and position whose sum is an int; an overrun is reported exactly otherwise. |
| `OpenFiles.TransferIsClip` | nachos/nachos-3.4/code/filesys/openfile.cc:141-144 | The count the code settles on is the request clipped to the file exactly when the sum of position and count does not overflow; when it does, nothing is clipped. |
| `OpenFiles.UnclippedRequest` | nachos/nachos-3.4/code/filesys/openfile.cc:141-144 | In every file of more than one byte there is a request that is not clipped. |
| `OpenFiles.OpenFile.PrepareBuffer` | nachos/nachos-3.4/code/filesys/openfile.cc:183-193 | The first and the last sector are read in exactly when the request covers them in part. |
| `OpenFiles.FilledBuffer` | nachos/nachos-3.4/code/filesys/openfile.cc:183-196 | A buffer so prepared and then overlaid with the new bytes agrees with the new file contents in every sector it covers. |
| `OpenFiles.StoredAt` | nachos/nachos-3.4/code/filesys/openfile.cc:198-201 | The loop over whole sectors leaves in each sector of a file with distinct sectors the part of the buffer meant for it. |
| `OpenFiles.WriteRefines` | nachos/nachos-3.4/code/filesys/openfile.cc:164-204 | Sector-wise read, modify and write is a splice of the flat byte array, whatever the unread bytes of the buffer were. |
| `OpenFiles.FileUnchanged` | nachos/nachos-3.4/code/filesys/openfile.cc:164-204 | A file none of whose sectors changed has the bytes it had. |
| `OpenFiles.OpenFile.Read` | nachos/nachos-3.4/code/filesys/openfile.cc:92-98 | As ReadAt at the seek position, which moves on by the number of bytes read; an overrun exactly when the sum overflows. |
| `OpenFiles.OpenFile.Write` | nachos/nachos-3.4/code/filesys/openfile.cc:100-106 | As WriteAt at the seek position, which moves on by the number of bytes written; an overrun exactly when the sum overflows. |
| `Volumes.CreateKeepsSound` | nachos/nachos-3.4/code/filesys/filesys.cc:190-231 | Create keeps the partition: the marked sectors are exactly the system's and the live files', no sector has two owners, names stay unique. |
| `Volumes.RemoveKeepsSound` | nachos/nachos-3.4/code/filesys/filesys.cc:324-355 | Remove keeps the same partition. |
| `Volumes.RunsStaySound` | nachos/nachos-3.4/code/filesys/filesys.cc:91-355 | Every sequence of Create and Remove without an overrun keeps it: nothing leaks and nothing is shared. |
| `Volumes.LiveSectorsMarked` | nachos/nachos-3.4/code/filesys/filehdr.cc:61-68 | Every sector of a live file is marked, so the assertion in Deallocate never fails. |
| `Volumes.RemoveUndoesCreate` | nachos/nachos-3.4/code/filesys/filesys.cc:190-355 | Create followed by Remove of the same name restores the bitmap bit for bit and the map from live names to header sectors. |
| `VolumeImages.FetchBitMap` | nachos/nachos-3.4/code/userprog/bitmap.cc:147-151 | The map in memory becomes the one stored in the bitmap file. |
| `VolumeImages.WriteBackBitMap` | nachos/nachos-3.4/code/userprog/bitmap.cc:160-164 | The bitmap file holds the map afterwards; no sector outside the file changes. |
| `VolumeImages.FetchDirectory` | nachos/nachos-3.4/code/filesys/directory.cc:63-67 | The table in memory becomes the one stored in the directory file. |
| `VolumeImages.WriteBackDirectory` | nachos/nachos-3.4/code/filesys/directory.cc:76-80 | The directory file holds the table afterwards; no sector outside the file changes. |
| `VolumeImages.CreatedOnDisk` | nachos/nachos-3.4/code/filesys/filesys.cc:218-224 | Writing back header, directory and bitmap in that order turns the volume on disk into the created one and leaves every other file's bytes alone. |
| `VolumeImages.RemovedOnDisk` | nachos/nachos-3.4/code/filesys/filesys.cc:345-350 | Writing back bitmap and directory turns the volume on disk into the one without the file and leaves every other file's bytes alone. |
| `VolumeImages.DataWriteOnDisk` | nachos/nachos-3.4/code/filesys/openfile.cc:164-204 | Writing a live file's data leaves bitmap, directory and all headers on disk as they were. |
| `VolumeImages.DataWriteOtherFiles` | nachos/nachos-3.4/code/filesys/openfile.cc:164-204 | Writing a live file's data leaves the bytes of every other live file as they were. |
| `VolumeImages.FormattedOnDisk` | nachos/nachos-3.4/code/filesys/filesys.cc:91-134 | What format writes is a sound volume as read back from the disk: the two header sectors and the data of the two system files marked, no live entry. |
| `VolumeImages.OversizedCreates` | nachos/nachos-3.4/code/filesys/filesys.cc:190-231 | It happens: on a volume just formatted there is room for a file of any size up to 1019 sectors, so Create overruns the header for every size above 126 sectors up to that. |
| `VolumeImages.ClearWriteOnDisk` | nachos/nachos-3.4/code/filesys/openfile.cc:164-204 | Writing the data of a removed file, as long as its sectors are clear, changes neither the volume nor any file. |
| `VolumeImages.SharedSector` | nachos/nachos-3.4/code/filesys/openfile.cc:164-204 | Once a sector has been given to another file, what is written there through the old header is what that file holds. |
| `DiskLayout.BitmapLayout` | nachos/nachos-3.4/code/userprog/bitmap.cc:46-51 | Bit s of the bitmap file, from the lowest bit of its first byte on, is the mark of sector s. |
| `DiskLayout.HeaderLayout` | nachos/nachos-3.4/code/filesys/filehdr.cc:77-94 | A header is length, sector count and sectors, as words with the lowest byte first. |
| `DiskLayout.TableLayout` | nachos/nachos-3.4/code/filesys/directory.cc:63-80 | A directory entry is 20 bytes: in use, sector, name. |
| `FileSystems.Format` | nachos/nachos-3.4/code/filesys/filesys.cc:91-134 | On any disk, format leaves a sound volume with an empty directory, all but four sectors clear and both system files open. |
| `FileSystems.FileSystem.constructor` | nachos/nachos-3.4/code/filesys/filesys.cc:80-151 | With format a sound volume with no files and all but four sectors clear; without it the volume found on disk, no sector changed. |
| `FileSystems.FileSystem.Create` | nachos/nachos-3.4/code/filesys/filesys.cc:190-231 | Succeeds exactly when the name is new, a slot is free and there is room for header and data; a failure changes no sector; a success adds just that file, keeps the volume on disk sound and every other file's bytes. An overrun is reported exactly when it would succeed with a size above the maximum, and nothing is promised then. |
| `FileSystems.FileSystem.Remove` | nachos/nachos-3.4/code/filesys/filesys.cc:324-355 | Succeeds exactly when the name is live; a failure changes no sector; a success frees just that file's sectors and keeps the volume on disk sound and every other file's bytes. |
| `FileSystems.FileSystem.Open` | nachos/nachos-3.4/code/filesys/filesys.cc:243-262 | Null exactly when no live file has the name or the table of open files is full; otherwise a file at position 0 with that file's header. |
| `FileSystems.FileSystem.GetIdxFreeSlot` | nachos/nachos-3.4/code/filesys/filesys.cc:264-275 | The lowest free slot after the console's two, or -1 exactly when there is none. |
| `FileSystems.FileSystem.WriteLive` | nachos/nachos-3.4/code/filesys/openfile.cc:100-106 | Writing through an open live file changes that file's clipped range and neither the volume nor any other file; an overrun exactly when the sum overflows. |
| `FileSystems.FileSystem.WriteRemoved` | nachos/nachos-3.4/code/filesys/openfile.cc:100-106 | Writing through an open file that has been removed and whose sectors are still clear: neither the volume nor any file changes, and the file reads back what was written; an overrun exactly when the sum overflows. |
| `FsTest.WriteChunks` | nachos/nachos-3.4/code/filesys/fstest.cc:61-65 | The loop of 10-byte writes ends and leaves the whole input in the file. |
| `FsTest.ReadChunks` | nachos/nachos-3.4/code/filesys/fstest.cc:89-93 | The loop of 10-byte reads ends and delivers the whole file. |
| `FsTest.Copy` | nachos/nachos-3.4/code/filesys/fstest.cc:31-70 | Says exactly when the file is created and filled, not created, created but not opened because the table of open files is full, or overrun; filled, it holds exactly the bytes copied; not created, nothing on disk changes; every other file keeps its bytes. |
| `FsTest.Print` | nachos/nachos-3.4/code/filesys/fstest.cc:77-97 | What is printed is the file's contents; nothing exactly when no live file has the name or the table of open files is full. |
| `FsTest.CopyThenPrint` | nachos/nachos-3.4/code/filesys/fstest.cc:31-97 | Copying any bytes into a new file and printing it gives those bytes whenever the copy is made, and when that is. |
| `Kernel.StepKeepsInv` | nachos/nachos-3.4/code/threads/synch.cc:64-98 | Every step of P, V, Fork, Yield, Sleep, Finish and a dispatch keeps the invariant of RunsKeepInv. |
| `Kernel.RunsKeepInv` | nachos/nachos-3.4/code/threads/synch.cc:64-98 | In every interleaving each value is the initial one plus completed Vs minus completed Ps, and while threads are queued it is at most the number of woken threads that have not tested again, all of them ready or on the processor. |
| `Kernel.UnitsWillBeTaken` | nachos/nachos-3.4/code/threads/synch.cc:64-98 | No lost wakeup: if threads are queued on a semaphore with units, some thread woken for it is ready or running. |
| `Kernel.OnePlaceOnly` | nachos/nachos-3.4/code/threads/thread.cc:176-229 | A thread queued on a semaphore is on no other queue, not on the ready list and not running. |
| `Kernel.ExactlyOnePlace` | nachos/nachos-3.4/code/threads/thread.cc:89-229 | Every live thread is in exactly one place: executing, on the ready list once, or on the queue of the semaphore it waits for once. No thread is ever lost. |
| `Kernel.FinishedNeverRuns` | nachos/nachos-3.4/code/threads/thread.cc:145-156 | In every run a finished thread is never again executing, ready or queued. |
| `Kernel.DestroyedIsNowhere` | nachos/nachos-3.4/code/threads/scheduler.cc:88-125 | The thread Run deletes is not the current one, not ready, not waiting and on no queue. |
| `Kernel.DispatchInOrder` | nachos/nachos-3.4/code/threads/scheduler.cc:52-125 | Over any run, the threads dispatched and then the ready list begin with the ready list of the start. |
| `Kernel.DispatchedInTurn` | nachos/nachos-3.4/code/threads/scheduler.cc:52-125 | A thread ready at position k is the one dispatched by the (k+1)-th later dispatch. |
| `Kernel.WokenInOrder` | nachos/nachos-3.4/code/threads/synch.cc:64-98 | Over any run, the threads a semaphore's Vs wake and then its queue begin with its queue of the start. |
| `KernelRuns.UnitsCounted` | nachos/nachos-3.4/code/threads/synch.cc:64-98 | In every run the value of a semaphore is what it was at the start, plus the Vs made, minus the Ps after which a thread went on. |
| `KernelRuns.VBetween` | nachos/nachos-3.4/code/threads/synch.cc:64-98 | From a value of one on, between any two Ps that go through there is a V. |
| `KernelRuns.MutualExclusion` | nachos/nachos-3.4/code/threads/synch.cc:64-98 | So it is throughout a run of a semaphore that starts at one and is signalled only after getting through. |
| `KernelRuns.ThroughOrAsleep` | nachos/nachos-3.4/code/threads/synch.cc:64-77 | A test goes through exactly when there is a unit, and otherwise leaves the thread asleep and last in the queue. |
| `KernelRuns.NothingStuck` | nachos/nachos-3.4/code/threads/thread.cc:145-229 | In every reachable state every thread that runs can go on, and while none runs a ready one can be dispatched and a handler can signal. |
| `KernelRuns.DispatchCount` | nachos/nachos-3.4/code/threads/scheduler.cc:68-125 | In every run there are as many dispatches as sleeps ended and yields made with a thread ready. |
| `KernelRuns.SwitchRunsFirst` | nachos/nachos-3.4/code/threads/thread.cc:176-229 | A switch runs the first ready thread, and a thread that yields is then last on the list. |
| `KernelRuns.YieldedRunsAgain` | nachos/nachos-3.4/code/threads/thread.cc:176-193 | In every run a thread that yields is dispatched again right after those that were ready before it. |
| `KernelRuns.ForkedRuns` | nachos/nachos-3.4/code/threads/thread.cc:89-101 | In every run a forked thread is dispatched right after those that were ready before it. |
| `KernelRuns.StartedThreads` | nachos/nachos-3.4/code/threads/scheduler.cc:88-125 | The threads that have run are those at the start and those dispatched since. |
| `KernelRuns.LiveThreads` | nachos/nachos-3.4/code/threads/thread.cc:89-156 | In every run the live threads are those at the start and those forked, without those deleted, and only finished ones are deleted. |
| `KernelRuns.MarkedThread` | nachos/nachos-3.4/code/threads/thread.cc:145-156 | The thread marked for deletion is the last one that finished, until a thread that has run before is dispatched. |
| `Threads.Machine.ReadyToRun` | nachos/nachos-3.4/code/threads/scheduler.cc:52-59 | The linked ready list spells the threads it had and then this one. |
| `Threads.Machine.FindNextToRun` | nachos/nachos-3.4/code/threads/scheduler.cc:68-72 | Takes the head off the linked ready list, or none when it is empty. |
| `Threads.Machine.Run` | nachos/nachos-3.4/code/threads/scheduler.cc:88-125 | Switches to the thread and, if that has run before, deletes the finished one; lists and semaphores are untouched. |
| `Threads.Machine.TestSemaphore` | nachos/nachos-3.4/code/threads/synch.cc:64-77 | One turn of P on the linked queues: with a unit the value falls by one and the thread goes on; without, the thread is last in that semaphore's queue and the first ready thread runs, or the machine idles. This is the step system's test followed by its dispatch, no other queue touched. |
| `Threads.Machine.SignalSemaphore` | nachos/nachos-3.4/code/threads/synch.cc:87-98 | V on the linked queues: the first queued thread moves to the end of the ready list and a unit is added, which together is the step system's V. |
| `Threads.Machine.YieldCpu` | nachos/nachos-3.4/code/threads/thread.cc:176-193 | The head of the linked ready list runs and this thread goes to its end, or goes on when the list is empty. |
| `Threads.Machine.ForkThread` | nachos/nachos-3.4/code/threads/thread.cc:89-101 | The new thread is live and last on the ready list. |
| `Threads.Machine.FinishThread` | nachos/nachos-3.4/code/threads/thread.cc:145-156 | The thread is marked for deletion and gives up the processor for good: the first ready thread runs, or the machine idles. This is the step system's finish followed by its dispatch. |
| `Threads.Machine.Sleep` | nachos/nachos-3.4/code/threads/thread.cc:214-229 | The first ready thread is dispatched, also when it is the sleeper itself; the machine idles exactly when none is ready. |
| `Threads.SemaphoreTable.Dequeue` | nachos/nachos-3.4/code/threads/synch.cc:87-98 | Takes the head off one semaphore's linked queue; every other semaphore keeps its value and queue. |
| `Threads.SemaphoreTable.Enqueue` | nachos/nachos-3.4/code/threads/synch.cc:64-77 | Puts a thread at the end of one semaphore's linked queue; every other semaphore keeps its value and queue. |
| `Lists.PositionSpec` | nachos/nachos-3.4/code/threads/list.cc:178-202 | The place of insertion is after every smaller or equal key and before every larger one. |
| `Lists.InsertedIsSorted` | nachos/nachos-3.4/code/threads/list.cc:178-202 | Inserting there keeps the keys sorted. |
| `Lists.InsertedItems` | nachos/nachos-3.4/code/threads/list.cc:178-202 | Inserting adds exactly that one item to the multiset. |
| `Lists.PutBackItems` | nachos/nachos-3.4/code/machine/interrupt.cc:300-319 | Taking the head off a sorted list and inserting it again keeps the items and the order of keys. |
| `Lists.PutBackOrder` | nachos/nachos-3.4/code/machine/interrupt.cc:300-319 | The list is the same again exactly when all items with the head's key are the same. |
| `Lists.PutBackOnce` | nachos/nachos-3.4/code/machine/interrupt.cc:300-319 | The items with the head's key are turned around by one place, and the rest of the list stays. |
| `Lists.PutBackRotates` | nachos/nachos-3.4/code/machine/interrupt.cc:300-319 | Done time and again it turns them around one place at a time. |
| `Lists.List.Append` | nachos/nachos-3.4/code/threads/list.cc:76-88 | The linked nodes spell the old sequence with the item at its end, first and last included. |
| `Lists.List.Prepend` | nachos/nachos-3.4/code/threads/list.cc:102-114 | The linked nodes spell the item and then the old sequence, first and last included. |
| `Lists.List.SortedInsert` | nachos/nachos-3.4/code/threads/list.cc:178-202 | On a sorted list the rewired nodes spell the sequence with the item inserted after its equals. |
| `Lists.List.SortedRemove` | nachos/nachos-3.4/code/threads/list.cc:217-237 | Takes off the head and its key; nothing exactly when the list is empty. |
| `Lists.List.Remove` | nachos/nachos-3.4/code/threads/list.cc:124-128 | As SortedRemove, without the key. |
| `Lists.SpellsLinked` | nachos/nachos-3.4/code/threads/list.cc:76-237 | Following the links from the first node spells the contents exactly when the nodes are distinct, each is linked to the next and each holds its item and key. |
| `Interrupts.DeliverLowersDue` | nachos/nachos-3.4/code/machine/interrupt.cc:264-336 | Handlers only schedule for later, so a delivery lowers the number of due entries by one: the loops end. |
| `Interrupts.DrainDeliversDue` | nachos/nachos-3.4/code/machine/interrupt.cc:150-179 | The loop delivers exactly the entries due at that time, in the order of the list. |
| `Interrupts.DrainLeavesFuture` | nachos/nachos-3.4/code/machine/interrupt.cc:150-179 | After the loop everything pending lies in the future. |
| `Interrupts.StepKeepsSound` | nachos/nachos-3.4/code/machine/interrupt.cc:150-336 | A tick, an idle step or a new request keeps the list sorted and every delivery in order and on time. |
| `Interrupts.RunsAreOnTime` | nachos/nachos-3.4/code/machine/interrupt.cc:150-336 | In every run interrupts are delivered in nondecreasing scheduled time, never early and at most SystemTick late. |
| `InterruptRuns.NothingLost` | nachos/nachos-3.4/code/machine/interrupt.cc:150-336 | In every run each interrupt pending at the start or scheduled since, by an event or by a handler, has been delivered once or is pending once, and there are no others. |
| `InterruptRuns.QuietRun` | nachos/nachos-3.4/code/machine/interrupt.cc:150-336 | After any number n of ticks in which nothing falls due, the g interrupts of the earliest time have been turned around by n mod g places, and nothing else has changed in the list. |
| `InterruptRuns.DeliveredInTurn` | nachos/nachos-3.4/code/machine/interrupt.cc:150-336 | The tick at which they fall due delivers them in that order. |
| `InterruptRuns.SwappedDeliveries` | nachos/nachos-3.4/code/machine/interrupt.cc:150-336 | It happens: of any two interrupts scheduled for the same time, eleven ticks on, the first is delivered last. |
| `Interrupts.DrainLeavesDue` | nachos/nachos-3.4/code/machine/interrupt.cc:210-336 | The idle loop leaves an entry that is due exactly when everything pending is due, the last entry is the timer's and the handlers of the others ask for nothing. |
| `Interrupts.StallLeavesTimer` | nachos/nachos-3.4/code/machine/interrupt.cc:210-336 | Then it leaves the timer's entry alone and has delivered all the others. |
| `Interrupts.DueAfter` | nachos/nachos-3.4/code/machine/interrupt.cc:150-336 | Something due is pending after idling exactly in that case, never after a tick, and after a request exactly if it was before. |
| `Interrupts.WholeTickLate` | nachos/nachos-3.4/code/machine/interrupt.cc:150-336 | A system tick delivers an interrupt a whole tick late exactly when one was due before it. |
| `Interrupts.StalledTimerIsLate` | nachos/nachos-3.4/code/machine/interrupt.cc:150-336 | The timer's entry left by the idle loop is delivered exactly a system tick late at the next system tick. |
| `Interrupts.LateTimer` | nachos/nachos-3.4/code/machine/interrupt.cc:210-336 | It happens: a disk interrupt and the timer fall due together and the machine stalls. |
| `Interrupts.Interrupt.ScheduleAt` | nachos/nachos-3.4/code/machine/interrupt.cc:264-275 | The request is in the sorted list at the present time plus its delay. |
| `Interrupts.Interrupt.CheckIfDue` | nachos/nachos-3.4/code/machine/interrupt.cc:290-336 | On the linked list: fires the first entry when it is due, or when allowed to move the clock to it; otherwise puts it back. Idle, system and user ticks always add up to the total, and a yield is asked for exactly when it was before or the handler called asks for it. |
| `Interrupts.Interrupt.OneTick` | nachos/nachos-3.4/code/machine/interrupt.cc:150-179 | Advances by the tick of the mode, ten system ticks or one user tick, delivers everything due, and reports a yield exactly when one was asked for before or by a handler called in this tick. |
| `Interrupts.Interrupt.SetLevel` | nachos/nachos-3.4/code/machine/interrupt.cc:114-127 | Time advances, and a yield may be reported, exactly when interrupts go from off to on. |
| `Interrupts.Interrupt.GoIdle` | nachos/nachos-3.4/code/machine/interrupt.cc:210-234 | Moves to the next interrupt and delivers what is due then, but for the timer's entry exactly when DrainLeavesDue says so; halts exactly when nothing but at most a lone timer is pending. |
| `Multiply.Mult` | nachos/nachos-3.4/code/machine/mipssim.cc:635-692 | hi:lo is exactly the 64-bit product of the operands, signed or unsigned, the smallest int and the early exit included. |
| `Multiply.ShiftAndAdd` | nachos/nachos-3.4/code/machine/mipssim.cc:657-678 | The loop of at most 32 turns adds up the product of the two magnitudes. |
| `Multiply.TurnKeepsProduct` | nachos/nachos-3.4/code/machine/mipssim.cc:663-678 | One turn keeps the sum so far plus what is left to multiply. |
| `Multiply.NegatePairNegates` | nachos/nachos-3.4/code/machine/mipssim.cc:680-688 | Complementing both halves with a carry negates the 64-bit number. |
| `Decoder.DecodeIsHandled` | nachos/nachos-3.4/code/machine/mipssim.cc:589-626 | Every 32-bit word decodes to an operation with a case in OneInstruction, with register numbers below 32 and shift amounts below 32. |
| `Encoding.DecodeRegisters` | nachos/nachos-3.4/code/machine/mipssim.cc:589-626 | Decoding a word laid out as an operation on registers gives that operation back, whole. |
| `Encoding.DecodeImmediate` | nachos/nachos-3.4/code/machine/mipssim.cc:589-626 | Decoding a word laid out with a 16-bit operand gives operation, registers and the signed operand back. |
| `Encoding.DecodeJump` | nachos/nachos-3.4/code/machine/mipssim.cc:589-626 | Decoding a jump gives its operation and 26-bit operand back. |
| `Mips.OverflowTests` | nachos/nachos-3.4/code/machine/mipssim.cc:125-466 | The sign-bit tests of ADD, ADDI and SUB hold exactly when the result is not an int; otherwise the result is exact. |
| `Mips.Execute` | nachos/nachos-3.4/code/machine/mipssim.cc:117-553 | Whatever the instruction, only general registers, HI and LO are written, only loads leave a load and only stores store, and but for branches the counter moves on by four. |
| `Mips.OnlyUnalignedAborts` | nachos/nachos-3.4/code/machine/mipssim.cc:117-553 | No assertion of the simulator fails but the one on an unaligned LWL, LWR, SWL or SWR. |
| `Mips.Settle` | nachos/nachos-3.4/code/machine/mipssim.cc:575-582 | After a delayed load R0 is zero and the load register is one of the 32. |
| `Mips.RunsStayGood` | nachos/nachos-3.4/code/machine/mipssim.cc:93-582 | At every fetch of every run R0 is zero and the load register is one of the 32. |
| `Mips.LoadDelay` | nachos/nachos-3.4/code/machine/mipssim.cc:93-582 | In every run a loaded value is in its register two instructions later, whatever the one between writes, and not one later. |
| `Mips.WriteNow` | nachos/nachos-3.4/code/machine/mipssim.cc:93-582 | In every run a register holds after an instruction what that instruction wrote, or what it held, unless the load before lands in it. |
| `Mips.BranchDelay` | nachos/nachos-3.4/code/machine/mipssim.cc:93-566 | In every run the instruction after a branch is the next one, and only the one after that is where the branch says. |
| `Mips.BranchTarget` | nachos/nachos-3.4/code/machine/mipssim.cc:161-229 | After the delay slot comes the target of a taken branch and otherwise the instruction that follows. |
| `InstructionLaws.SumLaw` | nachos/nachos-3.4/code/machine/mipssim.cc:125-469 | ADD to SUBU leave the sum or difference of their operands modulo 2^32 in their register; ADD, ADDI and SUB trap exactly when it is not an int, and otherwise leave it exactly. |
| `InstructionLaws.CompareLaw` | nachos/nachos-3.4/code/machine/mipssim.cc:404-434 | The SLT forms leave 1 exactly when rs is less, signed or unsigned, and 0 otherwise. |
| `InstructionLaws.LogicLaw` | nachos/nachos-3.4/code/machine/mipssim.cc:153-545 | Which bits AND to NOR leave set, with the immediate forms' operand cut to 16 bits, and OR leaving rs. |
| `InstructionLaws.ShiftLaw` | nachos/nachos-3.4/code/machine/mipssim.cc:263-455 | Which bits LUI and the shifts leave set. |
| `InstructionLaws.MoveLaw` | nachos/nachos-3.4/code/machine/mipssim.cc:345-359 | MFHI to MTLO copy between a register and HI or LO. |
| `InstructionLaws.ProductLaw` | nachos/nachos-3.4/code/machine/mipssim.cc:361-369 | HI and LO together are the signed product. |
| `InstructionLaws.UnsignedProductLaw` | nachos/nachos-3.4/code/machine/mipssim.cc:361-369 | HI and LO together are the unsigned product. |
| `InstructionLaws.UnsignedDivision` | nachos/nachos-3.4/code/machine/mipssim.cc:205-217 | DIVU leaves the quotient in LO and a remainder smaller than the divisor in HI. |
| `InstructionLaws.DivisionByZero` | nachos/nachos-3.4/code/machine/mipssim.cc:195-217 | Both divisions by zero leave zeros. |
| `InstructionLaws.BranchLaw` | nachos/nachos-3.4/code/machine/mipssim.cc:161-229 | When each conditional branch is taken, where it goes modulo 2^32, and what it links. |
| `InstructionLaws.JumpLaw` | nachos/nachos-3.4/code/machine/mipssim.cc:219-224 | J and JAL stay in the 256 MB of the instruction after the delay slot, at four times their operand; JAL links register 31. |
| `InstructionLaws.RegisterJumpLaw` | nachos/nachos-3.4/code/machine/mipssim.cc:225-230 | JR and JALR go to the address in rs, and JALR links rd first. |
| `InstructionLaws.CallReturns` | nachos/nachos-3.4/code/machine/mipssim.cc:93-566 | In every run a JAL and a later JR from an unchanged register 31 come back to the instruction after the call's delay slot. |
| `InstructionLaws.CallTraps` | nachos/nachos-3.4/code/machine/mipssim.cc:534-553 | System calls and operations that do not exist trap; apart from loads and stores nothing else does but overflows. |
| `InstructionLaws.AccessTraps` | nachos/nachos-3.4/code/machine/mipssim.cc:231-476 | A load or store traps exactly when its address does not translate, with that fault and that address. |
| `InstructionLaws.PartTraps` | nachos/nachos-3.4/code/machine/mipssim.cc:280-532 | LWL, LWR, SWL and SWR fail an assertion exactly off word boundaries; SWL and SWR meet faults of reading before those of writing. |
| `InstructionLaws.TrapRestarts` | nachos/nachos-3.4/code/machine/machine.cc:146-157 | A trap leaves counters, HI and LO as they were, lands the load in progress and records the address. |
| `InstructionLaws.StoreThenLoad` | nachos/nachos-3.4/code/machine/mipssim.cc:231-476 | A load finds the low bits of what a store of its size left at the same address, signed or unsigned as it asks. |
| `InstructionLaws.StoreThenLoadPart` | nachos/nachos-3.4/code/machine/mipssim.cc:280-532 | LWL finds the word SWL left; LWR finds in its low byte what SWR left and keeps the rest of the register. |
| `InstructionLaws.StorePartEffect` | nachos/nachos-3.4/code/machine/mipssim.cc:477-532 | SWR replaces the highest byte of the word and keeps the others; SWL replaces the word. |
| `InstructionLaws.StoreElsewhere` | nachos/nachos-3.4/code/machine/translate.cc:87-255 | A store does not affect any load from addresses it does not cover, in a space whose pages have different frames. |
| `InstructionLaws.StoreKeepsCode` | nachos/nachos-3.4/code/machine/translate.cc:87-255 | Nor does it affect an instruction fetched from such addresses. |
| `WordLaws.LogicBits` | nachos/nachos-3.4/code/machine/mipssim.cc:153-160 | AND, XOR and the immediate forms act on each of the 32 bits. |
| `WordLaws.NorBits` | nachos/nachos-3.4/code/machine/mipssim.cc:371-374 | NOR clears a bit exactly when one of the operands has it. |
| `WordLaws.OrInstruction` | nachos/nachos-3.4/code/machine/mipssim.cc:375-378 | OR leaves rs, which is the bitwise or exactly when rt has no bit that rs lacks. |
| `WordLaws.OrFails` | nachos/nachos-3.4/code/machine/mipssim.cc:375-378 | With 0 in rs and 1 in rt the instruction leaves 0 where the or is 1. |
| `WordLaws.ShiftLeftBits` | nachos/nachos-3.4/code/machine/mipssim.cc:395-402 | A left shift moves every bit up and brings in zeros. |
| `WordLaws.ShiftRightBits` | nachos/nachos-3.4/code/machine/mipssim.cc:436-455 | Every right shift moves the bits down and brings in the sign. |
| `WordLaws.LogicalShift` | nachos/nachos-3.4/code/machine/mipssim.cc:445-455 | A signed right shift is the unsigned one exactly when the number is not negative or is shifted by nothing. |
| `WordLaws.LogicalShiftInstruction` | nachos/nachos-3.4/code/machine/mipssim.cc:445-455 | SRL and SRLV leave the unsigned shift exactly under that condition. |
| `WordLaws.LogicalShiftFails` | nachos/nachos-3.4/code/machine/mipssim.cc:445-449 | SRL of -1 by 1 leaves -1 and not 0x7fffffff. |
| `WordLaws.Division` | nachos/nachos-3.4/code/machine/mipssim.cc:195-203 | Quotient times divisor plus remainder is the dividend, and the remainder is smaller than the divisor with the dividend's sign, exactly when the quotient is an int. |
| `WordLaws.LoadAfterStore` | nachos/nachos-3.4/code/machine/mipssim.cc:231-394 | Loading what a store of the same size put there gives the low bits, within the signed range for LB and LH and the unsigned range for LBU and LHU. |
| `Processor.Machine.DelayedLoad` | nachos/nachos-3.4/code/machine/mipssim.cc:575-582 | The register array after landing one load and noting the next. |
| `Processor.Machine.RaiseException` | nachos/nachos-3.4/code/machine/machine.cc:146-157 | The bad address is recorded and the load in progress lands before the kernel is entered. |
| `Processor.Machine.Multiplication` | nachos/nachos-3.4/code/machine/mipssim.cc:361-369 | The multiplier's halves are the HI and LO the instruction's meaning asks for. |
| `Processor.Machine.LoadWord` | nachos/nachos-3.4/code/machine/mipssim.cc:231-343 | A load reads through the page table and leaves its value for the next instruction, or traps; memory is unchanged. |
| `Processor.Machine.StoreWord` | nachos/nachos-3.4/code/machine/mipssim.cc:383-532 | A store changes the bytes it translates to and no others, or traps and changes none. |
| `Processor.Machine.OneInstruction` | nachos/nachos-3.4/code/machine/mipssim.cc:93-566 | In place, one call makes the step the run lemmas speak of; a trap leaves memory as it was and a load landed; only use and dirty bits of the page table change. |
| `Memory.TranslateInPage` | nachos/nachos-3.4/code/machine/translate.cc:186-255 | A translated access lies within the frame of its page, at the offset of the virtual address: the final assertion cannot fail. |
| `Memory.TranslateFaults` | nachos/nachos-3.4/code/machine/translate.cc:186-255 | Exactly which accesses end in which fault. |
| `Memory.BitsTell` | nachos/nachos-3.4/code/machine/translate.cc:248-252 | After any accesses a page is marked used, or dirty, exactly if it was or one of them was to it, or a write to it, and nothing else in the table has changed. |
| `Memory.LoadStored` | nachos/nachos-3.4/code/machine/translate.cc:87-169 | Reading what was written gives the low bytes written, sign-extended for a byte. |
| `Memory.LoadElsewhere` | nachos/nachos-3.4/code/machine/translate.cc:87-169 | A write does not change what is read from other addresses. |
| `Memory.SameMappingTranslates` | nachos/nachos-3.4/code/machine/translate.cc:186-255 | Use and dirty bits do not affect translation. |
| `Memory.MemoryUnit.TranslateAndMark` | nachos/nachos-3.4/code/machine/translate.cc:186-255 | Sets the use bit, and the dirty bit for a write, of the entry used, and nothing on a fault. |
| `Memory.MemoryUnit.ReadMem` | nachos/nachos-3.4/code/machine/translate.cc:87-122 | Delivers the value at the translated address, or the fault. |
| `Memory.MemoryUnit.WriteMem` | nachos/nachos-3.4/code/machine/translate.cc:137-169 | Stores exactly the bytes of the value at the translated address; on a fault memory is unchanged. |
| `AddrSpaces.AddrSpace.constructor` | nachos/nachos-3.4/code/userprog/addrspace.cc:183-212 | With enough clear frames the pages get the lowest ones in order, valid, writable and unmarked; otherwise there are no pages and the map is unchanged. All frames are in memory exactly when there were enough clear ones below 128. |
| `AddrSpaces.AddrSpace.Release` | nachos/nachos-3.4/code/userprog/addrspace.cc:248-255 | Clears exactly the frames of the space. |
| `AddrSpaces.RunsStaySound` | nachos/nachos-3.4/code/userprog/addrspace.cc:107-255 | Over any creations and deletions the frames of live spaces are disjoint and are exactly the marked ones. |
| `AddrSpaces.Isolation` | nachos/nachos-3.4/code/machine/translate.cc:87-255 | A write in one live space never changes what another reads. |
| `AddrSpaces.WriteElsewhere` | nachos/nachos-3.4/code/machine/translate.cc:87-255 | In a space whose pages have different frames a write never changes what is read at addresses it does not cover. |
| `AddrSpaces.WordOfBytes` | nachos/nachos-3.4/code/machine/translate.cc:87-122 | A word read is made of the bytes read at its four addresses, the lowest first. |
| `AddrSpaces.HalfOfBytes` | nachos/nachos-3.4/code/machine/translate.cc:87-122 | A halfword read is made of the bytes read at its two addresses. |
| `AddrSpaces.ReadBack` | nachos/nachos-3.4/code/machine/translate.cc:87-255 | Reading the address just written, with the same size, gives the stored low bytes. |
| `AddrSpaces.FramesBeyondMemory` | nachos/nachos-3.4/code/userprog/addrspace.cc:183-212 | A new space meets bus errors exactly when it has more pages than there were clear frames below 128. |
| `AddrSpaces.BusErrors` | nachos/nachos-3.4/code/machine/translate.cc:236-247 | A space of valid writable pages has an access that ends in a bus error exactly when one of its frames is not in memory. |
| `AddrSpaces.Frame128` | nachos/nachos-3.4/code/userprog/addrspace.cc:183-212 | It happens: the first space, with 129 pages, gets frame 128. |
| `DiskLatency.SeekByTracks` | nachos/nachos-3.4/code/machine/disk.cc:175-194 | A seek takes nothing exactly on the same track, 500 ticks to the next, as long there as back, and adds up over the tracks between. |
| `DiskLatency.LatencyIsFirstPass` | nachos/nachos-3.4/code/machine/disk.cc:232-253 | Without a hit the request ends one rotation step after the earliest sector boundary, at or after the seek, where the head is at the target. |
| `DiskLatency.ModuloDiffReaches` | nachos/nachos-3.4/code/machine/disk.cc:202-209 | The number of sectors to turn is the unique one below a track that brings the head to the target. |
| `DiskLatency.HitMeansPassed` | nachos/nachos-3.4/code/machine/disk.cc:232-253 | A hit is granted exactly for a read on the same track whose sector the head passes before the next boundary. |
| `DiskLatency.HitWhileStillPassing` | nachos/nachos-3.4/code/machine/disk.cc:232-253 | A hit that is granted before the sector has fully passed. |
| `DiskLatency.HitAlreadyPassed` | nachos/nachos-3.4/code/machine/disk.cc:232-253 | A hit means the sector has fully passed exactly when the request comes on a boundary or the count of boundaries is not the distance itself. |
| `DiskLatency.LatencyBounds` | nachos/nachos-3.4/code/machine/disk.cc:232-253 | Every latency is between 500 and 31999 ticks. |
| `DiskLatency.Disk.ComputeLatency` | nachos/nachos-3.4/code/machine/disk.cc:232-253 | The latency of the request in the disk's present state. |
| `DiskLatency.Disk.UpdateLast` | nachos/nachos-3.4/code/machine/disk.cc:261-271 | Remembers the sector, and when the head arrived on a new track, on a sector boundary. |
| `DiskLatency.Disk.Submit` | nachos/nachos-3.4/code/machine/disk.cc:115-153 | Any sequence of requests keeps the arrival time on a boundary and not after the end of the seek, so the laws above hold throughout. |
| `Greedy.OnlyGreedy` | nachos/nachos-3.4/code/test/scanners.c:45-59 | The ids chosen are the only ones in which every bag goes to the lowest-numbered scanner with the least total so far, of exact totals or of ints. |
| `Greedy.GreedyIsAssignment` | nachos/nachos-3.4/code/test/scanners.c:45-59 | The ids chosen give every weight to one of the three scanners, and the loads are the sums of the weights given. |
| `Greedy.GreedyBalance` | nachos/nachos-3.4/code/test/scanners.c:45-59 | The loads sum to all the weights, differ by at most the heaviest, and the largest is at most the average plus two thirds of the heaviest. |
| `Greedy.GreedyRatio` | nachos/nachos-3.4/code/test/scanners.c:45-59 | Three times the largest load is at most five times that of any other assignment. |
| `Greedy.GreedyRatioIsTight` | nachos/nachos-3.4/code/test/scanners.c:45-59 | The factor 5/3 is reached. |
| `Greedy.LoadsFit` | nachos/nachos-3.4/code/test/scanners.c:45-59 | No total overflows an int if the weights' sum does not. |
| `Greedy.IntsAgree` | nachos/nachos-3.4/code/test/scanners.c:45-59 | The program's int totals are the true ones exactly when those are ints, and then its choices are the greedy ones. |
| `Greedy.IdsAgree` | nachos/nachos-3.4/code/test/scanners.c:45-59 | For weights that are ints the program's choices are the greedy ones exactly when no total overflows before the last bag. |
| `Airport.DecimalOfNumeral` | nachos/nachos-3.4/code/test/scanners.c:29-44 | A number in decimal digits is read as that number. |
| `Airport.OthersSkipped` | nachos/nachos-3.4/code/test/scanners.c:29-44 | A character that is not a digit is skipped, wherever it is. |
| `Airport.SplitAtSpace` | nachos/nachos-3.4/code/test/passengers.c:21-94 | A space ends one word of a line and begins the next, wherever it is. |
| `Airport.ParseHandOff` | nachos/nachos-3.4/code/test/scanners.c:29-44 | The digit loop computes, in a wrapping int, the decimal value of the characters before the newline, and whether there was one. |
| `Airport.StepKeepsInv` | nachos/nachos-3.4/code/test/passengers.c:21-94 | Every step of any of the three programs keeps the place of the token, the semaphores, the part of the line handed over, the loads and the output in agreement. |
| `Airport.OneToken` | nachos/nachos-3.4/code/test/scannersmain.c:70-124 | The three semaphores and the processes past their Down add up to one. |
| `Airport.NoDeadlock` | nachos/nachos-3.4/code/test/scannersmain.c:70-124 | Until main has finished some process can go on. |
| `Airport.FinishedOutput` | nachos/nachos-3.4/code/test/scannersmain.c:70-124 | When main finishes, the output holds the choices over each line's nonzero weights as the program reads them, line by line. |
| `Airport.StepLowersWork` | nachos/nachos-3.4/code/test/scanners.c:10-70 | Every step leaves less to do, so no run goes on forever. |
| `Airport.EveryRun` | nachos/nachos-3.4/code/test/scannersmain.c:70-124 | Over every interleaving from the start: one token, no deadlock before main has finished, a bound on the length of the run, and output in which every bag went to the lowest-numbered scanner with the least int total and that, for a line whose weights are ints, is the greedy choice exactly when no total overflows before the last bag. |
| `Airport.ChoicesAsWritten` | nachos/nachos-3.4/code/test/scanners.c:29-59 | The program reads a line's weights and keeps its totals as they are exactly when each of them is an int; then its choices are the greedy ones for the weights as written, and if just the weights are ints, exactly when no total overflows before the last bag. |
| `Airport.WeightsAsWritten` | nachos/nachos-3.4/code/test/scanners.c:29-44 | The weights are read as written exactly when each is an int. |
| `Airport.SumFits` | nachos/nachos-3.4/code/test/scanners.c:29-59 | A line whose weights add up to an int is such a line. |
| `Airport.LostBag` | nachos/nachos-3.4/code/test/scanners.c:29-59 | A bag of 4294967296 is read as nothing and gets no scanner. |
| `IntText.PrintInt` | nachos/nachos-3.4/code/userprog/exception.cc:201-254 | Fills its buffer backwards with the characters of the number, the smallest int included. |
| `IntText.ReadInt` | nachos/nachos-3.4/code/userprog/exception.cc:125-199 | The scan and the sum deliver the wrapped value of the characters between the minus and the first dot, and zero when anything but zeros follows it. |
| `IntText.ParseText` | nachos/nachos-3.4/code/userprog/exception.cc:125-199 | Digits, after a minus or not, are read as the int they stand for when nothing follows or a dot and zeros, and as zero when anything else follows the dot. |
| `IntText.ParseNothing` | nachos/nachos-3.4/code/userprog/exception.cc:125-199 | With nothing to read, the character the buffer happens to hold is read as a digit. |
| `IntText.DigitsValue` | nachos/nachos-3.4/code/userprog/exception.cc:224-239 | The characters written for any int, negative ones included, have that int as their value. |
| `IntText.RoundTrip` | nachos/nachos-3.4/code/userprog/exception.cc:125-254 | Reading what was printed, also with a dot and zeros after it, gives the number back exactly when it is not the smallest int. |
| `IntText.SmallestText` | nachos/nachos-3.4/code/userprog/exception.cc:201-254 | The characters printed for the smallest int. |
| `JoinExit.RunsKeepInv` | nachos/nachos-3.4/code/userprog/ptable.cc:86-168 | In every interleaving the two semaphores count exactly the signals given and not yet taken. |
| `JoinExit.Handshake` | nachos/nachos-3.4/code/userprog/ptable.cc:86-168 | The parent holds only the code the child has set; a child that was joined releases its slot only after the parent has read a zero and returned it. |
| `JoinExit.Outcome` | nachos/nachos-3.4/code/userprog/ptable.cc:86-168 | When no step is left a joined child's parent has returned, and the slot is released exactly when the code is zero. |
| `JoinExit.KeptSlot` | nachos/nachos-3.4/code/userprog/ptable.cc:86-157 | It happens: a child that exits with code 1 after being joined ends waiting with its slot kept. |
| `JoinExit.RunsEnd` | nachos/nachos-3.4/code/userprog/pcb.cc:84-106 | Every run ends within ten steps. |

## Left out

- FileSystems.FileSystem.Create: negative sizes are not modelled; the code makes a file of negative length. What follows an overrun is undefined in C and not modelled.
- FileHeaders.FileHeader.Allocate: likewise.
- FileSystems.FileSystem.Open: the overload with a type, which fills the table of open files, is not modelled.
- FileSystems.FileSystem.constructor: the calls at filesys.cc:86-89 are not modelled; they use the directory file before it is set.
- FileSystems.FileSystem.WriteLive: the file must still be live; WriteRemoved is about the others, as long as their sectors have not been given away; for what happens after that there is only SharedSector.
- FileSystems.FileSystem.WriteRemoved: likewise.
- Volumes.RunsStaySound: a run ends where Create overruns; such a Create has no successor.
- FsTest.Copy: a length that is not an int is not modelled.
- FsTest.CopyThenPrint: likewise.
- OpenFiles.OpenFile.ReadAt: a negative position is not modelled, because the code indexes the header with it. On an overrun the request is not cut to the length of the file; what follows is undefined in C and not modelled.
- OpenFiles.OpenFile.WriteAt: likewise.
- OpenFiles.OpenFile.Read: likewise.
- OpenFiles.OpenFile.Write: likewise.
- Disks.SynchDisk.ReadSector: the lock and the wait for the device are not modelled, because Lock and Condition are empty stubs here; the disk is used by one thread.
- Directories.TableRoundTrip: the padding bytes of an entry are written as zeros.
- VolumeImages.FormattedOnDisk: uninitialised memory (unused header slots, the bytes of unread sectors) is arbitrary, not undefined.
- Kernel.RunsKeepInv: a context switch is a change of the current thread; stacks and the assembly routines are not modelled, and P's test and V are single steps because interrupts are off.
- Threads.Machine.constructor: the kernel starts without semaphores; they are created, by number, before the run, where the source makes them by name at any time.
- Kernel.DestroyedIsNowhere: not every finished thread is deleted; a first dispatch skips the deletion in Run and the mark can be overwritten. KernelRuns.LiveThreads and MarkedThread say which are.
- Interrupts.RunsAreOnTime: the clock is unbounded, where totalTicks is an int; handlers are taken to schedule with a positive delay and to ask for a yield, and nothing else; the yield itself and the delayed load made before a handler are not modelled there.
- Mips.Execute: C leaves INT_MIN / -1 and shifts of negative numbers open; the model wraps them.
- Mips.RunsStayGood: runs stop at a trap; what the kernel's handler does to the registers is not modelled.
- Processor.Machine.OneInstruction: the debug output is not modelled.
- Memory.TranslateInPage: only the page-table branch of Translate is modelled, not the TLB.
- AddrSpaces.AddrSpace.constructor: the segment copy loops, the executable's header, the assertion of the first constructor and addrLock are not modelled.
- DiskLatency.Disk.Submit: the clock is unbounded, where totalTicks is an int; the transfer of data and the interrupt at its end are not modelled.
- Greedy.GreedyRatio: about mathematical integers; IntsAgree says when the program's ints agree.
- Airport.EveryRun: opening and creating files and starting the processes are taken to succeed, the lines of input.txt are given as a list, semaphore names as three counters, and the race on opening scannerid.txt outside the token and the size of saveWeight are not modelled.
- IntText.ReadInt: the console is the buffer it fills.
- JoinExit.Handshake: a Join that starts after the child's check, or a second one, is not modelled; it uses a control block that may have been deleted. The field numwait, which nothing reads, is left out.
- The network, console, timer and synch-list devices, the remaining system calls (which copy strings and pass them on), floating-point input and output, the file system built on UNIX calls, and the converters and disassembler under code/bin are not modelled.
- List.Mapcar, the Print, List and DumpState routines: output only.
