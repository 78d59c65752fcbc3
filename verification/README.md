# A model of the kernel, with proofs

This project models the stateful core of a 32-bit teaching kernel and its C
library, and proves what that core is for. Code that updates state in place is
modelled by classes with mutable fields and arrays; each method is proved
against a function or predicate of its inputs and old state, and the theorems
are lemmas about those. Every operation keeps the branches, constants and error
paths of the C code; where the code misses its evident goal, the model follows
the code and the exact condition is proved.

| module | what it models |
|---|---|
| `Wrappers`, `Limits` | what several modules share |
| `Bits` | unsigned 32-bit words, `x & -x`, masks, shifts, and the rounding loops built on them |
| `PmmTable`, `Pmm` | the physical memory manager: one byte per 512-byte chunk as a canonical encoding of the live blocks |
| `Machine`, `Locking`, `Progress`, `BoundedBuffer` | threads, timer interrupts, spinlocks and semaphores as an interleaving machine; every store of a lock or semaphore operation is a step |
| `Threads` | the thread table in memory: creation, teardown, the cyclic scheduler |
| `FileSpec`, `Kvfs` | growable shared files with private offsets; the pure byte sequence they refine |
| `CString`, `Vfs` | fixed path buffers, mount table, descriptors, two levels of reference counts |
| `Workers` | the concurrent read/write client, under every schedule of file calls |
| `Numerals`, `Format`, `FormatMeaning`, `Printf` | `atoi`, the formatter, what each conversion letter asks for, and `sprintf` |
| `Procfs` | names printed with `%d` and looked up with `atoi` |
| `Calendar`, `Strtok` | weekday and day of the year, packed times, the stateful tokenizer |

## How the main results are built

* **Allocator.** `Manager.Alloc` and `Manager.Free` are proved to make an
  `AllocStep` or a `FreeStep` on the table. `RunEncodesHistory` carries these
  steps over any run of calls, and `RunSafety` reads off what a client relies on.
  `EncodingUnique` and `TableDetermined` make table and live set two views of one thing.
* **Locks.** `Machine.Next` has one step per store of a lock or semaphore
  operation; creation and teardown, between their two flag writes, are one step,
  because no other thread can run there. `NextInv` shows that every move
  of a disciplined client, and every timer interrupt, keeps the invariant;
  `Locking` states the consequences for all runs, and shows what happens outside
  the discipline. `Progress` adds what a completed call does: no other thread can
  run between its steps, so every run from the call on goes through the same
  states, and the state behind it is given in full.
* **Files.** `Vfs.Valid` (tables and reference counts) and `Vfs.Sound` (files,
  handles, and in every mounted file system at most one inode per key) hold
  initially and are kept by every call of every thread. Reads, writes and seeks are
  proved to be `FileSpec.Apply`, the pure meaning of a file. `SeekOutcome`,
  `ReadOutcome` and `WriteOutcome` say outright when `Apply` fails and what it
  returns and leaves; `RunKeeps`, `LastWriteWins` and the `Workers` lemmas are
  about arbitrary interleavings of it.
* **Text.** The formatter's methods are proved to print `Format.Printed`.
  `FormatMeaning` says by the letter alone what a conversion asks for and that
  `Printed` puts exactly that; `AtoiUndoesPrint` and `ListedNamesResolve` read the
  printed text back.

## Where the code falls short, and exactly when

* A request above 2^31 bytes wraps to zero while it is rounded up and gets one
  chunk: `RequestCovered` (if and only if), `OversizedRequestShortchanged`.
* `pmm_init` clears only `chk_end - chk_start` bytes of the table: `Manager.Init`
  establishes the invariant if and only if the managed bytes behind them were zero.
* `strcpy` never writes the closing NUL, so a mount in a slot used before can end
  up under another path, even one that is in use: `CopyReadsBack` and
  `MountingPath` (if and only if), `StaleBufferDuplicatesPath` (a run that gets
  there). While no slot has been used twice, paths are stored as given and stay
  distinct: `MountingTidy`.
* `%d` counts the sign inside the precision, so a field can be shorter than its
  width: `FieldReachesWidth` (if and only if), `ShortField`.
* `lookup` of the process file system accepts any text that `atoi` reads as a live
  thread. Exactly the canonical numerals of live threads and the two information
  files are listed: `ListedIff` (if and only if, on the text alone),
  `UnlistedNamesResolve`.
* `spin_lock` panics instead of waiting: `LockPanicsIff`, `UnlockPanicsIff`,
  `YieldHoldingLockPanics`.
* A short read delivers the remaining bytes but returns 0, and `%s` justifies left
  on any flag: both are part of the specification functions as they are.

## Model

| member | source | states |
|---|---|---|
| `Bits.LowBit` | src/pmm.c:20-20 | `x & -x` of a nonzero word is 2 to the number of its trailing zeros |
| `Bits.AddLowBitRaisesTz` | src/pmm.c:20-20 | adding the lowest bit strictly raises the number of trailing zeros, which is why the loops end |
| `Bits.PowerTest` | src/pmm.c:48-48 | `x & (x - 1)` is x without its lowest bit, so it is zero exactly for powers of two |
| `Bits.MaskIsMod` | src/pmm.c:20-26 | masking with 2^k - 1 is the remainder modulo 2^k |
| `Bits.RoundUp` | src/pmm.c:18-22 | the loop that adds the lowest bit returns the least multiple of 2^k at or above x, wrapped to zero at 2^32 |
| `Bits.CeilIsLeast` | src/pmm.c:18-22 | the value it is specified by is a multiple, at or above the address, and below every other such multiple |
| `Bits.RoundDown` | src/pmm.c:24-28 | the loop that subtracts the lowest bit returns x minus its remainder |
| `Bits.FloorIsGreatest` | src/pmm.c:24-28 | that value is the greatest multiple at or below the address |
| `Bits.RoundToPower` | src/pmm.c:48-48 | the loop returns the power 2^CeilLog(x), and zero above 2^31 |
| `Bits.CeilLogIsLeast` | src/pmm.c:48-48 | that power is the least power of two at or above the size |
| `Pmm.RequestCovered` | src/pmm.c:46-56 | the rounded block covers the request if and only if it is at most 2^31 bytes, and no smaller block would; above that it is always one chunk |
| `Pmm.OversizedRequestShortchanged` | src/pmm.c:46-56 | a request of 2^31 + 1 bytes is served with a single chunk |
| `PmmTable.EntriesLieInWindows` | src/pmm.c:63-65 | every nonzero entry t of the managed range lies in a 2^(t-1)-aligned in-range window filled with t |
| `PmmTable.BlocksDisjoint` | src/pmm.c:58-66 | two blocks that share a chunk are the same block |
| `PmmTable.EncodingUnique` | src/pmm.c:31-31 | a table encodes at most one set of live blocks |
| `PmmTable.TableDetermined` | src/pmm.c:31-31 | a set of live blocks has at most one table |
| `PmmTable.StartTest` | src/pmm.c:79-81 | a chunk starts a live block if and only if its entry is nonzero and its number a multiple of the entry's width |
| `PmmTable.FillAdds` | src/pmm.c:63-65 | filling a free aligned window adds exactly that block to the live set |
| `PmmTable.ClearRemoves` | src/pmm.c:83-86 | clearing a live block's window removes exactly that block |
| `PmmTable.AllChunksConserved` | src/pmm.c:46-87 | chunks in live blocks and zero entries add up to the managed range |
| `Pmm.Manager.Init` | src/pmm.c:33-44 | the managed range starts at the least chunk behind the table and ends with the heap; boot fails if and only if the table leaves no whole chunk, and then changes nothing; the reserved entries are 255 and the first chk_end - chk_start others zero; the manager starts empty and valid if and only if the managed bytes that are not cleared were zero |
| `Pmm.TableStart` | src/pmm.c:18-22 | the table lies at the least chunk boundary at or above the heap's start, and at zero behind the word's last boundary |
| `Pmm.Manager.Layout` | src/pmm.c:34-37 | the first managed chunk is the least one at or behind the end of the table, which has one byte per chunk below the heap's end |
| `Pmm.Manager.Alloc` | src/pmm.c:46-71 | null exactly when no aligned all-free window of the rounded size exists, else the lowest such window filled and nothing else changed; the invariant is kept and the block joins the live set |
| `Pmm.Manager.FirstFit` | src/pmm.c:57-70 | the scan over aligned windows finds the lowest free one if there is any |
| `Pmm.Manager.RoundedChunks` | src/pmm.c:48-56 | the chunk count is 2^ChunkLog(size) and the stored byte one more than that logarithm |
| `Pmm.Manager.Free` | src/pmm.c:73-98 | succeeds if and only if the pointer is null or starts a live block, removes exactly that block, and otherwise leaves the table alone |
| `Pmm.FreeTests` | src/pmm.c:77-82 | the mask test after the shift by the stored byte passes exactly at starts of live blocks, also for zero entries |
| `Pmm.Manager.CheckAndClear` | src/pmm.c:83-86 | the check-and-clear loop succeeds if and only if the whole window holds the byte, and clears the part it has checked otherwise |
| `Pmm.AllocKeepsEncoding` | src/pmm.c:46-71 | any step that meets the specification of alloc keeps the table an encoding |
| `Pmm.FreeKeepsEncoding` | src/pmm.c:73-87 | any step that meets the specification of free keeps the table an encoding |
| `Pmm.RunEncodesHistory` | src/pmm.c:46-98 | after any run of alloc and free the table encodes exactly the blocks the history says are live |
| `Pmm.HistoryServes` | src/pmm.c:46-66 | in every run each live block has the size its own request is rounded to |
| `Pmm.RunSafety` | src/pmm.c:33-98 | after any run of calls from boot, live blocks are aligned to their size, in range, above the table, pairwise disjoint, as large as requested if and only if the request was at most 2^31 bytes, and with the free chunks make up the managed range |
| `Pmm.FreeOfLive` | src/pmm.c:73-87 | freeing a live block always succeeds |
| `Pmm.FreeingAllRestores` | src/pmm.c:73-87 | freeing all live blocks in any order succeeds at every call and leaves the managed range zero |
| `Machine.NextInv` | src/kmt.c:49-198 | every move of a disciplined client and every timer interrupt keeps the invariant of locks, nesting counters, interrupt flag and semaphores |
| `Machine.ExecInv` | src/os.c:46-65 | so every disciplined run does, under every schedule |
| `Machine.SwitchInv` | src/os.c:46-65 | a context switch that saves and restores the flag with the thread keeps the invariant |
| `Machine.LockSteps` | src/kmt.c:131-140 | the separate stores of spin_lock (flag, counter, holder) keep the running thread's part of the invariant |
| `Machine.UnlockSteps` | src/kmt.c:142-151 | the separate stores of spin_unlock and dec_intr do so too |
| `Machine.WaitStep` | src/kmt.c:184-184 | the decrement in sem_wait keeps the value equal to initial value plus signals minus waits, and nonnegative |
| `Machine.SignalStep` | src/kmt.c:195-195 | the increment in sem_signal does so too |
| `Machine.CreateStep` | src/kmt.c:51-82 | a new ready thread in the lowest free slot, or a panic without a slot or a stack, keeps the invariant |
| `Machine.TeardownStep` | src/kmt.c:86-92 | removing exactly another thread keeps the invariant |
| `Machine.CallSteps` | include/os.h:58-61 | the first store of every kernel call keeps the running thread's part of the invariant |
| `Locking.MutualExclusion` | src/kmt.c:131-151 | in every disciplined run both lock panics are unreachable, only the running thread holds locks, and each thread's counter is the number of locks it holds |
| `Locking.InterruptsFollowLocks` | include/os.h:58-67 | interrupts are off while any lock is held, and in client code on exactly when none is, in whatever order locks are released |
| `Locking.SemaphoreLaw` | src/kmt.c:172-198 | in every disciplined run a semaphore's value is its initial value plus completed signals minus completed waits, and never negative |
| `Locking.LockPanicsIff` | src/kmt.c:135-138 | taking a lock panics if and only if the caller holds it already |
| `Locking.UnlockPanicsIff` | src/kmt.c:145-148 | releasing a lock panics if and only if the caller does not hold it |
| `Locking.YieldHoldingLockPanics` | src/kmt.c:135-138 | after a yield with a lock held, the next thread that asks for this lock panics |
| `Progress.WaitCompletes` | src/kmt.c:172-187 | sem_wait by a thread without locks, in every run: with a positive value it takes one, records one wait, and leaves everything else as it was, interrupts on; with value zero it comes to its yield without a lock and with value and record unchanged |
| `Progress.RelockCompletes` | src/kmt.c:179-184 | back from the yield, whatever it found before, the thread takes one if the value is positive now, and yields again only if it is zero |
| `Progress.SignalCompletes` | src/kmt.c:189-198 | sem_signal, with or without locks held, in every run adds one, records one signal and changes nothing else |
| `Progress.LockCompletes` | src/kmt.c:131-140 | spin_lock, in every run: the caller holds the lock, its counter is one more, interrupts are off |
| `Progress.UnlockCompletes` | src/kmt.c:142-151 | spin_unlock, in every run: the lock is free, the counter one less, and interrupts are on if and only if it was the last lock |
| `Progress.CreateCompletes` | src/kmt.c:51-82 | create, in every run: a ready thread at its entry in the lowest free slot, and the caller with its own interrupt flag |
| `Progress.CreateFails` | src/kmt.c:75-82 | without a free slot or a stack it panics |
| `Progress.TeardownCompletes` | src/kmt.c:85-93 | teardown of another thread, in every run: exactly that thread is gone |
| `Progress.TeardownSelfCompletes` | src/kmt.c:85-93 | a thread that removes itself is gone, and another one runs with interrupts on |
| `Progress.SwitchCompletes` | src/os.c:46-65 | a timer interrupt, a yield, and the yield inside sem_wait make the chosen thread the only running one, with interrupts on, and keep counters, locks, values and the place where every thread goes on |
| `Progress.AnyoneNext` | src/kmt.c:95-116 | any live thread can be chosen: by the timer whenever interrupts are on, and by a yield |
| `Progress.NeverStuck` | src/kmt.c:49-198 | a machine that has not panicked always has a move within the discipline |
| `Progress.NobodyReadyIff` | src/kmt.c:105-107 | the scheduler finds no ready thread if and only if the last thread removes itself |
| `BoundedBuffer.CountsByPhase` | src/test/old_test.c:52-81 | threads between two steps of their loop account for the differences between waits, items and signals |
| `BoundedBuffer.BufferBounded` | src/test/old_test.c:52-81 | with full starting at 0 and empty at N, produced minus consumed stays within 0 and N in every interleaving |
| `Threads.Kmt.Create` | src/kmt.c:49-83 | installs the thread in the lowest empty slot with a stack block of its own, and fails only when the table or the memory is full |
| `Threads.Kmt.Teardown` | src/kmt.c:85-93 | clears the slot and frees exactly the thread's stack block; a thread that removes itself goes on to the scheduler, which panics only if no other thread can run |
| `Threads.Kmt.Schedule` | src/kmt.c:95-116 | picks the first ready thread from the start slot on, cyclically; fails only if there is none; at most this_thread is running afterwards |
| `Threads.Kmt.Scan` | src/kmt.c:102-108 | the cyclic loop finds the ready slot nearest to its start, if any |
| `Threads.Kmt.Demote` | src/kmt.c:99-101 | after the running thread is demoted exactly the threads that can run are ready |
| `Threads.Kmt.Dispatch` | src/kmt.c:109-113 | the chosen thread becomes this_thread and the only running one |
| `FileSpec.ApplyKeeps` | src/fs/kvfile.c:54-106 | one call keeps content within capacity, copying paid for by capacity, other offsets within the content, and changes nothing when it fails |
| `FileSpec.GrowOutcome` | src/fs/kvfile.c:35-52 | growing fails if and only if the size is beyond the capacity and there is no memory; it appends zeros, and a reallocation doubles the new size and copies the old content once |
| `FileSpec.SeekOutcome` | src/fs/kvfile.c:82-106 | a seek returns -1 if and only if the whence is none of 0, 1, 2, the position is negative, or growing lacks memory; else the result and the new offset are off, off + offset or off + length, and zeros fill the file up to there |
| `FileSpec.ReadOutcome` | src/fs/kvfile.c:54-69 | a read fails if and only if the handle cannot read; it delivers the bytes between the old and the new offset, all of those asked for, or what is left and then returns 0 |
| `FileSpec.WriteOutcome` | src/fs/kvfile.c:71-80 | a write fails if and only if the handle cannot write or growing lacks memory; the data stands at the offset, the rest of the content is kept, and the offset moves behind the data |
| `FileSpec.MeasureThenRead` | src/test/terminal.c:100-105 | seeking to the end measures the file; after a seek back to 0 a read of that many bytes delivers the whole content |
| `FileSpec.ReadsCompose` | src/fs/kvfile.c:54-69 | two reads in a row deliver what one read of both sizes does |
| `FileSpec.WritesCompose` | src/fs/kvfile.c:71-80 | two writes in a row leave the content of one write of both |
| `FileSpec.RunKeeps` | src/fs/kvfile.c:35-106 | after any run through any number of handles, offset ≤ length ≤ capacity for each handle, and bytes copied by reallocation are at most capacity - 512 |
| `FileSpec.LastWriteWins` | src/fs/kvfile.c:71-80 | after any run a byte of the file is what the last write to it stored, else what it was, else zero |
| `FileSpec.ReadBack` | src/fs/kvfile.c:54-80 | a successful write is read back from its position through any handle |
| `Kvfs.Kvp.Expand` | src/fs/kvfile.c:35-52 | growing zero-fills and keeps the old bytes; without memory content and capacity stay as they were |
| `Kvfs.KvFile.Read` | src/fs/kvfile.c:54-69 | does what FileSpec says of a read to the handle, and puts exactly the delivered bytes at the start of the caller's buffer |
| `Kvfs.KvFile.Write` | src/fs/kvfile.c:71-80 | does what FileSpec says of a write; files never shrink |
| `Kvfs.KvFile.Lseek` | src/fs/kvfile.c:82-106 | does what FileSpec says of a seek, so what `FileSpec.SeekOutcome` states: from the start, the handle or the end, with zeros past the end |
| `Kvfs.ReadThrough` | src/fs/kvfile.c:54-69 | a read through one of many handles leaves every file and every other handle alone |
| `Kvfs.WriteThrough` | src/fs/kvfile.c:71-80 | a write through one of many handles changes one file; all handles on it stay within it, and all other files keep their bytes |
| `Kvfs.SeekThrough` | src/fs/kvfile.c:82-106 | a seek through one of many handles does so too |
| `Kvfs.Kvfs.Lookup` | src/fs/kvfs.c:56-64 | the lowest inode with the key, -1 if and only if there is none |
| `Kvfs.Kvfs.Create` | src/fs/kvfs.c:66-89 | fails if and only if the key is long, memory is short or the table full; else a new empty file in a free slot; keys stay distinct exactly if the key was unused |
| `Kvfs.Kvfs.Open` | src/fs/kvfs.c:97-104 | a fresh handle at offset 0 with one reference |
| `Kvfs.Kvfs.constructor` | src/fs/kvfs.c:29-41 | a new file system has 128 entries of its own, all free, and no references |
| `Kvfs.Kvfs.OneInode` | src/fs/kvfs.c:56-64 | with distinct keys a name determines the entry |
| `CString.Strcpy` | libc/src/string/strcpy.c:3-9 | the destination holds the source's characters followed by whatever it held before: no NUL is written |
| `CString.CopyReadsBack` | libc/src/string/strcpy.c:3-9 | the copy reads back as the source if and only if the buffer had a NUL right behind it |
| `CString.CopyLeavesTail` | libc/src/string/strcpy.c:3-9 | "/a" copied over "/bcd" reads "/acd" |
| `Vfs.Vfs.FindFs` | src/vfs.c:52-67 | returns the longest nonempty valid mount path that is a prefix, the lowest slot among equals, or -1 |
| `Vfs.Match` | src/vfs.c:56-59 | the character loop decides whether a mount path is a prefix |
| `Vfs.ResolutionUnique` | src/vfs.c:52-67 | resolution is a function of table and path, and with distinct mount paths the longest prefix is unique |
| `Vfs.ExactMatch` | src/vfs.c:82-83 | comparing only the resolved slot finds a mount at exactly this path if and only if there is one |
| `Vfs.Vfs.Mount` | src/vfs.c:74-101 | fails if and only if the path is too long, in use, or the table full, and then deletes the file system; else enters it in the lowest free slot; paths stay distinct if and only if the path that ends up there was not in use; all tables, counts and keys stay in order |
| `Vfs.MountingPath` | src/vfs.c:90-93 | the stored path is the given one if and only if the slot's buffer had a NUL behind it; mount paths stay distinct if and only if the stored path was not in use |
| `Vfs.MountingTidy` | src/vfs.c:90-93 | in a slot that has not been used before a path is stored as given, and mount paths stay distinct |
| `Vfs.StaleBufferDuplicatesPath` | src/vfs.c:74-124 | mounting "/xb" and "/ab", unmounting "/xb" and mounting "/a" ends with two valid mounts at "/ab" |
| `Vfs.MountNew` | src/os.c:29-31 | mounting a new file system; what Mount asks of it is what the constructor gives |
| `Vfs.Vfs.Unmount` | src/vfs.c:103-124 | succeeds if and only if a mount at exactly this path has no open descriptor, destroys only that file system, and keeps mount paths distinct |
| `Vfs.Vfs.Open` | src/vfs.c:166-202 | succeeds if and only if a descriptor is free, the path resolves, and the file exists or can be created; the handle is in the lowest free slot, on an entry whose key behind the mount path makes up the path; a file that was there keeps its inode, and the handle is on it; at most one new file appears, and it is empty; keys stay distinct and all tables and counts in order |
| `Vfs.Vfs.OpenFile` | src/vfs.c:171-193 | mount path and key of the handle's entry make up the path; the handle is on the entry that held the key before if there was one; files in use are not touched, at most one new, empty file appears, and keys stay distinct |
| `Vfs.Vfs.SameFileIff` | src/vfs.c:177-178 | handles below one mount are on the same entry if and only if their paths are equal |
| `Vfs.OpenBoth` | src/test/kvfs.c:26-54 | of two opens, by whichever threads, the descriptors below one mount are on one file if and only if the paths are equal |
| `Vfs.OpenKey` | src/vfs.c:178-193 | a handle on the key's file; keys stay distinct in this and every other file system, and all reference counts stay as they were |
| `Vfs.LookupOrCreate` | src/vfs.c:178-183 | lookup then create yields an inode with the key, opening an existing file changes nothing, and keys stay distinct |
| `Vfs.Vfs.Link` | src/vfs.c:194-197 | storing the handle and counting it keeps all tables and counts in order |
| `Vfs.Vfs.Attach` | src/vfs.c:194-197 | after both stores the file system's count is again the number of open files on it |
| `Vfs.Vfs.Read` | src/vfs.c:204-209 | reads through any descriptor do what FileSpec says and keep every invariant |
| `Vfs.Vfs.Write` | src/vfs.c:211-216 | writes do so too, and change no other file |
| `Vfs.Vfs.Lseek` | src/vfs.c:218-223 | seeks do so too |
| `Vfs.Vfs.Close` | src/vfs.c:225-235 | frees exactly this slot, gives up the file's one reference and one of its file system's, and keeps every invariant |
| `Vfs.SlotsCounted` | src/vfs.c:194-196 | the count of a file system is the number of descriptor slots that refer to it |
| `Vfs.OpenAttach` | src/vfs.c:194-196 | one more open file raises the count of its own file system only |
| `Vfs.OpenDetach` | src/vfs.c:227-231 | one less lowers the count of its own file system only |
| `Vfs.FilesLeave` | src/vfs.c:113-121 | a file system without open files can go without orphaning a descriptor |
| `Workers.OwnTurn` | src/test/concrw.c:29-37 | a worker's own call keeps its place in its loop and does not fail, and its read returns its value |
| `Workers.OtherTurn` | src/test/concrw.c:29-37 | a call on a disjoint slot of the same file leaves another worker's invariant alone |
| `Workers.ReadsOwnValue` | src/test/concrw.c:21-39 | under every interleaving each worker reads back its own value |
| `Workers.NoCallFails` | src/test/concrw.c:21-39 | no call of any worker fails |
| `Workers.PlayOnlySlots` | src/test/concrw.c:21-39 | under every interleaving a file ends with one of its slots at the latest and holds only zeros outside them |
| `Workers.ScheduleIndependent` | src/test/concrw.c:87-104 | two schedules in which every slot of a file is written leave the same whole file, with every value in its slot |
| `Workers.TestVerdict` | src/test/concrw.c:87-99 | for the test's eight workers on four files, under every schedule in which all have written, file i is 32 bytes long and its j-th number is (8 - i + j) % 8 |
| `Numerals.ParseInt` | libc/src/stdlib/atoi.c:4-20 | atoi with its 32-bit accumulator returns the number the text starts with, modulo 2^32 |
| `Numerals.AtoiReads` | libc/src/stdlib/atoi.c:4-20 | of blanks, an optional sign, digits and any other text, atoi is the signed 32-bit number equal to the signed decimal number modulo 2^32 |
| `Numerals.LeadingNumberMod` | libc/src/stdlib/atoi.c:15-18 | wrapping at every digit equals wrapping once at the end |
| `Numerals.DigitsDenote` | libc/src/stdio/_vprintf_raw.c:87-90 | the digits produced by repeated division denote the value in their radix |
| `Numerals.DigitsShort` | libc/src/stdio/_vprintf_raw.c:84-90 | a value below radix^k has at most k digits, so the digit buffer cannot overflow |
| `Numerals.DecimalIsCanonical` | libc/src/stdio/_vprintf_raw.c:87-92 | a decimal numeral has no leading zero and denotes its value |
| `Numerals.CanonicalIsDecimal` | libc/src/stdio/_vprintf_raw.c:87-92 | a text of digits without a leading zero is the numeral of the value it denotes |
| `Format.AtoiUndoesPrint` | libc/src/stdlib/atoi.c:4-20 | atoi of %d gives every 32-bit integer back, for every flag set, width and precision, the least integer included |
| `Format.AtoiUndoesD` | libc/src/stdio/_vprintf_raw.c:80-136 | the same for %d, %i and %u of any word, modulo 2^32 |
| `Format.LengthD` | libc/src/stdio/_vprintf_raw.c:108-135 | without zero padding a decimal field is as long as the longest of width, precision, and digits with sign |
| `Format.FieldReachesWidth` | libc/src/stdio/_vprintf_raw.c:110-116 | a field is shorter than its width if and only if zero padding meets an explicit precision that reaches the width only with the sign |
| `Format.ShortField` | libc/src/stdio/_vprintf_raw.c:110-116 | "%05.4d" of -1 prints four characters |
| `Format.NumbersDenote` | libc/src/stdio/_vprintf_raw.c:138-236 | the digits of %o, %x, %X and %p, zeros included, denote the value in their radix |
| `FormatMeaning.NumbersMean` | libc/src/stdio/_vprintf_raw.c:302-323 | for every letter of d, i, u, o, x, X, p, every flag set, width, precision and word: a text is put if and only if it is spaces on the side the flag says, the letter's sign or prefix, and digits of the letter's radix (8 for o, 16 for x in lower and X, p in upper case, else 10) that denote the value (signed for d and i), no more zeros in front than asked for |
| `FormatMeaning.FieldUnique` | libc/src/stdio/_vprintf_raw.c:80-236 | at most one text is what a letter asks for |
| `FormatMeaning.TextMeans` | libc/src/stdio/_vprintf_raw.c:48-78 | %c puts one character, %s its string or as much of it as the precision allows; spaces up to the width stand behind it for '-', for %s on any flag, and else in front |
| `FormatMeaning.LetterPrints` | libc/src/stdio/_vprintf_raw.c:251-334 | the format of % and a number letter alone prints that field |
| `FormatMeaning.NumberPrints` | libc/src/stdio/_vprintf_raw.c:251-334 | a directive anywhere in a format prints the field its written flags, width and precision ask for, and the rest of the format goes on with the other arguments |
| `FormatMeaning.FlagsMean` | libc/src/stdio/_vprintf_raw.c:18-33 | flags count in any order and number: each is on if and only if its character is there |
| `FormatMeaning.NumberMeans` | libc/src/stdio/_vprintf_raw.c:35-42 | a width or precision is the number its digits denote |
| `FormatMeaning.StarWidthMeans` | libc/src/stdio/_vprintf_raw.c:258-264 | a * width is the magnitude of an argument, which justifies left if negative |
| `FormatMeaning.PrecisionMeans` | libc/src/stdio/_vprintf_raw.c:270-287 | the precision is none without a point and behind ".-", else what the digits behind the point denote |
| `FormatMeaning.StarPrecisionMeans` | libc/src/stdio/_vprintf_raw.c:276-281 | behind ".*" it is an argument, none if negative |
| `FormatMeaning.PlainText` | libc/src/stdio/_vprintf_raw.c:335-338 | text without % prints itself |
| `FormatMeaning.PercentPrints` | libc/src/stdio/_vprintf_raw.c:324-327 | "%%" prints one %, a % at the end nothing |
| `FormatMeaning.CountStores` | libc/src/stdio/_vprintf_raw.c:328-330 | %n stores the number of characters in front of it and prints nothing |
| `FormatMeaning.OtherPrints` | libc/src/stdio/_vprintf_raw.c:289-334 | a letter that is no conversion prints nothing and uses up no argument |
| `Printf.Printer.Vprintf` | libc/src/stdio/_vprintf_raw.c:238-343 | puts `Format.Printed` of its arguments, whose meaning `FormatMeaning` states, stores for each %n the number of characters in front of it, and returns the number of characters put |
| `Printf.Printer.PrintDirective` | libc/src/stdio/_vprintf_raw.c:251-334 | one directive is parsed and prints its part of `Format.Printed`, and the rest of the format means what is left |
| `Printf.Printer.PrintD` | libc/src/stdio/_vprintf_raw.c:80-136 | the digit buffer, sign, zeros and spaces come out as the field, whose length is returned |
| `Printf.Printer.PrintO` | libc/src/stdio/_vprintf_raw.c:138-180 | the same in octal |
| `Printf.Printer.PrintX` | libc/src/stdio/_vprintf_raw.c:182-236 | the same in hexadecimal, with prefix |
| `Printf.Printer.PrintS` | libc/src/stdio/_vprintf_raw.c:64-78 | the string cut to the precision and padded, to the left on any flag |
| `Printf.Printer.ReverseDigits` | libc/src/stdio/_vprintf_raw.c:84-90 | the buffer holds the digits in reverse |
| `Printf.GetConv` | libc/src/stdio/_vprintf_raw.c:254-287 | flags, width and precision are parsed as specified, star arguments included |
| `Printf.Sprintf` | libc/src/stdio/sprintf.c:9-19 | the buffer holds the printed text and a NUL, and nothing behind it changes |
| `Procfs.Walk` | src/fs/procfs.c:44-64 | hands the callback the live threads by number and the two information files, in order, up to its first nonzero answer, which is returned |
| `Procfs.Lookup` | src/fs/procfs.c:66-76 | resolves a name by comparison or through atoi |
| `Procfs.LookupIff` | src/fs/procfs.c:66-76 | lookup gives the two information files by name, a thread number if and only if atoi reads it from the name and the thread is live, and -1 if and only if none of that holds |
| `Procfs.ListedInOrder` | src/fs/procfs.c:44-64 | inodes ascend in the list, so no entry comes twice |
| `Procfs.ListedNamesResolve` | src/fs/procfs.c:44-76 | looking up every listed name gives the inode it is listed with |
| `Procfs.ListedIff` | src/fs/procfs.c:44-76 | a name is listed if and only if it is one of the two information files, or a text of digits without a leading zero that denotes a live thread |
| `Procfs.UnlistedNamesResolve` | src/fs/procfs.c:66-76 | "x", "+1" and "007" resolve to threads 0, 1 and 7 although they are never listed |
| `Calendar.WeekdayIsDayCount` | libc/src/time/localtime.c:3-12 | the weekday formula is the number of days since year 1, modulo 7, for every valid date |
| `Calendar.NextDayCounts` | libc/src/time/localtime.c:3-24 | the day count the formulas are compared with rises by one from each day to the next |
| `Calendar.WeekdayAdvances` | libc/src/time/localtime.c:3-12 | the weekday of the next day is one more modulo 7, across months, leap days and centuries |
| `Calendar.YdayCounts` | libc/src/time/localtime.c:14-24 | the day of the year is the days of the months before plus the day |
| `Calendar.YdayAdvances` | libc/src/time/localtime.c:14-24 | it rises by one within the year and starts again at 1 |
| `Calendar.PackedValue` | libc/src/time/time.c:30-36 | the packed time counts 16 months, 32 days, 32 hours, 64 minutes and 64 seconds, and fits a signed 64-bit integer |
| `Calendar.UnpackInvertsPack` | libc/src/time/time.c:30-36 | unpacking the packed time gives every field back |
| `Calendar.PackKeepsOrder` | libc/src/time/time.c:30-36 | packed times compare as integers exactly as the times do |
| `Calendar.Clock.Localtime` | libc/src/time/localtime.c:26-39 | the chain of masks and shifts fills the buffer with the unpacked fields, the weekday and the day of the year |
| `Calendar.LocaltimeOfPacked` | libc/src/time/localtime.c:26-39 | of a packed valid date it gives the fields back, with the day count modulo 7 as the weekday and the days counted in the year |
| `Strtok.TokensAreMaximal` | libc/src/string/strtok.c:12-29 | every token is a maximal delimiter-free substring, and tokens come in order without touching |
| `Strtok.MaximalIsToken` | libc/src/string/strtok.c:12-29 | every maximal delimiter-free substring is a token |
| `Strtok.TokenText` | libc/src/string/strtok.c:12-29 | the text of each token is what stands at its place |
| `Strtok.TokensBehind` | libc/src/string/strtok.c:20-24 | what is left behind the cut holds exactly the other tokens |
| `Strtok.SplitsFirst` | libc/src/string/strtok.c:10-29 | one call returns the first token as a C string and saves a pointer to exactly the rest; null if and only if there is no token |
| `Strtok.Tokenizer.Strtok` | libc/src/string/strtok.c:3-30 | the call makes such a step on the string at any place of a buffer, or on the saved rest, and writes at most one NUL, at the end of the token |
| `Strtok.Skip` | libc/src/string/strtok.c:12-15 | the first loop stops at the first character that is no delimiter, or at the end |
| `Strtok.Cross` | libc/src/string/strtok.c:20-27 | the second loop stops at the next delimiter or at the end |
| `Strtok.DelimMap` | libc/src/string/strtok.c:5-9 | the byte table marks exactly the delimiters |
| `Strtok.ProgressSteps` | src/test/terminal.c:59-63 | a later call leaves the tokens found so far standing |
| `Strtok.CmdToken` | src/test/terminal.c:56-64 | repeated calls yield exactly the tokens of the line, in order, and all of them stand in the buffer at the end |

## Left out

- Pmm.Manager.Init: the contents of the heap at boot are a parameter; that they are zero is the environment's business, and the contract says exactly which bytes matter.
- Pmm.RunSafety: calls of the allocator are atomic here. `src/pmm.c` takes no lock, and `New` in `src/os.c:29-31` and elsewhere calls it with interrupts on, so that two calls never overlap is an assumption.
- Vfs.Vfs.Mount: the empty path is excluded, because `strcpy` would read past its end; so is a file system that is mounted already, that handles refer to, or that shares entries with another.
- Vfs.Vfs.Read: descriptors that are not open, and sizes and offsets from 2^30 on, where the C code dereferences null or overflows an integer, are excluded; so they are in the other calls through a descriptor.
- Kvfs.Kvfs.Create: keys are sequences, so the missing NUL of `strcpy` and the uninitialised key buffers do not show; mount paths are modelled with their buffers.
- Kvfs.Kvfs.constructor: the name of a file system is not modelled.
- Vfs.Vfs.Unmount: the storage of the files of a deleted file system is not accounted for, because the destructor skips the entries in use.
- Locking.SemaphoreLaw: the scheduler is arbitrary, so nothing is said about when a thread that found the value zero runs again; what it does then is `Progress.RelockCompletes`.
- Machine.CreateStep: what `kmt_create` stores between its two flag writes is one step, because no other thread can run there; the stack block belongs to `Threads.Kmt.Create`. The same goes for `Machine.TeardownStep`.
- Threads.Kmt.Schedule: the starting slot is arbitrary, the quality of `rand` is not modelled; an empty slot counts as not ready and an absent running thread as nothing to demote, where the C code dereferences null; the check of the stack's guard words is not modelled.
- Threads.Kmt.Create: the stack guard words and the initial register set are not modelled; in `Machine` a new thread starts with interrupts on, because `_make` is not part of this model.
- Printf.Printer.Vprintf: arguments that do not match the format, a `*` width of the least integer, and widths that overflow an integer are excluded, because C leaves them undefined; arguments are a sequence of tagged values instead of `va_list`, and what `%n` stores is listed instead of written through a pointer.
- Calendar.Clock.Localtime: years from 2^30 on are excluded; the scan for the timer device, and the -1 that `time` returns without one, are not modelled.
- Descriptors: the array inside each thread record is the map `fds` of the class `Vfs`, so teardown of a thread with open files is not modelled.
- Locks around file calls: what the `vfs` functions do to the tables they do under one spinlock (only the deletion of a file system that mount refuses comes after the unlock, and nothing refers to it), so a run of the system is a sequence of calls; `Vfs` models the calls, `Machine` the lock.
- Semaphores and spinlocks are initialised before a run of `Machine`; their magic numbers and names are not modelled.
- Device files, `devfs`, the one-time read-only files of `procfs`, `access`, `fsls`, `memcpy`, `memset`, `ctype`, the terminal and the test shell: either calls into hardware that is not visible, or direct table lookups and byte copies whose properties can be read from one body.
