# eaX kernel: Dafny model and proofs

A model of the stateful parts of the eaX kernel and its C library, with proofs about every run of them.
`dafny verify dfyconfig.toml` checks the whole project.

| file | what it models |
|---|---|
| `BlockList.dfy`, `KernelHeaps.dfy` | the kernel heap: first fit, splitting and two-way coalescing, as a block list and as linked headers in memory |
| `Console.dfy` | the text console against an unbounded page |
| `ByteRoutines.dfy`, `BumpHeaps.dfy` | `memcpy`, `memset`, `memmove`; `malloc`, `calloc`, `realloc` |
| `NumberParsing.dfy` | `strtol` and `atoi` |
| `Random.dfy` | `rand` and its period |
| `ProcessTable.dfy` | the process table and its priority scheduler |
| `FileSystem.dfy` | inode, descriptor and block accounting |
| `DeviceRegistry.dfy` | the device table |
| `VirtualMemory.dfy`, `SwapSpace.dfy` | virtual mappings; swap regions |
| `Words.dfy`, `CStrings.dfy`, `Arithmetic.dfy` | 32-bit words, C strings, division |

State that the C code updates in place is a class with the same tables and counters; its methods are proved against
functions or relations on values, and the theorems about whole runs are lemmas about those. A class invariant that
every method requires and ensures (`Valid`, `Shaped`, `TableOk`) is a statement about every run of its methods.

The main results:

- Kernel heap: the block list is a function of the set of used blocks alone (`Canonical`). Hence frees commute,
  a free undoes the allocation before it, and a run that gives everything back ends where `memory_init` started.
- `rand`: the period of the seed is exactly 2^32 and that of the returned values exactly 2^31, from every seed; every
  output occurs 2^16 times in it.
- Scheduler: repeated scheduling is a stable sort by descending priority, with the call number of each process; a
  blocked or terminated process is left out exactly as long as no call unblocks it.
- Console: the W x H screen is always the bottom window of a page that never scrolls.
- `realloc`: the first min(old, new) bytes survive although the copy may overrun the old block.
- `strtol` and `atoi` invert rendering, in every base from 2 to 16 and in base 0.
- File system: over every run the blocks taken cover the files. Bytes are conserved exactly when no write wraps and
  every create finds an empty inode; descriptors stay within their files exactly when each create and each wrapping
  write meets its guard. Both hold for clients that open only created inodes and make no wrapping write.

## How the source is read

- Sizes and counters that callers control are 32-bit words with explicit wrap-around: `malloc`, `calloc`, `realloc`,
  file reads and writes, swap requests, mappings, device ids. Where a promise fails because a sum wraps, the model keeps
  the wrap and states exactly when the promise holds (`BumpHeap.Malloc`, `DescriptorsStaySafe`, `BytesConserved`,
  `ReadExact`, `OrderedThroughout`, `Allocate`). Each promise that fails comes with calls from the
  initial state that break it.
- `kernel.h` is not part of this model. From their uses, a heap header has the fields `size`, `free`, `next` and `prev`
  and takes 16 bytes under `-m32` (build.mk:21), and ALIGN_UP rounds up to a multiple of 16. The heap range of
  sys.cfg:16-17 is a multiple of 16 long; the model takes any such range in which
  addresses, and a size plus two headers, fit a word. Screen size and colour are parameters.
- kernel.c:336 subtracts a pointer from an integer; it is read as the length of the heap range in bytes.
- The kernel heap's memory is one header cell per address. Only the addresses of blocks hold headers that matter, and
  `ClientWrite` shows that payload stores elsewhere cannot disturb them.
- `srand` ignores its argument (stdlib.c:328-329), so the seed only moves by `rand`.
- A digit loop whose result leaves the range of `long` is undefined in C; `Strtol` and `Atoi` report it as `overflow` and
  promise nothing about the value then. -2^31 overflows although it is a `long`, because its digits are read first.
- A `calloc` fill or `realloc` copy that runs off the end of the heap stops there in the model, reported as `overrun`.
- `thread_create` and `mm_allocate_swap_space` return 0 both for failure and for a valid result; so do the models.
- sys.cfg:84 calls the scheduler round robin; the code picks the highest priority and never demotes the old process.
- The mapping table of mem.c:33 is never given storage; the model gives it a capacity.

## Model

| member | source | states |
|---|---|---|
| KernelHeaps.KernelHeap.constructor | kernel.c:334-340 | `memory_init` builds a well-formed heap with nothing in use: one free block over the whole range, linked to nothing |
| KernelHeaps.FirstRequest | kernel.c:334-363 | on a new heap a request is granted exactly when it is not 0 and fits the range, 16 bytes after its start |
| KernelHeaps.KernelHeap.Kmalloc | kernel.c:342-369 | for every request that rounds up within a word: NULL exactly when nothing was asked or no free block fits; otherwise the lowest-address block that fits is given out, it joins the used blocks and nothing else changes; the linked, tiled, coalesced heap is kept and the call is the step of the run theorems |
| KernelHeaps.KernelHeap.GiveOut | kernel.c:350-363 | splitting or taking a block whole, done on headers in memory, yields the specified block list and a heap that is still linked both ways |
| KernelHeaps.KernelHeap.Kfree | kernel.c:371-391 | exactly the block of the pointer leaves the used set and the heap stays well formed, which by `Canonical` determines the result; NULL changes nothing; the call is the step of the run theorems |
| KernelHeaps.KernelHeap.CoalesceForward | kernel.c:374-383 | the forward half of freeing, on headers in memory, leaves the list linked even while two neighbours may both be free |
| KernelHeaps.KernelHeap.CoalesceBackward | kernel.c:384-390 | a free predecessor absorbs the block; `next` and `prev` stay inverse walks |
| KernelHeaps.KernelHeap.ClientWrite | kernel.c:362-363 | whatever a client stores in the payload of a live block, the heap stays intact |
| KernelHeaps.MergeLinks | kernel.c:377-390 | absorbing a neighbour's header and redirecting one back pointer keeps every header linked |
| KernelHeaps.SplitLinks | kernel.c:350-361 | inserting a header inside a block and redirecting two pointers keeps every header linked |
| BlockList.InOrder | kernel.c:334-391 | in a well-formed heap blocks follow one another in address order inside the range |
| BlockList.PayloadsDisjoint | kernel.c:363 | no byte between a returned pointer and the end of its block belongs to another block in use |
| BlockList.Canonical | kernel.c:342-391 | two well-formed heaps over one range with the same used blocks are equal: each maximal gap is one free block |
| BlockList.FreeBlocksAreGaps | kernel.c:371-391 | a free block is a maximal gap between used blocks or the ends of the range |
| BlockList.FirstFit | kernel.c:347-366 | the index found fits and nothing before it does |
| BlockList.FirstFitFits | kernel.c:347-349 | the search finds the lowest free block of at least the size, and none only if every free block is smaller |
| BlockList.AllocKeepsHeap | kernel.c:350-362 | allocation keeps tiling, alignment and coalescing |
| BlockList.AllocUses | kernel.c:349-363 | the used set gains one new block at the address of the block found, larger than the request by less than a header and 16 bytes; a split-off rest holds at least that much |
| BlockList.FreeKeepsHeap | kernel.c:374-390 | freeing keeps tiling, alignment and coalescing and removes exactly the freed block from the used set |
| BlockList.FreeUndoesAlloc | kernel.c:342-391 | freeing what was just allocated restores the block list exactly |
| BlockList.FreeAllKeepsHeap | kernel.c:371-391 | freeing any set of live blocks one by one removes exactly those |
| BlockList.FreeOrderIrrelevant | kernel.c:371-391 | confluence: any two orders of freeing the same live blocks give the same heap |
| BlockList.RunKeepsMachine | kernel.c:334-391 | over every legal run of allocations and frees the heap stays well formed and the pointers held are exactly those of the used blocks |
| BlockList.FreshGrants | kernel.c:334-363 | a new heap holds nothing and every request that fits its range is granted at its first address |
| BlockList.FullRecovery | kernel.c:334-391 | every run that gives back all pointers it received ends with the heap `memory_init` built |
| BlockList.RunsAgree | kernel.c:342-391 | two different runs that leave the same blocks in use leave the same block list |
| Console.Screen.Clear | kernel.c:264-270 | every cell is a space of the current colour, the cursor is at the top left, and the screen shows the blank page |
| Console.CellBytes | kernel.c:286 | the low byte of a cell is the character and the high byte the colour, or all ones for a negative character |
| Console.Screen.Scroll | kernel.c:308-315 | the forward in-place loop is a true shift by one row and blanks the last row |
| Console.Screen.Place | kernel.c:272-288 | every write is in bounds and matches the same step on the unbounded page |
| Console.Screen.PutChar | kernel.c:272-299 | refinement: after any character the screen is the bottom window of the page driven by the same rules; where the cursor goes for each control character and every other one, at the row end and at the last row; a character's two bytes are where the cursor was, one row up after a scroll |
| Console.Screen.KeepCursorOnScreen | kernel.c:295-298 | scrolling moves the window down the page by exactly one row |
| Console.Screen.Print | kernel.c:301-306 | a printed string is the fold of its characters on the page, and the screen still shows its bottom window |
| Console.PutKeepsPage | kernel.c:272-293 | a character moves down at most one row and a row just reached is blank |
| Console.TextIsContiguous | kernel.c:286-293 | text without control characters fills consecutive cells across rows, one position per character, and disturbs nothing else |
| Console.ControlsOnlyMove | kernel.c:273-293 | newline, return and tab write nothing and move to the next row, the row start, or four cells on but not past the row end |
| Console.BackspaceUndoes | kernel.c:280-293 | a backspace takes the previous character back exactly when that character did not end its row; otherwise it does nothing |
| Console.CutsDoNotMatter | kernel.c:197-250 | consecutive prints leave the same page as one print of the joined text, however it is cut |
| ByteRoutines.Memcpy | stdlib.c:3-10 | exact result for any overlap: a source below the destination repeats the bytes between the two; nothing outside the destination changes |
| ByteRoutines.OriginBeforeOverlap | stdlib.c:3-10 | the bytes of the source that lie below the destination, and all bytes when the destination is not above the source, are copied faithfully |
| ByteRoutines.OriginRepeats | stdlib.c:3-10 | after that the bytes between the source and the destination come round again, which with the previous law determines every byte |
| ByteRoutines.Memset | stdlib.c:12-18 | exactly the given range takes the value |
| ByteRoutines.Memmove | stdlib.c:20-35 | the destination equals the old source for every overlap and everything else is unchanged |
| BumpHeaps.BumpHeap.constructor | stdlib.c:182-183 | the static heap starts zeroed and unused |
| BumpHeaps.BumpHeap.Malloc | stdlib.c:179-193 | chunks stay disjoint, in bounds and account for every used byte, unused bytes stay zero; the invariant breaks exactly when the 32-bit bound check wraps |
| BumpHeaps.BumpHeap.Calloc | stdlib.c:198-205 | a zeroed chunk, of `count * size` bytes exactly when the product fits a word; no byte of the heap changes at all; the fill leaves the heap exactly when the bound check wraps |
| BumpHeaps.BumpHeap.Realloc | stdlib.c:207-219 | the first min(old, new) bytes are kept, everything below the new chunk is untouched, and the exact contents are given even where the copy overruns the old chunk into what it is writing; the copy leaves the heap exactly when the bound check wraps |
| BumpHeaps.BumpHeap.ClientWrite | stdlib.c:189-192 | a store into one chunk changes no other chunk and keeps the invariant |
| BumpHeaps.WrapHandsOutTwice | stdlib.c:179-193 | three requests on a new heap after which one byte has been handed out twice |
| NumberParsing.Strtol | stdlib.c:132-177 | the loops compute sign, base, magnitude and end position of the specification for every text and base, the end is at a character that is no digit of the base, and overflow happens exactly when the magnitude exceeds 2^31 - 1 |
| NumberParsing.DigitRanges | stdlib.c:157-169 | exactly '0' to '9', 'a' to 'f' and 'A' to 'F' are digits, and of a base those whose value is below it |
| NumberParsing.EndIsFirst | stdlib.c:157-173 | the digits end at the first character outside those ranges or of a value that reaches the base |
| NumberParsing.StrtolLeadSplits | stdlib.c:136-155 | for every text and base, spaces and tabs and at most one sign are skipped, and with base 0 exactly "0x", "0X" and "0" select the bases 16 and 8 |
| NumberParsing.AtoiLeadSplits | stdlib.c:116-122 | the same for `atoi`: spaces and at most one sign |
| NumberParsing.Accumulate | stdlib.c:157-173 | the digit loop stops at the first character that is no digit of the base, or at an overflow, which happens exactly when the whole number does not fit |
| NumberParsing.Atoi | stdlib.c:112-130 | the same for `atoi`, which skips spaces only and reads '0' to '9' |
| NumberParsing.RenderDenotes | stdlib.c:157-173 | rendering a number in bases 2 to 16, upper or lower case, gives digits that denote it |
| NumberParsing.StrtolInvertsRender | stdlib.c:132-177 | for every integer, base 2 to 16, case, optional sign and leading blanks, reading the rendered text gives the integer back and stops at the first non-digit |
| NumberParsing.StrtolDetectsBase | stdlib.c:145-155 | base 0 recognizes hexadecimal, octal and decimal notation and inverts all three; a decimal zero is covered unless an 'x' follows it |
| NumberParsing.ZeroInBase0 | stdlib.c:145-171 | with base 0 a zero digit is read alone, as 0, if and only if neither an octal digit nor an 'x' follows it |
| NumberParsing.PrefixWithoutDigits | stdlib.c:145-175 | in "0xg" the 'x' is consumed although no digit follows |
| NumberParsing.OverflowsInPrefix | stdlib.c:171 | some intermediate result exceeds `LONG_MAX` if and only if the magnitude does |
| NumberParsing.MinLongOverflows | stdlib.c:125-176 | the text of -2^31 denotes a `long`, yet its digit loop overflows in `strtol` and `atoi` |
| NumberParsing.AtoiInvertsRender | stdlib.c:112-130 | `atoi` inverts decimal rendering after any number of spaces |
| NumberParsing.AtoiIsStrtol10 | stdlib.c:112-143 | `atoi` reads exactly what `strtol` reads in base 10 unless a tab follows the leading spaces, and then it reads nothing |
| Random.Generator.Rand | stdlib.c:322-326 | the wrapping arithmetic advances the seed by 1103515245 x + 12345 modulo 2^32 and returns bits 16 to 30 |
| Random.FirstValues | stdlib.c:322-326 | the first four calls return 16838, 5758, 10113 and 17515 |
| Random.WordStep | stdlib.c:324 | wrapping after each operation equals reducing once modulo 2^32 |
| Random.GeometricValuation | stdlib.c:324 | for a multiplier that is 1 modulo 4, 1 + a + ... + a^(n-1) is divisible by the same powers of two as n |
| Random.ClosedForm | stdlib.c:324 | without the modulus, n calls move the seed by a geometric sum times an odd number |
| Random.FullPeriod | stdlib.c:322-326 | n calls return to the starting seed if and only if 2^32 divides n |
| Random.NoRepeat | stdlib.c:322-326 | the seeds of one period are pairwise distinct |
| Random.EverySeedOnce | stdlib.c:322-326 | every 32-bit seed occurs exactly once among any 2^32 consecutive calls |
| Random.OutputPeriod | stdlib.c:322-326 | the returned values repeat after n calls if and only if 2^31 divides n |
| Random.OutputsUniform | stdlib.c:322-326 | every output 0..32767 is returned exactly 2^16 times among any 2^31 consecutive calls |
| ProcessTable.ProcessManager.constructor | prcs.c:90-101 | the zeroed table after initialization satisfies the table invariant |
| ProcessTable.ProcessManager.Reinitialize | prcs.c:92-101 | initializing again, from any state, leaves a well-formed table, consistent with the current process exactly when no process was ever dispatched, because that pointer is not reset |
| ProcessTable.ReinitializeLosesCurrent | prcs.c:92-212 | create, schedule and initialize again leave a current process that is no longer in the table |
| ProcessTable.ProcessManager.Find | prcs.c:140-141 | the scan by pid is a lookup: entry i has pid i + 1 |
| ProcessTable.ProcessManager.Create | prcs.c:103-137 | appends one CREATED entry with the next pid, keeping only the stored exit code, or changes nothing when full; pids, counters and thread totals stay consistent |
| ProcessTable.ProcessManager.Terminate | prcs.c:139-149 | only the named process becomes a ZOMBIE with its exit code, and only successful calls are counted |
| ProcessTable.ProcessManager.ThreadCreate | prcs.c:151-172 | thread ids count up from 0 in each process and the global total stays the sum over processes |
| ProcessTable.ProcessManager.BlockForIo | prcs.c:279-287 | only the named process becomes BLOCKED |
| ProcessTable.ProcessManager.Unblock | prcs.c:289-296 | only the named process becomes READY |
| ProcessTable.ProcessManager.SetPriority | prcs.c:226-233 | only the named process changes priority |
| ProcessTable.ProcessManager.Select | prcs.c:188-200 | the first pass finds the pid of the eligible process that goes before all others, or 0 |
| ProcessTable.ProcessManager.ScheduleNext | prcs.c:185-212 | select-then-find dispatches a READY or CREATED process of positive priority that no READY or CREATED one exceeds, the first among equals, or nothing if none has positive priority, and only the switch counter moves then; afterwards the current pid and pointer agree with the table if and only if they did before or a process was dispatched |
| ProcessTable.Pick | prcs.c:191-200 | nothing eligible goes before the entry picked, and none is picked only if none is eligible |
| ProcessTable.ScheduleLowersRank | prcs.c:185-212 | one call dispatches the process of rank 0 and lowers the rank of every other eligible process by one |
| ProcessTable.DispatchedByRank | prcs.c:185-212 | a process is dispatched at call 1 + (number of eligible processes of higher priority, or equal priority and lower index) |
| ProcessTable.AfterCalls | prcs.c:185-212 | after n calls exactly the eligible processes of rank below n have become RUNNING and nothing else in the table changed |
| ProcessTable.QuietAfterAll | prcs.c:185-212 | once all eligible processes have been dispatched the table never changes again |
| ProcessTable.DispatchesSorted | prcs.c:185-212 | repeated scheduling is a stable sort: earlier calls dispatch processes that go before those of later calls |
| ProcessTable.SuspendedThroughout | prcs.c:139-296 | over every run a blocked or terminated process stays so, and is never dispatched, if and only if no call of the run unblocks it |
| ProcessTable.WokenRuns | prcs.c:185-296 | an unblocked process of positive priority, even a terminated one, runs after the eligible ones that go before it |
| ProcessTable.TerminatedRunsAgain | prcs.c:103-296 | create, terminate, unblock and schedule leave the terminated process running |
| FileSystem.Step | filesystem.c:119-244 | every call keeps `next_inode_number + free_inodes` constant and every descriptor on an inode inside the table, so all table writes are in bounds |
| FileSystem.BootState | filesystem.c:92-117 | 4096 empty inodes with a root directory, no open descriptor, 65436 free blocks, 4086 free inodes and the first numbers 1, 100 and 3 |
| FileSystem.CreateMakesEmpty | filesystem.c:119-136 | a file is created exactly when an inode is left: the next number, empty, nothing else changes |
| FileSystem.OpenStartsAtZero | filesystem.c:158-171 | an open is accepted exactly for an inode in the table while a descriptor is left; a read through the new descriptor returns the file from its start |
| FileSystem.CloseEndsUse | filesystem.c:173-178 | after a close the descriptor is not usable and no other descriptor, inode or counter changed |
| FileSystem.ClosedForGood | filesystem.c:158-230 | after a close and any later run, reads, writes and seeks on a descriptor that had been handed out return 0 without effect |
| FileSystem.ReadEndsAtSize | filesystem.c:180-192 | in any state, a read reports what it moves its descriptor by modulo 2^32, moves nothing else, and is cut short exactly when its wrapped sum passes the end of the file, where it then ends |
| FileSystem.WriteCharges | filesystem.c:194-215 | a write is accepted exactly with a usable descriptor, a wrapped size of at most 2^28 and its blocks free; it is charged the least number of blocks that holds it, or none within a block of 2^32, and changes no other inode or descriptor |
| FileSystem.WriteThenRead | filesystem.c:180-230 | what was written is read back in full after a seek to where the write began, if no sum wraps |
| FileSystem.SeekMoves | filesystem.c:217-230 | a seek is accepted exactly up to the end of the file and moves only its descriptor |
| FileSystem.AllocateTakesOne | filesystem.c:237-244 | a block is handed out exactly when one is free, under the next number |
| FileSystem.ChargeCovers | filesystem.c:201-212 | rounding up per write never charges fewer blocks than the file gains, even when the 32-bit sums wrap |
| FileSystem.StepKeepsAccounts | filesystem.c:119-244 | every call, whatever its arguments, keeps block numbers within the disk and the blocks taken at least the blocks the files fill |
| FileSystem.StorageBounded | filesystem.c:92-244 | over every run the blocks taken cover the sum over inodes of ceil(size / 4096) besides the blocks allocated singly, and the bytes stored fit the initial free space |
| FileSystem.NumbersFresh | filesystem.c:119-244 | over every run the inode numbers, the descriptors and the block numbers handed out are each strictly increasing and in range |
| FileSystem.ClosedStaysClosed | filesystem.c:158-230 | over every run a closed descriptor stays closed and every read, write or seek on it is refused without effect |
| FileSystem.SeekThenRead | filesystem.c:180-230 | after an accepted seek a read returns min(request, bytes from there to the end) if and only if position plus request does not wrap round into the file, and then advances by as much |
| FileSystem.StepKeepsSafe | filesystem.c:119-244 | one call keeps every open descriptor at or before the end of its file if and only if it meets its guard: that of `CreateSafety` for an accepted create, that of `WrappingWrite` for a wrapping write, none for any other call |
| FileSystem.SafeThroughout | filesystem.c:119-244 | no descriptor is past the end of its file at any point of a run if and only if every call of the run meets its guard |
| FileSystem.DescriptorsStaySafe | filesystem.c:92-244 | the same over every run from boot, however many descriptors share a file |
| FileSystem.CreateSafety | filesystem.c:119-136 | creating a file keeps descriptors safe if and only if no open descriptor has already advanced in that inode |
| FileSystem.CreateBreaksSafety | filesystem.c:119-215 | three concrete calls from boot after which a descriptor is past the end of a new file |
| FileSystem.WrappingWrite | filesystem.c:201-214 | an accepted write whose size sum wraps shrinks the file without charge; safety survives if and only if every open descriptor on the file has that many bytes to spare |
| FileSystem.WrappingWriteBreaksSafety | filesystem.c:194-230 | five concrete calls from boot after which a descriptor is 2^32 - 1 bytes into an empty file |
| FileSystem.WriteKeepsRemaining | filesystem.c:210-211 | a write leaves what its own descriptor has left to read unchanged and gives every other descriptor on the file exactly the bytes written, if and only if the new size does not wrap or, for the writer, its position wraps too |
| FileSystem.BytesConserved | filesystem.c:92-214 | over every run from boot the file sizes add up to at most the bytes the writes reported, and to exactly that if and only if no write wraps and every accepted create finds its inode empty |
| FileSystem.RunBalance | filesystem.c:119-214 | over every run the bytes stored are the bytes stored before plus the bytes reported, less those of inodes that a create empties and 2^32 for every wrapping write |
| FileSystem.CreateLosesByte | filesystem.c:119-215 | three concrete calls from boot that report one byte and store none |
| FileSystem.WrappingWriteLosesBytes | filesystem.c:119-215 | four concrete calls from boot that report 2^32 bytes and store none |
| FileSystem.SoundClients | filesystem.c:119-244 | clients that open only created inodes and make no wrapping write lose no byte and never have a descriptor past the end of its file |
| FileSystem.ReadExact | filesystem.c:187-188 | a read returns min(request, rest of file) if and only if position plus request does not wrap round into the file, and then advances by as much |
| FileSystem.WrappingReadRunsBack | filesystem.c:180-192 | four concrete calls from boot after which one read of a two-byte file reports 2^32 - 1 bytes and moves back to its start |
| FileSystem.ReadsDrainFile | filesystem.c:180-192 | a run of reads returns min(sum of requests, rest of file) in all if and only if none of them wraps round into the file, and then moves only its own position |
| FileSystem.FileTables.constructor | filesystem.c:92-117 | initialization of the zeroed tables gives the boot state |
| FileSystem.FileTables.CreateFile | filesystem.c:119-136 | the updates on the tables in memory are the specified create step |
| FileSystem.FileTables.OpenFile | filesystem.c:158-171 | the updates on the tables in memory are the specified open step |
| FileSystem.FileTables.CloseFile | filesystem.c:173-178 | the update on the descriptor table is the specified close step |
| FileSystem.FileTables.ReadFile | filesystem.c:180-192 | the update on the descriptor table is the specified read step |
| FileSystem.FileTables.WriteFile | filesystem.c:194-215 | the updates on inode, descriptor and superblock are the specified write step |
| FileSystem.FileTables.SeekFile | filesystem.c:217-230 | the update on the descriptor table is the specified seek step |
| FileSystem.FileTables.TakeBlock | filesystem.c:237-244 | the counter updates are the specified block allocation step |
| DeviceRegistry.CopyName | devices.c:54-61 | the buffer reads back as the name cut to 128 characters; bytes after the terminator keep what they held |
| DeviceRegistry.SameName | devices.c:235-242 | the comparison loop decides equality up to the terminator or 128 characters, terminated or not |
| DeviceRegistry.WithoutId | devices.c:67-78 | removal keeps the order by id and takes out exactly the entry with that id |
| DeviceRegistry.OrderedUnique | devices.c:67-78 | a list ordered by id is determined by its set of entries |
| DeviceRegistry.IdsNeverReused | devices.c:39-78 | over every run no id is given out twice if and only if at most 2^32 are given out |
| DeviceRegistry.IssuedIds | devices.c:46 | over every run the ids given out are consecutive words, round the end of the counter if need be |
| DeviceRegistry.OrderedThroughout | devices.c:39-78 | the list is ordered by id at every point of a run if and only if each accepted registration finds it empty or its last id below the next one |
| DeviceRegistry.RunKeepsOrder | devices.c:39-78 | every run whose accepted registrations do not push the counter past its end meets that condition and ends with an ordered list |
| DeviceRegistry.OrderAfterAppend | devices.c:45-63 | one more entry keeps the order if and only if the list was empty or its id exceeds the last one |
| DeviceRegistry.UniqueAfterAppend | devices.c:45-63 | one more entry keeps ids unique if and only if its id is not live |
| DeviceRegistry.CounterWrapBreaksOrder | devices.c:39-78 | a run from the empty registry that uses up the counter and ends with id 0 after id 1 |
| DeviceRegistry.CounterWrapRepeatsId | devices.c:39-78 | a run from the empty registry that ends with two live devices of id 1 |
| DeviceRegistry.FirstIsSmallest | devices.c:215-248 | in an ordered registry the id of the first match is the smallest of all matches, 0 if there is none |
| DeviceRegistry.DeviceManager.constructor | devices.c:32-37 | an empty registry |
| DeviceRegistry.DeviceManager.Register | devices.c:39-65 | appends one entry with the next id and the clipped name, or changes nothing when full; order survives if and only if the list was full or empty or the next id exceeds the last live one, uniqueness if and only if it was full or the next id is not live |
| DeviceRegistry.DeviceManager.ShiftDown | devices.c:70-73 | the in-place shift loop removes exactly one entry and keeps the order of the rest |
| DeviceRegistry.WithoutFirst | devices.c:68-73 | removing by id takes out the first entry with that id and nothing else |
| DeviceRegistry.DeviceManager.Unregister | devices.c:67-78 | succeeds exactly when the id is live, removes only its first entry, and keeps an ordered list ordered |
| DeviceRegistry.DeviceManager.SetStatus | devices.c:80-89 | only the first device with the id changes its flags, and it keeps its place, whether or not ids are ordered; enable and disable share the loop |
| DeviceRegistry.DeviceManager.FindByType | devices.c:215-222 | the id of the first live device of the type, or 0 when there is none; in an ordered registry the smallest such id |
| DeviceRegistry.DeviceManager.FindByMajor | devices.c:224-231 | the id of the first live device with the major number, or 0 when there is none; in an ordered registry the smallest such id |
| DeviceRegistry.DeviceManager.FindByName | devices.c:233-248 | the id of the first live device with the name, or 0 when there is none; in an ordered registry the smallest such id |
| VirtualMemory.CoversReach | mem.c:140 | the 32-bit bound check covers exactly [vaddr, vaddr + size), or nothing when that end is 2^32 or more |
| VirtualMemory.TranslateInside | mem.c:137-146 | the address k bytes into a mapping lands k bytes after its physical start, modulo 2^32, unless an earlier mapping covers it |
| VirtualMemory.TranslateOutside | mem.c:137-146 | an address outside every mapping translates to 0 |
| VirtualMemory.TranslateStart | mem.c:120-146 | the start of a mapping made where nothing was mapped translates to its physical start |
| VirtualMemory.DisjointIsUncontested | mem.c:140 | virtual ranges are pairwise disjoint if and only if no address is covered by two mappings |
| VirtualMemory.TranslateIsTable | mem.c:137-146 | translation is lookup in the map in which earlier mappings override later ones, and 0 outside it |
| VirtualMemory.OrderIrrelevant | mem.c:120-146 | every creation order translates every address alike if and only if any two mappings cover nothing in common or move addresses by the same distance |
| VirtualMemory.Injective | mem.c:137-146 | if the physical ranges are pairwise disjoint, round the end of the address space if need be, two mapped addresses never share a physical one |
| VirtualMemory.InjectiveExactly | mem.c:137-146 | with pairwise disjoint virtual ranges, no two mapped addresses share a physical one if and only if the physical ranges are pairwise disjoint |
| VirtualMemory.MappingTable.Create | mem.c:120-135 | appends one mapping, or changes nothing when the table is full |
| VirtualMemory.MappingTable.TranslateAddress | mem.c:137-146 | the scanning loop returns the entry of the map, or 0: physical start plus distance, modulo 2^32, of the first mapping that covers the address |
| SwapSpace.ReleaseKeepsPacked | mem.c:218-222 | freeing a live region at any time keeps the other live regions disjoint and below the counter |
| SwapSpace.NestedRestores | mem.c:210-222 | every nested run that gave everything back restores `swap_used` exactly, also when a bound check in it wrapped |
| SwapSpace.Swap.Allocate | mem.c:210-216 | a granted region starts at the old counter; regions stay disjoint and below the counter exactly when the bound check did not wrap; the call is the step of the nested-run theorem |
| SwapSpace.Swap.Free | mem.c:218-222 | live regions may be freed in any order, also after a wrapped request; only a region that ends at the counter moves it, back to its start; an intact state stays intact |
| SwapSpace.WrapHandsOutTwice | mem.c:210-216 | three requests on new swap space after which one region has been handed out twice |

## Left out

- Kmalloc: requires a request of at most 2^32 - 16, the last one that ALIGN_UP rounds up within a word, because kernel.h is not part of this model; legal runs have the same bound.
- Kfree: requires NULL or a live pointer; freeing anything else reads headers that are not there.
- Calloc: stops at the end of the heap when the bound check wraps; the bytes the source writes past the array are not modelled.
- Realloc: stops at the end of the heap in the same way, and requires a pointer that is NULL or a chunk start; the old chunk stays on record because `free` does nothing.
- Strtol: promises no value once the digit loop overflows; overflow reporting, the end pointer without digits and "0x" with an explicit base 16 are as in the code, not as in section 7.22.1.4 of C11.
- RunKeepsOrder: is one way, because its bound is a client's own count of registrations; `OrderedThroughout` is the exact condition.
- Usable payload size of `kmalloc`: the request is not enlarged by the header (kernel.c:345-363), so no size of payload is promised.
- Heap calls before `memory_init` (kernel.c:17): the constructor is `memory_init`.
- Fields that no modelled function reads: process names, directories, open files and statistics; inode times, links and block pointers.
- Process queries (`process_wait`, `process_get_info` and the like, prcs.c:174-183, prcs.c:214-224): plain reads of the table.
- Deleting files, freeing blocks and formatting (filesystem.c:138-156, filesystem.c:246-248, filesystem.c:302-311): they do not conserve counts or numbers.
- The block cache (filesystem.c:275-300): it scatters the bytes of a block over several slots.
- Page allocation and page tables (mem.c:76-102, mem.c:148-176): `heap_offset` never moves, so every allocation returns the same address.
- Device handlers and data pointers (devices.c:91-149, devices.c:174-189): registration does not clear them.
- `strncmp`, `strcpy`, `strcat` and the stubs of the C library (stdlib.c:50-110, stdlib.c:255-312): easy, or not what their names promise.
- Drivers in ipts.c, graphics.c, input.c, ntwrk.c and storage.c, the system-call table, the boot code and the Python tools: counters, constants and input or output.
