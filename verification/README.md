# CobKernel, verified model

CobKernel is a small bare-metal kernel for Arm. This project models the parts of it that are
logic rather than register access, branch by branch as the code has them, and proves what they
guarantee.

- **Page-table heap** (`Util`, `HeapTable`, `HeapBlocks`, `HeapCalls`, `HeapRuns`, `HeapSafety`,
  `HeapAddresses`,
  `HeapExamples`, `Heap`). The class `Heap.MemoryRegion` updates its table in place as `malloc.c` does.
  Each of its methods is proved equal to a function on the table, and those functions are compared
  with the documented behaviour over a map from blocks to page counts, for single calls and for runs
  of any length. Safety of the memory handed out is proved for all runs in which each malloc meets a
  guard, whatever is freed, for the table and for the addresses malloc returns.
- **Hand-off between cores** (`Semaphore`, `SemaphoreInit`, `AllocatorLock`, `WorkQueue`, `Handoff`,
  `QueueCode`, `LockCode`). The semaphore is modelled instruction by instruction with one exclusive
  monitor per core and proved to refine an atomic test-and-set and clear. The work queues and the
  allocator's lock are transition systems in which the cores interleave freely. `QueueCode` runs the
  queue functions on the instructions of the semaphore and proves that nothing but the runs of the
  queue model comes of it, and that every state it can get into can be finished from; `LockCode` proves that the machine can execute every interleaving of
  allocator calls.
- **Parallel prime count** (`Primes`, `PrimeTest`). Partition, trial division and hand-off combine in
  one theorem about every complete interleaving: its only hypothesis about the tasks is the contract
  proved of `Primes.CalculatePrimes`. `QueueCode.PrimeCountOnMachine` states it for the instructions.
- **Text** (`CStrings`, `NumberText`, `NumberReading`, `Format`, `FormatMeaning`, `StringSplit`, `Console`,
  `CommandLines`). Printers, the number parser, the format interpreter, the tokeniser and argument
  marshalling, the round trips between them, what each conversion prints and what every line leads to.
- **Early address map** (`MmuTable`). The table and control register the boot code writes, and the
  walk the processor makes through them.

`Word` has the machine words: natural numbers with `&` and `|` defined bit by bit. `Wrappers` has
the option type.

`dafny verify dfyconfig.toml` checks the whole project.

## Where the code does not do what it says

The model follows the code. For each difference a lemma gives the exact condition under which the
documented behaviour holds, or an input for which it does not.

- `malloc.c:88-89` asks for the first contiguous region of free pages. The search (`malloc.c:109-111`)
  does not reset its count on a used page. It is right exactly when the run of free pages that
  holds the n-th free page has room (`HeapTable.HoleIsFirstFit`), which is always so while the used
  pages are a prefix of the table (`HeapTable.UsedPrefixHasRoom`). After six calls it can grant a
  page that is in use (`HeapExamples.SearchMissesFirstFit`).
- `malloc.c:51` sizes the table by the whole region, so it has more entries than there are usable
  pages (`malloc.c:71`) and a large request can be granted past the end (`HeapExamples.FreshHeapOverruns`,
  `HeapExamples.SmallHeapOverruns`).
- `malloc.c:15` says free releases all pages of a block. Tags are compared after masking twelve bits
  (`malloc.c:201`), but entries are eight bytes apart, so only blocks of one page, and blocks whose
  entry is at a multiple of 4096, are released whole (`HeapBlocks.FreeMeetsIntent`,
  `HeapExamples.FreeLeavesPage`). Pages are lost that way, but never handed out twice
  (`HeapSafety.RunStaysSeparate`).
- `malloc.c:177` lets the end of the region through; it is rejected by the entry it selects, except
  when every entry is a usable page and the word behind the table looks like a block
  (`HeapRuns.AcceptedAddresses`); then free clears a word of the caller's
  memory (`HeapExamples.EndOfRegionIsFreed`).
- `malloc.c:152` and `malloc.c:157` both put the semaphore, so the semaphore protects the table exactly when there
  is one core or no allocation succeeds (`AllocatorLock.ExclusiveIffNoDoublePut`); the machine can
  execute the bad interleavings (`LockCode.TwoHoldersOnMachine`).
- `arm.S:69-70` overwrites the pointer of `arm64_init_semaphore` before it reads the word back, so
  the routine tests address 0 or 1 instead, and may clear address 0 (`SemaphoreInit.InitMeetsIntent`).
- `primes.c` counts 1 and skips 2, which cancel for every bound but 2 (`Primes.CountIsPrimesBelow`),
  and its result is always 0; the count only goes to the log.
- `string.c:42` drops a token that is one character before the end, so a command whose last argument
  is a single digit is rejected (`Console.CommandRoundTrip`).
- `string.c:55` reads a byte before it compares positions, so it reads the one behind the buffer
  exactly when the buffer holds no terminator (`StringSplit.ReadsToLineEnd`).
- `printf.c:69` takes a minus sign anywhere in a number. What strtol then returns, and when that is
  the number one would read, is `NumberText.StrtolSkipsDashes` and `NumberText.StrtolReadsAsUsual`;
  `NumberText.DashAnywhere` is an input for which it is not. It also stops at a space, so a field
  filled with spaces does not read back (`Format.PrintedLongReadsBack`).
- `printf.c:145` compares with `>`, so `a` and `A` are digits of value ten in a field width, and the
  width is an int that wraps around. `Format.WidthIsDecimal` says when a width is the decimal number
  written, `Format.WidthTakesLetter` is an input for which it is not.
- `sysinit.S:141` and `readme.md:86` promise shareable memory; the descriptors (`sysinit.S:155-163`) have no shareability bits
  (`MmuTable.EarlyMapIsFlat`). `sysinit.S:183` leaves bit 5 of T0SZ as it was, and the map is flat
  exactly when that bit is clear.

## Model

| member | source | states |
|---|---|---|
| `Util.IsPow2` | include/util.h:45-53 | accepts exactly zero and the powers of two; the u8 count cannot overflow |
| `Util.AlignDownRounds` | include/util.h:43 | for accepted alignments the mask is the greatest multiple not above the value |
| `Util.AlignUpRounds` | include/util.h:41-42 | the mask form is the least multiple not below the value, and equals ceiling division times the alignment |
| `HeapTable.MacrosMean` | malloc.c:25-28 | the entry macros as arithmetic: in use is odd, the start address clears twelve bits, a first page is odd and below 4096 |
| `HeapTable.TagIsOr` | malloc.c:126 | the or with an aligned address loses nothing |
| `HeapTable.HoleIsFirstFit` | malloc.c:88-116 | the search returns the lowest run of n free pages, or NULL when there is none, if and only if the run holding the n-th free page has room |
| `HeapTable.UsedPrefixHasRoom` | malloc.c:101-113 | the search is right whenever the used pages are a prefix of the table |
| `HeapTable.HoleMeans` | malloc.c:91-116 | on every table the search returns exactly the start of the run of free entries that holds the n-th free one, however long that run is, and NULL exactly when fewer are free or none is asked for |
| `HeapTable.FreedMeans` | malloc.c:198-203 | on every table free clears the first entry and then a word exactly while all words up to it carry the masked address |
| `HeapBlocks.BlocksDisjoint` | malloc.c:6-12 | in a well-formed table no page belongs to two blocks |
| `HeapBlocks.FreeIsVacant` | malloc.c:12 | an entry is in use exactly when its page belongs to a live block |
| `HeapBlocks.EncodesUnique` | malloc.c:6-12 | a table stands for at most one set of blocks |
| `HeapBlocks.MarkedEncodes` | malloc.c:118-129 | marking a hole adds exactly that block and keeps the table well formed |
| `HeapBlocks.MallocMeetsIntent` | malloc.c:88-129 | search and marking take the lowest room in the region, or report that there is none, if and only if the run holding the n-th free page has room below its end |
| `HeapBlocks.TagEndOfBlock` | malloc.c:198-203 | where the release loop stops: after one page when masking destroys the tag, otherwise at the end of the block, and never inside a neighbour |
| `HeapBlocks.FreedLosesPages` | malloc.c:201 | freeing a block of several pages whose entry is not at a multiple of 4096 clears its first entry and no other word |
| `HeapBlocks.FreeMeetsIntent` | malloc.c:198-203 | free releases exactly the pages of the block and touches no other word if and only if its tags survive masking and the word behind the table does not carry the tag |
| `HeapBlocks.FreeUndoesMalloc` | malloc.c:121-203 | freeing a block just allocated restores every word of the table, under exactly that condition |
| `HeapCalls.TablePlaced` | malloc.c:51-57 | one entry for each whole page, and the pages start at the first page boundary behind the table, even when the size checks fail later |
| `HeapCalls.InitLaysOut` | malloc.c:51-72 | after a successful init the table starts the memory given, and is followed by whole pages that end inside it |
| `HeapCalls.InitArithmetic` | malloc.c:45-72 | the first page is the next page boundary behind the table; at most ceil(8e/page) + 1 entries have no page, and exactly ceil(8e/page) when the start is page aligned |
| `HeapCalls.InitAccepts` | malloc.c:45-67 | for all memory below 2^40, init succeeds exactly when the page size is a power of two of at least 4096 and a whole page lies behind the table |
| `HeapRuns.WrappedRequest` | malloc.c:136 | a request whose page count wraps around needs more pages than there are, so refusing it is right |
| `HeapRuns.MallocCall` | malloc.c:131-161 | a malloc call takes the lowest room for the bytes asked if and only if the run holding the n-th free page has room below the end of the region |
| `HeapRuns.MallocMemory` | malloc.c:155 | the address returned is page aligned, its block lies in the region, holds the bytes asked and is not a page too long; NULL exactly when no hole was found |
| `HeapRuns.AcceptedAddresses` | malloc.c:167-196 | free accepts the start of every live block, and besides those only the end of the region when the word behind the table looks like a block: no NULL, interior, foreign or freed address |
| `HeapRuns.FreeCall` | malloc.c:163-207 | a free call releases the block that starts at the address and leaves the table alone for any other address, if and only if the guard holds |
| `HeapRuns.CallKeepsHeap` | malloc.c:131-207 | each call does what is documented exactly when its guard holds, and then keeps the table well formed with all blocks in the region |
| `HeapRuns.StoreKeepsHeap` | malloc.c:51-57 | a store to any word of the pages changes no entry of the table |
| `HeapRuns.RunKeepsHeap` | malloc.c:131-207 | over every run of calls, and of stores by the holders of blocks, all calls do what is documented if and only if each meets its guard, and then the table stands for exactly the blocks the caller holds |
| `HeapSafety.FreedKeepsHolds` | malloc.c:198-203 | a free, leaking or not, touches no other block the caller holds and leaves nothing behind that looks like the start of a block |
| `HeapSafety.CallStaysSeparate` | malloc.c:131-207 | one call leaves the caller with separate blocks inside the region if and only if it is not a malloc whose hole does not fit; frees and stores always do |
| `HeapSafety.RunStaysSeparate` | malloc.c:131-207 | over every run, with any frees and stores, the caller's blocks stay aligned, disjoint and inside the region if and only if every malloc that finds a hole finds one that fits |
| `HeapSafety.RunIsSafe` | malloc.c:31-36 | after init and any run in which each malloc meets its guard the live blocks are page aligned, above the page table, inside the memory given to init and pairwise disjoint; if the frees meet theirs, the table stands for exactly them |
| `HeapAddresses.MallocReturnsStart` | malloc.c:145-155 | malloc returns the start of the block it marks, and NULL exactly when it marks none |
| `HeapAddresses.MallocIsHeld` | malloc.c:131-207 | the address returned is the start of the block now held, selects its entry, and freeing it gives back exactly that block |
| `HeapAddresses.MallocIsFresh` | malloc.c:131-161 | a malloc that finds a hole that fits returns memory that is large enough, not a page too large, and overlaps nothing the caller has got and not freed |
| `HeapAddresses.RunKeepsSame` | malloc.c:131-207 | over every run the addresses returned and not freed are the starts of the blocks held, with their sizes |
| `HeapAddresses.AddressesAreSafe` | malloc.c:31-36 | after init and any run in which each malloc meets its guard, with any frees and stores, the memory at the addresses malloc returned is page aligned, behind the page table, inside the memory given to init and pairwise disjoint |
| `HeapAddresses.FreeUndoesMallocCall` | malloc.c:131-207 | freeing the address malloc has just returned restores every word of the table if and only if the tags survive masking and the word behind the table does not carry the tag |
| `HeapExamples.FreshHeapOverruns` | malloc.c:51 | a fresh heap grants a request for more pages than the region has while there are entries for them, and the block ends behind the region |
| `HeapExamples.SmallHeapOverruns` | malloc.c:43-86 | 32 KiB at 64 KiB: init succeeds with eight entries for seven pages and the whole 32 KiB are granted |
| `HeapExamples.SearchMissesFirstFit` | malloc.c:109-111 | a run on that heap after which two pages are granted of which one is in use, although two others are free |
| `HeapExamples.FreeLeavesPage` | malloc.c:201 | a run on that heap after which a page nobody holds is still in use |
| `HeapExamples.EndOfRegionIsFreed` | malloc.c:177 | a successful init and a run after which freeing the end of the region is accepted and clears a word the caller has stored |
| `Heap.MemoryRegion.InitMemoryRegion` | malloc.c:43-86 | succeeds exactly for a power of two of at least 4096 with room for a page behind the table; then the layout is as computed and only the entries are cleared, and after a failure memory and semaphore are untouched |
| `Heap.MemoryRegion.OpenRegion` | malloc.c:71-84 | usable size, cleared table and free semaphore establish the region invariant |
| `Heap.MemoryRegion.ClearTable` | malloc.c:75-78 | the loop clears the entries and no other word |
| `Heap.MemoryRegion.FindHole` | malloc.c:91-116 | the loop returns the start of the run that holds the n-th free entry, or NULL when fewer are free |
| `Heap.MemoryRegion.MarkPagesUsed` | malloc.c:121-129 | writes one, then the tag, to the entries of the block and nothing else |
| `Heap.MemoryRegion.Malloc` | malloc.c:131-161 | address and table are those of the specification functions, whose meaning `HeapAddresses` and `HeapRuns` prove, and the region stays ready |
| `Heap.MemoryRegion.Free` | malloc.c:163-207 | the table is that of the specification function: cleared from an accepted entry on, unchanged otherwise |
| `Heap.MemoryRegion.ReleaseFrom` | malloc.c:198-203 | the loop clears the first entry and the run of entries that carry its masked tag |
| `Semaphore.StepKeepsInv` | arm.S:32-60 | every instruction of any core keeps: a reservation held after reading zero means the word is still zero, and a core going to wait is reserved on a taken word or has its event register set |
| `Semaphore.RunKeepsInv` | arm.S:32-60 | so does every interleaving, including one in which reservations are lost at random |
| `Semaphore.NoLostWakeUp` | arm.S:34-42 | a core that sleeps in WFE with its event register clear sleeps on a semaphore that is taken at that moment |
| `Semaphore.StepRefines` | arm.S:32-60 | each instruction is one invoke, effect or return of an atomic test-and-set or clear, or nothing |
| `Semaphore.RunRefines` | arm.S:32-60 | every interleaving on any number of cores is a run of the atomic semaphore |
| `Semaphore.RoutineFinishes` | arm.S:32-60 | from wherever a core is inside take or put, also waiting after it found the word taken or going back after a failed store, it returns within twelve instructions of its own if a take still to come finds its word clear; then the take has set the word and made the core a holder, the put has cleared it and set every event register, and nothing else has happened to the words |
| `Semaphore.StepKeepsExclusive` | arm.S:32-60 | when only holders put, a word is clear exactly when nobody holds it and otherwise one core does |
| `Semaphore.RunKeepsExclusive` | arm.S:32-60 | so does every interleaving of such steps |
| `Semaphore.MutualExclusion` | arm.S:32-60 | from free semaphores, in every such interleaving a word is clear exactly when no core is past a take with no put since, and otherwise exactly one core is |
| `SemaphoreInit.InitSemaphore` | arm.S:64-74 | the retry loop with its overwritten pointer: which words it clears, when it returns and when it faults |
| `SemaphoreInit.InitMeetsIntent` | arm.S:62-74 | it clears its word and changes no other exactly when the first store succeeds and address 0 is the semaphore or has a clear low half, or by luck when failed stores go unnoticed |
| `SemaphoreInit.InitClearsAddressZero` | arm.S:69-72 | a call that clears the doubleword at address 0 besides its own |
| `AllocatorLock.StepStaysSafe` | malloc.c:139-157 | on one core, or with frees and failed allocations only, every step keeps: the word is set exactly while one core uses the table |
| `AllocatorLock.ExclusiveIffNoDoublePut` | malloc.c:139-157 | the semaphore protects the table in every interleaving if and only if there is one core or no core has an allocation that succeeds |
| `AllocatorLock.SecondPutFreesOtherCore` | malloc.c:152-157 | otherwise, whichever core allocates and whatever the others do, two cores can be at the table at once |
| `Handoff.TakesWait` | work_queue.c:35-65 | a step of the queues waits exactly while it is to take a word that is set |
| `Handoff.StepCallsRoutine` | work_queue.c:35-65 | a step of the queues takes a word it finds clear, puts one, or leaves all semaphore words alone |
| `Handoff.QueuesUseSemaphores` | work_queue.c:35-65 | every interleaving of core 0 and the workers is a run of the atomic semaphore, its calls one after the other |
| `Handoff.AllocatorUsesSemaphore` | malloc.c:139-205 | so is every interleaving of allocator calls |
| `QueueCode.StepIsAllowed` | arm.S:32-60 | an exclusive store that succeeds in a queue function happens only when the queue model allows that take or put |
| `QueueCode.StepKeepsInv` | arm.S:32-60 | every instruction, access or lost reservation keeps the words equal to those of the queues and every core on its way to the access it is to make |
| `QueueCode.RunStaysInQueues` | work_queue.c:35-65 | in every interleaving of the queue functions over the instructions of the semaphore, what happens to the queues is a run of the queue model with the same final state |
| `QueueCode.SomethingMoves` | work_queue.c:35-65 | as long as the queues have anything to do, some core can make an access or execute an instruction; that it gets somewhere is `QueueCode.CanFinish` |
| `QueueCode.CanFinish` | work_queue.c:35-65 | from every state with the invariant, whichever reservations were lost and wherever the cores are inside the routines, some run without random losses finishes everything |
| `QueueCode.PrimeCountOnMachine` | console.c:88-104 | in every such interleaving the prime test can still be finished from wherever it is; and when core 0 has made its last access all workers are at rest and the counts logged add up to the number of primes below the covered bound, one more if that is 2 |
| `LockCode.RunOnMachine` | malloc.c:139-205 | the machine can execute every interleaving of allocator calls, and its holders are the cores at the page table |
| `LockCode.TwoHoldersOnMachine` | malloc.c:152-157 | whenever a core allocates and there is another, it can execute one in which two cores hold the semaphore |
| `WorkQueue.MainKeepsInv` | work_queue.c:35-55 | each access of core 0 keeps the baton, the history and the entry it is writing |
| `WorkQueue.WorkKeepsInv` | work_queue.c:57-65 | so does each access of a worker |
| `WorkQueue.ExactlyOnceInOrder` | work_queue.c:35-65 | in every interleaving the executed jobs are a prefix of the posted ones, at most one shorter, and exactly one party holds the baton |
| `WorkQueue.NoSignalLostNoRace` | work_queue.c:35-65 | no put finds its semaphore free, and the two sides of a queue are never both about to access its entry |
| `WorkQueue.WaitMeansDone` | work_queue.c:45-55 | when a wait returns every posted job has finished and the result is the value of the last |
| `WorkQueue.DoneMeansIdle` | work_queue.c:45-65 | a program that waits for every queue it has posted to is over on core 0 exactly when all workers are at rest, in every interleaving |
| `WorkQueue.StepCosts` | work_queue.c:35-65 | every step uses up exactly one of a finite number of steps |
| `WorkQueue.SomeStepEnabled` | work_queue.c:35-65 | no reachable state is stuck before everything is done |
| `WorkQueue.RunsTerminate` | work_queue.c:35-65 | every interleaving of n steps leaves exactly n fewer, and stops only when all work is done |
| `WorkQueue.EveryJobSeesItsParameters` | work_queue.c:35-65 | when core 0 rewrites parameters only after waiting, each worker has executed exactly the jobs posted to it on the words their parameters held when posted |
| `WorkQueue.NoParameterRace` | console.c:93-104 | then core 0 never writes a word a worker may still read |
| `Primes.TrialDivision` | primes.c:19-27 | up to the rough square root no divisor is missed and none is invented |
| `Primes.CalculatePrimes` | primes.c:9-35 | counts 1 and the odd primes of the range and returns 0 |
| `Primes.CountRangeSplits` | primes.c:13-32 | counts of adjacent ranges add up |
| `Primes.CountIsPrimesBelow` | primes.c:13-32 | the count from 0 is the number of primes below every bound but 2, where it is one more |
| `PrimeTest.PrimeMulticoreTest` | console.c:73-108 | the accesses core 0 makes are the rounds of the partition, computed without wrap-around |
| `PrimeTest.Rounds` | console.c:93-104 | the outer loop appends one round of posts and waits after the other |
| `PrimeTest.ProgramIsStable` | console.c:93-104 | a parameter slot is rewritten only after its queue has been waited for |
| `PrimeTest.QueuesAddUp` | console.c:94-99 | the ranges sent to the queues are together the ranges posted |
| `PrimeTest.ProgramCovers` | console.c:93-104 | the posted ranges cover everything from 0 to the covered bound once |
| `PrimeTest.CoveredIsRoundedUp` | console.c:88-93 | the covered bound is the first multiple of a round's work at or above the truncated request |
| `PrimeTest.ProgramValuesFit` | console.c:93-98 | no parameter word wraps around when the last round ends below 2^64, however large the work size |
| `PrimeTest.QueueRanges` | console.c:93-98 | in each round each queue is sent one range of the size asked for, the queues one behind the other |
| `PrimeTest.CommandWaitsForWorkers` | console.c:100-104 | the command is over on core 0 exactly when all the work is done |
| `PrimeTest.WorkersRunRanges` | console.c:93-104 | in every complete interleaving each worker has called calculate_primes on exactly the ranges sent to it, all of them ranges of u64 numbers, one for each round if it takes part |
| `PrimeTest.PrimeCountIsCorrect` | console.c:88-104 | every interleaving can be completed and ends after the same number of steps; if the task does what is proved of calculate_primes for u64 ranges, the counts logged then add up to the number of primes below the covered bound, one more if that is 2, and the result of every queue that was used is 0 |
| `NumberText.DigitsValue` | printf.c:36-53 | the digits written denote the number, are below the base and have no leading zero |
| `NumberText.FindScale` | printf.c:38-41 | the scale is the power of the base that the leading digit of the notation counts for, and does not wrap around |
| `NumberText.WriteDigits` | printf.c:42-51 | the loop writes exactly the digits, most significant first |
| `NumberText.UnsignedToText` | printf.c:36-53 | uli2a and ui2a write the notation and a terminator and change nothing else in the buffer |
| `NumberText.SignedToText` | printf.c:55-62 | li2a and i2a write the signed notation and a terminator for every number, the most negative one included; what the notation says is `NumberReading.SignedReadsAsUsual` |
| `NumberText.LongsFitBuffer` | printf.c:36-62 | at most 21 bytes with the terminator |
| `NumberText.IntsFitBuffer` | printf.c:98-126 | at most 12 bytes, and the most negative int takes all 12 |
| `NumberText.Strtol` | printf.c:64-95 | the loop computes the value of the specification function and stops at the first character that is no digit |
| `NumberText.ParseText` | printf.c:67-90 | reading printed digits continues the value as positional notation, modulo 2^64 |
| `NumberText.HexRoundTrip` | printf.c:36-95 | reading base 16 undoes printing in either letter case, up to the sign of the word |
| `NumberText.DecimalRoundTrip` | printf.c:55-95 | reading base 10 undoes printing for every long |
| `NumberText.StrtolSkipsDashes` | printf.c:64-95 | for every text the result is the number written by the digits of its longest prefix of digits and minus signs, negated if there is a sign anywhere in it, modulo 2^64 |
| `NumberText.StrtolReadsAsUsual` | printf.c:64-95 | for digits below 2^63 that is the usual reading, a sign in front or none and then the digits, if and only if no sign follows the number, or there was one in front and no digit follows the other, or all digits are zeros |
| `NumberText.DashAnywhere` | printf.c:69-71 | a number negated by a minus sign inside it |
| `NumberReading.DigitCharIs` | printf.c:48 | the character written for a digit is the one of the lower or upper case alphabet as asked |
| `NumberReading.DigitOfIs` | printf.c:74-86 | for bases up to 36 a character counts as the digit v exactly when it stands for v in either alphabet and v is below the base, or below ten |
| `NumberReading.PrintedDigits` | printf.c:36-53 | base 10 prints decimal digits only and base 16 letters of one case only, without a leading zero |
| `NumberReading.SignedReadsAsUsual` | printf.c:55-62 | a reader who takes one minus sign in front and then digits reads every printed number, whatever follows that is no digit |
| `NumberReading.SignedShape` | printf.c:55-62 | the minus sign is there exactly for negative numbers and in front, and everything else is a decimal digit |
| `NumberReading.StrtolInBase` | printf.c:64-95 | in every base but 10 strtol returns the number written by the digits the text starts with, modulo 2^64 |
| `Format.A2i` | printf.c:139-152 | reads the longest prefix of width characters and leaves the pointer behind the first other one |
| `Format.WidthIsDecimal` | printf.c:139-152 | a width is the decimal number it begins with, and ends where that ends, if and only if no `a` or `A` follows and the number is below 2^31 |
| `Format.WidthTakesLetter` | printf.c:145 | a width of twenty written `1a` |
| `Format.Putchw` | printf.c:154-165 | prints the string right-justified in its field |
| `Format.PadFills` | printf.c:154-165 | a field is as wide as the larger of width and text, ends with the text and is filled in front |
| `Format.ReadDirective` | printf.c:177-198 | flags, width and length as in the grammar of directives; a terminator inside is noticed |
| `Format.Convert` | printf.c:196-233 | each conversion prints the specified text, through a buffer that is large enough; what the text says is in `FormatMeaning` |
| `Format.Directive` | printf.c:177-238 | one directive prints what it means, takes at most one argument and leaves the position behind it |
| `Format.NextPiece` | printf.c:173-240 | one round of the loop prints one piece of the format and keeps what is still owed, or ends with everything printed |
| `Format.TfpFormat` | printf.c:167-244 | for every format and fitting arguments it terminates, reads exactly the characters up to the terminator, each once and in order, and prints what the recursive renderer says |
| `Format.SpecExtends` | printf.c:182-196 | a complete directive is read the same whatever follows it |
| `Format.RenderComposes` | printf.c:167-244 | a format that ends on a directive boundary, followed by another, prints the two texts one after the other |
| `Format.CutDirective` | printf.c:196-197 | a format cut inside a directive, for which that fails |
| `Format.PrintedLongReadsBack` | printf.c:64-218 | a formatted long is read back by strtol exactly when the field needs no fill, is filled with zeros, or the number is zero |
| `FormatMeaning.FieldMeans` | printf.c:154-233 | every conversion but `c` prints its text at the right end of a field of the width, filled with zeros if the flag is there, and with spaces whatever the flag for strings |
| `FormatMeaning.UnsignedMeans` | printf.c:199-208 | `u` prints decimal digits without leading zeros that read as the argument, all of a long and otherwise modulo 2^32 |
| `FormatMeaning.HexMeans` | printf.c:219-227 | `x` and `X` print hexadecimal digits of their own letter case without leading zeros, from which strtol in base 16 gives back the argument, all of a long and otherwise modulo 2^32 |
| `FormatMeaning.SignedMeans` | printf.c:209-218 | `d` prints a minus sign in front exactly for negative numbers, and digits that read as the number in the signed range that is congruent to the argument modulo 2^64 or 2^32 |
| `FormatMeaning.CharMeans` | printf.c:228-230 | `c` prints one character whatever the width, the one with the low eight bits as its code |
| `FormatMeaning.StringMeans` | printf.c:231-233 | `s` prints the string |
| `FormatMeaning.SpecReadsBack` | printf.c:177-196 | a directive written with flag, width below 2^31, length and conversion is read as just that, whatever follows |
| `FormatMeaning.DirectiveRenders` | printf.c:167-244 | such a directive in a format prints what it means, takes its argument if it has one, prints nothing if the conversion is unknown, and the rest of the format is printed with the arguments left |
| `FormatMeaning.PlainRenders` | printf.c:173-175 | text without a percent sign prints itself |
| `FormatMeaning.CutRenders` | printf.c:196-198 | a format that ends before the conversion prints nothing for that directive |
| `StringSplit.SplitStr` | string.c:51-62 | replaces the tokens of the line by terminators, changes nothing else and returns the end of the line |
| `StringSplit.ReadsToLineEnd` | string.c:55 | the loop reads every byte up to the end of the line and no other, so it reads the byte behind the buffer exactly when there is no terminator |
| `StringSplit.SplitGetNext` | string.c:29-49 | returns the next string start that is before the last byte, or NULL |
| `StringSplit.WalkFindsAll` | string.c:29-49 | repeated calls yield every string start behind the first position and before the last byte, once and in increasing order |
| `StringSplit.WalkFindsRuns` | string.c:29-62 | in terms of the line as typed: exactly the runs without the separator that follow one and begin before the last character |
| `Console.Strcmp` | console.c:40-49 | the difference of the codes at the first position where the strings differ; zero exactly for equal strings |
| `Console.StoreBytes` | console.c:343-348 | a store writes the little-endian bytes of the value and no others |
| `Console.ByteAt` | console.c:343-348 | byte i of a stored value is the one that counts 256^i |
| `Console.ExecuteCommand` | console.c:320-363 | the handler is called with the packed arguments exactly when every argument is there and numeric |
| `Console.ExecuteLine` | console.c:365-388 | the buffer is split and the outcome is the specified one, whose meaning for every line is `CommandLines.LineMeans` |
| `Console.LineSplits` | console.c:375 | splitting a typed line leaves the name and arguments, each ended by a terminator |
| `Console.MarshalFinds` | console.c:331-360 | marshalling finds exactly the arguments that follow, unless the last is a single character |
| `Console.UnpackReadsBack` | console.c:339-359 | packed reads in the order of the types return the arguments, ints modulo 2^32 |
| `Console.CommandRoundTrip` | console.c:320-388 | a registered command typed with printed integer arguments has its handler read exactly those, or, when the last argument is a single digit, is refused for a missing argument |
| `CommandLines.ArgumentsAreStarts` | console.c:331-332 | the strings found in the split line are exactly the runs of the typed line that follow a space and begin before its last character, in order |
| `CommandLines.MarshalOutcome` | console.c:320-360 | marshalling fails at the first argument that is missing or type that is not int, long or pointer, whichever comes first, and otherwise packs the values in order |
| `CommandLines.LineMeans` | console.c:365-388 | for every line: nothing happens exactly when it is empty; it is an invalid command exactly when no command has the text before the first space as its name; otherwise the first command with that name, and no other, is called with the values of its arguments when there are enough and all types are numeric, refused for a missing argument when there are too few and the types of those there are numeric, and refused for a type otherwise |
| `MmuTable.SetupEarlyMmuTables` | sysinit.S:151-169 | the loop stores 2048 block descriptors, the first two with the cacheable attribute |
| `MmuTable.TcrFields` | sysinit.S:182-188 | granule 64 KiB and 40-bit addresses always; T0SZ is 24 if bit 5 was clear and 56 if not |
| `MmuTable.TcrKeepsRest` | sysinit.S:182-188 | all other bits of the register are kept |
| `MmuTable.DescriptorRest` | sysinit.S:155-164 | all other fields of a descriptor are zero, the access permissions among them, and its address is below 2^40 |
| `MmuTable.WalkIsFlat` | sysinit.S:121-169 | every address below 2^40 maps to itself, accessible, cacheable exactly in the first GiB and never shareable; addresses above fault |
| `MmuTable.EarlyMapIsFlat` | sysinit.S:151-188 | the map is flat if and only if bit 5 of the control register was clear before |

## Left out

- Heap.MemoryRegion.InitMemoryRegion: the memory starts at an 8-byte boundary, since the code accesses it through pointers to u64, and ends below 2^40, the range of the flat map; other regions are not modelled.
- HeapSafety.RunIsSafe: the memory starts at or above 4096, since a tag for a table below that address could not be told from a first entry.
- The release loop of free is followed to the end of the memory given to init; what lies behind it is not modelled.
- Heap.MemoryRegion.Malloc: describes a call that has the semaphore to itself; several cores are the subject of `AllocatorLock`.
- Heap.MemoryRegion.OpenRegion: takes from `arm64_init_semaphore` only that it clears its word; `SemaphoreInit` has the rest. The same holds for the queue entries.
- The NULL check on the region in free, `init_kheap`, and all logging.
- WorkQueue.MainKeepsInv: the queue's functions are steps of a transition system on values, not methods on a shared object, because the point is how they interleave. The entry is taken as created; memory for it and its deletion are left out.
- Weak memory: steps interleave sequentially consistently, and the barriers are no-ops. Cache and shareability effects are left out.
- QueueCode.CanFinish: some continuation finishes, and every run of accesses ends (`WorkQueue.RunsTerminate`); that every fair schedule of instructions does is not proved. Under contention, and when reservations keep getting lost, the code does not promise it.
- Primes.CalculatePrimes: the floating-point square root is a function argument with the contract that it is the integer square root or one more.
- PrimeTest.PrimeMulticoreTest: one to three cores, a positive work size and a last round that ends below 2^64; the command checks none of these, and six parameter words serve three queues.
- Format.TfpFormat: the arguments must be there and of the kind the format asks for; fetching them otherwise is undefined in C. The sinks, the console lock and `tfp_sprintf` are left out.
- Console.ExecuteLine: needs a terminator within the 256 bytes. The parameter buffer is given instead of allocated, so the missing frees of `console.c:335`, `console.c:352` and `console.c:356` are not seen. The linker section of commands is a sequence.
- MmuTable.WalkIsFlat: walks that do not start at level 2 with 64 KiB granules count as faults.
- `memcpy`, `strlen`, the line editor, the other console commands, UART, LED, watchdog, PCIe, temperature, PSCI, timers, exception vectors and the rest of the boot path: register access or one-line arithmetic.
