# ISA-OS kernel: models and proofs

ISA-OS is a small C kernel for industrial automation. This project models the parts of it that carry algorithms over
mutable state and proves what they keep over whole runs. Each subsystem has a value model (its state, what every call
does to it, and theorems over all runs) and a class that updates the same tables in place, loop by loop, and is proved
against the value model. C integers are ranges of the unbounded integers, with every wrap-around written out.

| subsystem | value model and theorems | in place |
|---|---|---|
| heap allocator, `kernel/core/memory.c` | `Blocks`, `HeapRuns`, `HeapGrants`, `HeapMemory`, `HeapTraces` | `KernelHeap`: one byte array holds payloads and headers |
| priority scheduler, `kernel/core/agent.c` | `Agents`, `AgentSharing`, `AgentDuel`, `AgentLives` | `AgentSystem` |
| module loader, `kernel/core/module.c` | `Loading`, `Autoloading` | `ModuleRegistry`: a linked list of descriptors |
| audit trail and CRC-64, `kernel/core/audit.c` | `AuditCrc`, `RingLog`, `AuditTrail`, `AuditRuns`, `AuditClearing` | `AuditLog` |
| round robin and mailboxes, `kernel/core/kernel.c` | `Tasks`, `TaskSharing`, `TaskLives`, `IdleLoop` | `KernelCore` |
| Modbus RTU, `kernel/drivers/modbus.c` | `ModbusFrames` | `ModbusDriver`: a serial line of bytes |
| watchdogs, `kernel/core/watchdog.c` | `Watchdogs`, `WatchdogLives` | `WatchdogTimer` |
| files and descriptors, `kernel/core/isaf.c` | `FileTable`, `FileLives` | `IsaFs` |
| decimal numbers and command line, `kernel/core/watchdog.c`, `kernel/services/shell.c` | `Decimal`, `Shell` | `ShellConsole` |

Shared by several of them: `Words` (machine words), `Bits` and `ShiftRegister` (exclusive or on numbers, and shift
registers with an arbitrary polynomial, used for both checksums), `Polynomials` (division with remainder, which is what
such a register computes), `Wheel` (fair turn-taking, used for `AgentSharing`, `AgentDuel` and `TaskSharing`),
`SkipWheel` and `SkipShares` (turn-taking that moves on at every tick, used for `IdleLoop`), `Cyclic`, `AgentTypes`,
`CStrings`.

`dafny verify dfyconfig.toml` checks everything.

## Where the code keeps less than it says

The model follows the code. Where that falls short of the documentation or of what a caller would expect, a lemma says
exactly when the expectation is met.

- A granted block is large enough exactly when the size does not wrap on being rounded up (`CapacityIff`,
  `CapacityExample`), and for `kcalloc` exactly when the product does not wrap either (`CallocCapacityIff`,
  `CallocExample`); the same holds for a block that `krealloc` moves (`ReallocDelivers`).
- The priority scheduler never compares with the running agent, which gives way to a lower priority
  (`HighestPriorityIff`, `LowerPriorityTakesOver`); it lets a stopped or terminated current agent run on when nobody else
  can (`StoppedCurrentRunsIff`, `TerminatedAgentRunsAgain`); priority 0 is never dispatched (`PriorityZeroNeverRuns`).
  Under a single agent of the highest priority, it and the first of the second highest alternate for good, and all others
  starve, also those of that second priority (`TwoShares`, `OthersStarve`).
- Autoloading stops after ten passes, which is not enough for every dependency chain (`AutoloadExact`, `ChainReaches`).
- The CRC-64 of the audit trail finds every change inside 63 adjacent bits and misses exactly one pattern of eight bytes
  (`AuditCrc.BurstShows`, `EightBytesMissedIff`, `EightBytesMissedExample`). No code in the repository calls
  `audit_init`, and before that call the checksum is a constant (`TableCrcIs`): every index of the kernel's trail verifies
  (`TrailTells`, `TrailVerifies`), but an altered record does too, exactly if its checksum field is left alone
  (`UnreadyPassesIff`, `TrailTampering`). A later `audit_init` clears time and strings without computing the checksums
  again: with everything else the same, of all levels and agents at most one leaves a record that verifies, and in every
  state a write that fails exists (`LateInitFails`, `LateInitExample`). The polynomial is used with its top bit clear, so
  the constant term of the divisor is 0 (`CrcIsRemainder`): this is not the CRC of the ECMA-182 standard, and nothing is
  claimed about that one.
- In the kernel's own round robin the shares follow the priorities if only the timer schedules (`WeightedShares`,
  `BootShares`). The loop at the end of `kmain` schedules once more after each interrupt: a turn then lasts one
  interrupt, and the agent behind one whose slice runs out is skipped (`TurnsLaw`, `SlicesLaw`). So its shares follow the
  slices in the long run exactly when these are all equal (`IdleLoop.ProportionalIff`). ARCHITECTURE.md:81 promises more
  time for higher priorities; at boot the agent of the highest priority gets the least (`HighestPriorityFallsBehind`).
- A mailbox never gets room again: from the 17th message on only the log grows (`ReachesMailboxIff`,
  `SeventeenthIsLost`).
- The statistic of active watchdogs counts them exactly as long as none has expired and none was enabled twice, up to
  multiples of 2^32 (`ActiveCountIff`, `ActiveDriftExample`).
- A read or write of a file is exact when the end position fits 32 bits and not otherwise (`ReadExactIff`,
  `WriteExtendsIff`, `OverflowExample`); a created file may be hidden by an earlier name that its path begins
  (`CreatedIsOpenedIff`, `HiddenFileExample`).
- The Modbus error value 0xFFFF is also a register value (`ErrorValueIff`, `ErrorValueExample`), and the driver never
  looks at the first three bytes of a reply (`AcceptedIsFrame`, `ExpectedIff`, `ForeignReplyExample`).

## Model

| member | source | states |
|---|---|---|
| Blocks.FirstFit | kernel/core/memory.c:59-63 | first fit: the first free block large enough, and none before it fits |
| Blocks.LiveBlocksDisjoint | kernel/core/memory.c:65-79 | every block ends inside the heap, and no two blocks, headers included, share a byte |
| Blocks.CoalesceCorrect | kernel/core/memory.c:98-107 | the merging pass keeps the tiling and exactly the allocated blocks, and leaves no two free neighbours |
| Blocks.Canonical | kernel/core/memory.c:98-107 | a merged heap is determined by its set of allocated blocks alone |
| HeapRuns.MallocCorrect | kernel/core/memory.c:53-86 | success adds exactly one allocated block of at least the rounded and at most 27 bytes more than the rounded size, at the address returned; failure changes nothing |
| HeapRuns.FreeCorrect | kernel/core/memory.c:91-108 | `kfree` removes exactly its block from the allocated ones; the heap stays tiled and merged |
| HeapRuns.MallocKeepsLive | kernel/core/memory.c:53-86 | a new block is never one in use, and every block in use keeps its place and size |
| HeapRuns.OthersStay | kernel/core/memory.c:91-108 | releasing one block leaves every other allocated block reachable through its pointer, unchanged |
| HeapRuns.RunKeepsWf | kernel/core/memory.c:30-156 | over every run of the four calls the headers tile the heap exactly and no two free blocks are neighbours |
| HeapRuns.HistoryForgotten | kernel/core/memory.c:53-156 | two histories from initialisation that leave the same blocks allocated leave the same list of headers |
| HeapRuns.FreeUndoesMalloc | kernel/core/memory.c:53-108 | freeing what `kmalloc` just returned restores the list of headers exactly |
| HeapRuns.FreeAllRestores | kernel/core/memory.c:91-108 | freeing all allocated blocks in any order is legal and restores the initial one-block heap |
| HeapRuns.MallocFailsIff | kernel/core/memory.c:59-85 | NULL for a non-zero size if and only if no contiguous run of unallocated bytes holds a header and the rounded size |
| HeapRuns.CapacityIff | kernel/core/memory.c:56-57 | the granted block holds the requested bytes if and only if rounding up does not wrap |
| HeapRuns.CallocCapacityIff | kernel/core/memory.c:113-115 | the block granted by `kcalloc` holds num * size bytes if and only if neither the product nor its rounding wraps |
| HeapRuns.CapacityExample | kernel/core/memory.c:56-57 | the failing case in numbers: a request of 2^32 - 1 bytes is granted with an empty block |
| HeapRuns.CallocExample | kernel/core/memory.c:113-115 | the failing case in numbers: 0x8000_0001 times 2 bytes are granted with a block of 16 |
| HeapRuns.CopyOverrunExample | kernel/core/memory.c:143-152 | a reachable heap in which resizing a block of 16 bytes to 2^32 - 1 would copy it into a block of none |
| HeapRuns.LoopsStay | kernel/core/memory.c:118-121 | for sizes that do not wrap when rounded up, the zeroing and the copying loop stay inside the new block |
| HeapGrants.RoundIs | kernel/core/memory.c:57-57 | the next multiple of 16; 0 for sizes above 2^32 - 16 |
| HeapGrants.GrantIsLowest | kernel/core/memory.c:53-86 | a new block stands at the lowest address from which header and rounded size fit into unallocated bytes; NULL if and only if the size is 0 or there is none |
| HeapGrants.InitialCapacity | kernel/core/memory.c:30-49 | after initialisation exactly the sizes from 1 to 1048560 are granted, and those that wrap to 0 |
| HeapGrants.RunKeepsUseful | kernel/core/memory.c:65-76 | over every run of requests that do not wrap, splitting leaves no block of less than 16 bytes |
| HeapGrants.ReallocDelivers | kernel/core/memory.c:130-156 | the old block is kept if and only if it has the size asked for; otherwise NULL and no change, if and only if no stretch is free for header and rounded size; otherwise another block in its place, of the size asked for if and only if rounding does not wrap; no other block is touched |
| HeapGrants.ReallocAtTheEnds | kernel/core/memory.c:131-135 | without a pointer it allocates; without a size it releases and returns NULL |
| HeapRuns.RunAccounting | kernel/core/memory.c:77-96 | over every run: payloads and headers add up to the heap; live + freed - allocated is the slack of unsplit blocks, at most 27 bytes a grant |
| HeapRuns.FreeSizeOfTiling | kernel/core/memory.c:165-173 | free bytes, allocated bytes and headers make up the heap |
| HeapMemory.ChainAfterCarve | kernel/core/memory.c:65-76 | writing the one or two headers of a grant gives the in-band list of the new blocks and changes no live payload |
| HeapMemory.ChainAfterMerge | kernel/core/memory.c:102-103 | writing the merged header gives the in-band list of the merged blocks |
| HeapMemory.ChainAfterPayloadWrite | kernel/core/memory.c:118-121 | a write inside one payload leaves every header and every other payload intact |
| HeapMemory.ChainAfterCopy | kernel/core/memory.c:148-152 | the copy leaves headers and other payloads intact, and the new payload begins with the old one |
| HeapMemory.PassMerges | kernel/core/memory.c:101-103 | a merging iteration keeps the invariant of the pass: what is left to merge leads to the same final list |
| KernelHeap.Heap.MemoryInit | kernel/core/memory.c:30-44 | the state is the one-block heap, with its header in the array |
| KernelHeap.Heap.Kmalloc | kernel/core/memory.c:53-86 | over the byte array: new blocks, statistics and pointer are those of the state machine, headers stay in band, and no byte of a live payload changes |
| KernelHeap.Heap.SplitAndTake | kernel/core/memory.c:65-76 | the header writes stay inside the block taken and leave the headers of the carved blocks |
| KernelHeap.Heap.Kfree | kernel/core/memory.c:91-108 | over the byte array: the state machine of releasing; no payload byte of any block changes, only headers |
| KernelHeap.Heap.MergeFreeBlocks | kernel/core/memory.c:98-107 | the loop ends and leaves the merged list in band, changing no payload |
| KernelHeap.Heap.MergeHeaders | kernel/core/memory.c:102-103 | the merged header, written over the first one only |
| KernelHeap.Heap.Kcalloc | kernel/core/memory.c:113-125 | as `kmalloc` for the 32-bit product, and all these bytes are 0; demanded only that the zeroing loop stays inside the block granted, if one is |
| KernelHeap.Heap.CopyBytes | kernel/core/memory.c:148-152 | the loop, whose bound is re-read from the header, copies exactly the old size |
| KernelHeap.Heap.Krealloc | kernel/core/memory.c:130-156 | all five outcomes; the contents move along, no other payload changes, and on failure the old block stays untouched; demanded only that the copying loop stays inside the new block, if one is granted |
| KernelHeap.MoveKeeps | kernel/core/memory.c:143-155 | allocating, copying and releasing together: the result begins with the old contents and every other live payload is intact |
| KernelHeap.Heap.KmemStats | kernel/core/memory.c:161-174 | the two wrapped totals and the exact free bytes |
| HeapTraces.UntouchedBlockKeepsBytes | kernel/core/memory.c:53-156 | over every run of calls, and of writes by callers into their own blocks, a block that is not freed, resized or written stays allocated and keeps every byte |
| HeapTraces.Perform | kernel/core/memory.c:53-156 | every call over the byte array is one step of such a run |
| HeapTraces.WriteByte | kernel/core/memory.c:79-79 | so is the write of a byte into an allocated block |
| Agents.ChoiceIs | kernel/core/agent.c:256-270 | the loop finds the first, in cyclic order, of the READY agents of the highest positive priority, or stays with the current one |
| Agents.FirstHighestUnique | kernel/core/agent.c:264-266 | that agent is unique |
| Agents.DispatchRule | kernel/core/agent.c:250-294 | after scheduling the current agent is RUNNING and is that choice; the one switched away from is READY if it was RUNNING; nothing else changes |
| Agents.RunKeepsOnlyCurrentRuns | kernel/core/agent.c:196-314 | over every run at most the current agent is RUNNING |
| Agents.TerminatedNeverRuns | kernel/core/agent.c:196-314 | over every run a TERMINATED agent that is not current stays TERMINATED and never becomes current |
| Agents.PriorityZeroNeverRuns | kernel/core/agent.c:256-266 | an agent of priority 0 that is not current is never dispatched |
| Agents.LowPriorityWaits | kernel/core/agent.c:250-314 | while two agents above priority p can run, no agent at or below p is newly dispatched |
| Agents.StoppedCurrentRunsIff | kernel/core/agent.c:290-293 | a BLOCKED, TERMINATED or IDLE current agent is set RUNNING again if and only if no READY agent has a positive priority |
| Agents.HighestPriorityIff | kernel/core/agent.c:259-294 | the highest priority runs if and only if the running agent does not outrank every READY one: the loop never looks at its priority |
| Agents.LowerPriorityTakesOver | kernel/core/agent.c:259-294 | a reachable state that shows it: priority 10 runs, and the next call switches to priority 5 |
| Agents.TerminatedAgentRunsAgain | kernel/core/agent.c:290-293 | a reachable state in which a terminated agent is set RUNNING again |
| AgentSharing.NextPeerIsChosen | kernel/core/agent.c:260-270 | among agents that share the top priority the choice is the next one in cyclic id order |
| AgentSharing.TickTurnsWheel | kernel/core/agent.c:299-314 | each tick moves a fair wheel by one position |
| AgentSharing.EqualShares | kernel/core/agent.c:299-314 | in every window of slice * k ticks, wherever it begins, each of k agents sharing the top priority is current for exactly one slice and nobody else is; the waiting ones hold full quanta |
| AgentSharing.CyclicOrder | kernel/core/agent.c:299-314 | an agent keeps its turn for the whole slice, then the next one in cyclic id order has it with a full slice |
| AgentSharing.TurnLengthIff | kernel/core/agent.c:132-132 | the turn lasts 10 * priority ticks if and only if that product fits 32 bits |
| AgentDuel.AheadChoice | kernel/core/agent.c:256-270 | behind a single agent a of the highest priority, with b the first highest of the others seen from a: from a the scheduler goes to b, from anywhere else to a |
| AgentDuel.TickTurnsWheel | kernel/core/agent.c:299-314 | each tick moves a wheel of these two |
| AgentDuel.TwoShares | kernel/core/agent.c:299-314 | in every window of both slices together, wherever it begins, a and b are current for exactly their own slices and nobody else is |
| AgentDuel.ThirdHandsOver | kernel/core/agent.c:299-314 | a third agent that is running keeps only the rest of its turn, after which a has it |
| AgentDuel.OthersStarve | kernel/core/agent.c:299-314 | everyone else, the runnable peers of b included, is never current, for every number of ticks |
| AgentDuel.SecondExists | kernel/core/agent.c:256-270 | such a pair exists whenever one agent outranks all other runnable ones and one of those has a positive priority |
| AgentLives.EveryTurnEnds | kernel/core/agent.c:299-314 | from every state, whatever the current agent's is: ticks take one from its quantum and change nothing else, until the one that uses it up or finds it empty; that gives it a full quantum, dispatches the first highest candidate, if any, and sets the agent dispatched RUNNING |
| AgentLives.RunKeepsSpecs | kernel/core/agent.c:121-167 | over every run the table lists the agents created, in order, up to 256, with their levels and priorities |
| AgentLives.CreatedAgentsShare | kernel/core/agent.c:121-314 | from creation on: after as many ticks as the slice of the first agent lasts, the agents of the highest priority share the time, if there are two of them |
| AgentLives.CreatedAgentsAlternate | kernel/core/agent.c:121-314 | and if only one has it, that one and the first highest behind it |
| AgentLives.BlockedWaits | kernel/core/agent.c:214-314 | a BLOCKED agent that is not current stays so, and is never dispatched before it is resumed |
| AgentLives.SuspendedWaits | kernel/core/agent.c:214-241 | a waiting agent that is suspended is not dispatched, whatever the run, until it is resumed, and then is as it was |
| AgentLives.SuspendedStops | kernel/core/agent.c:214-294 | a running agent that is suspended loses the processor with the next call of the scheduler if and only if somebody can take it |
| AgentLives.WhomItConcerns | kernel/core/agent.c:196-241 | suspending, resuming and terminating change runnable, blocked and not yet terminated agents only, and no other agent |
| AgentSystem.System.constructor | kernel/core/agent.c:19-22 | the static table before any call: no agents |
| AgentSystem.System.Init | kernel/core/agent.c:109-116 | the whole table is cleared |
| AgentSystem.System.AgentCreate | kernel/core/agent.c:121-167 | the next slot, READY with a full slice, or the error code and no change |
| AgentSystem.System.AgentTerminate | kernel/core/agent.c:196-209 | error code for a missing id, otherwise only that agent becomes TERMINATED |
| AgentSystem.System.AgentSuspend | kernel/core/agent.c:214-225 | only READY and RUNNING agents become BLOCKED |
| AgentSystem.System.AgentResume | kernel/core/agent.c:230-241 | only BLOCKED agents become READY |
| AgentSystem.System.SelectAgent | kernel/core/agent.c:256-270 | the loop computes the choice of the dispatch rule |
| AgentSystem.System.AgentSchedule | kernel/core/agent.c:250-294 | the new table is the one of the dispatch rule |
| AgentSystem.System.AgentTimerTick | kernel/core/agent.c:299-314 | quantum accounting, and scheduling when it is used up |
| Loading.RunKeepsOrder | kernel/core/module.c:105-161 | over every run of loads and autoloads the start order is a topological order of the dependencies, and started = running |
| Loading.RunningIsClosed | kernel/core/module.c:82-161 | what a running module reaches along dependencies runs, initialises, exists, and is not the module itself |
| Loading.LoadCode | kernel/core/module.c:105-161 | the code is 0 if and only if afterwards the module of that name exists and runs; -1 without such a module and -2 with a dependency missing or not running, nothing changed; otherwise the result of the initialisation, with the module started or in the state ERROR |
| Loading.UnloadCode | kernel/core/module.c:166-190 | the code is 0 if and only if the module was running, which is then UNLOADED; otherwise -1 and no change |
| Loading.LoadUndoesUnload | kernel/core/module.c:105-190 | loading what has just been unloaded restores it, if it initialises and has all it depends on |
| Loading.UnloadKeepsClosedIff | kernel/core/module.c:166-190 | unloading keeps the running set closed if and only if no other running module depends on the target |
| Autoloading.AutoloadReaches | kernel/core/module.c:211-235 | the running modules are those startable within ten passes, read off the registry alone |
| Autoloading.AutoloadExact | kernel/core/module.c:211-235 | a module runs if and only if every dependency walk from it is sound and fewer than ten of its steps go to a module at or behind the one that needs it |
| Autoloading.AutoloadDepthTen | kernel/core/module.c:217-219 | every module of depth at most ten with a sound closure runs, in any registry order |
| Autoloading.AutoloadLeastFixedPoint | kernel/core/module.c:219-235 | the running modules are in every set closed under loading, and if autoloading stops for lack of progress they are themselves such a set: the least fixed point |
| Autoloading.SuccessesCount | kernel/core/module.c:219-235 | the load count of a pass is the number of modules it started, and progress means that there were any |
| Autoloading.ChainReaches | kernel/core/module.c:217-219 | ten passes are not always enough: in a chain of n sound modules exactly the last ten start |
| ModuleRegistry.Registry.Register | kernel/core/module.c:60-72 | the descriptor becomes the head of the linked registry |
| ModuleRegistry.Registry.ModuleFind | kernel/core/module.c:195-206 | the first descriptor of that name, or none |
| ModuleRegistry.Registry.CheckDependencies | kernel/core/module.c:82-100 | true exactly when every named dependency exists and runs |
| ModuleRegistry.Registry.ModuleLoad | kernel/core/module.c:105-161 | status, start order, start times and return code of loading |
| ModuleRegistry.Registry.Launch | kernel/core/module.c:132-160 | status ERROR and the code of a failing initialisation, else RUNNING with the time of the start |
| ModuleRegistry.Registry.ModuleUnload | kernel/core/module.c:166-190 | only a running module becomes UNLOADED |
| ModuleRegistry.Registry.AutoloadPass | kernel/core/module.c:220-234 | one pass over the linked list, whether it made progress, how many loads it counts, and the start times |
| ModuleRegistry.Registry.AutoloadAll | kernel/core/module.c:211-235 | passes until no progress, ten at most, and the start times |
| AuditCrc.TableIteration | kernel/core/audit.c:44-45 | one iteration of the table-driven loop equals eight bit steps |
| AuditCrc.TableCrcIs | kernel/core/audit.c:39-49 | with a filled table the checksum is the bit-by-bit one; with the unfilled table every message of eight bytes or more has the same one |
| AuditCrc.CrcIsRemainder | kernel/core/audit.c:19-49 | the checksum of every message is the complement of the remainder of its bits, lowest first in each byte, 64 zeros behind and the first 64 complemented, modulo the polynomial with the coefficients 1 C96C 5795 D787 0F42 |
| AuditCrc.TamperingShows | kernel/core/audit.c:19-49 | a change inside at most seven adjacent bytes of body and checksum field together always makes the checksum wrong |
| AuditCrc.BurstShows | kernel/core/audit.c:19-49 | the same for a change inside at most 63 adjacent bits |
| AuditCrc.EightBytesMissedIff | kernel/core/audit.c:22-31 | a change of eight adjacent bytes goes unnoticed if and only if its difference is the pattern of 2p + 1 |
| AuditCrc.EightBytesMissedExample | kernel/core/audit.c:22-31 | a concrete change of eight bytes that goes unnoticed in every message |
| RingLog.RingRefinesList | kernel/core/audit.c:76-85 | the ring is the list of the last 4096 writes: entry i is write n - count + i, and every physical index below the count holds one of them |
| AuditTrail.CopyReadsBack | kernel/core/audit.c:96-107 | a copied string reads back, cut to the buffer, whatever the slot held before |
| AuditTrail.CutIs | kernel/core/audit.c:96-107 | a string is kept whole if it leaves room for its terminator, and otherwise as far as that |
| AuditTrail.FillTells | kernel/core/audit.c:84-110 | a write leaves a record that reads as it was written and verifies, whatever the slot held before and whether the table is filled or not |
| AuditRuns.RunShows | kernel/core/audit.c:58-111 | after every run of writes and initialisations in any order, entry i of the trail shows write n - count + i, and every physical index below the count one of the writes kept: the record as written with the table as it was then, cleared if an initialisation came later |
| AuditRuns.FateOfWrite | kernel/core/audit.c:58-111 | a write in a run was made with the table filled if and only if it was filled at the start or an initialisation came before, and is cleared if and only if one came after |
| AuditRuns.UnwipedTells | kernel/core/audit.c:58-128 | in every run, what no initialisation has cleared since reads as it was written and verifies |
| AuditRuns.TrailTells | kernel/core/audit.c:76-128 | after every run of writes alone, with the table filled or not, entry i of the trail reads as write n - count + i and verifies |
| AuditRuns.TrailReads | kernel/core/audit.c:76-111 | of the last 4096 writes, those with strings shorter than 64 and 128 bytes read back word for word |
| AuditRuns.TrailVerifies | kernel/core/audit.c:76-128 | after every run of writes alone, with the table filled or not, every index below the count verifies; and after every other run that ends in 4096 writes |
| AuditTrail.UnreadyPassesIff | kernel/core/audit.c:39-49 | with the table not filled, an altered record verifies if and only if its eight checksum bytes are untouched |
| AuditRuns.TrailTampering | kernel/core/audit.c:76-128 | what this is worth after every run of writes alone: with the table filled no change of a record inside seven adjacent bytes verifies; without it exactly those that leave the checksum field alone |
| AuditClearing.RemnantOf | kernel/core/audit.c:58-66 | of a cleared record only level and agent are left, and, if it was written with the table not filled, the constant checksum |
| AuditClearing.OneRemnantPasses | kernel/core/audit.c:58-128 | of two records written before the first initialisation that differ inside seven adjacent bytes, at most one verifies after it |
| AuditClearing.OneAuthorPasses | kernel/core/audit.c:58-128 | of all levels (below 256) and agents, with everything else the same, at most one pair leaves such a record that verifies |
| AuditClearing.OneTimePasses | kernel/core/audit.c:58-128 | of all times below 2^63, with everything else the same, at most one leaves a record that verifies after being cleared by a repeated initialisation |
| AuditClearing.LateInitFails | kernel/core/audit.c:58-128 | in every state with the table not filled, a write and then an initialisation leave a record that verifies for at most one level and agent |
| AuditClearing.LateInitExample | kernel/core/audit.c:58-128 | hence in every such state a write by agent 0 or agent 1 exists that fails verification after the initialisation |
| AuditTrail.TamperedRecordFails | kernel/core/audit.c:116-128 | a correct record fails verification after any change inside at most seven adjacent of its 220 bytes |
| AuditTrail.BurstFails | kernel/core/audit.c:116-128 | the same after any change inside at most 63 adjacent bits of the record |
| AuditTrail.EightBytesPassIff | kernel/core/audit.c:116-128 | with the checksum field left alone, a change of eight adjacent bytes passes if and only if it is the one pattern |
| AuditTrail.PlacesExact | kernel/core/audit.c:147-165 | the places listed are in order, each once, and all that are wanted |
| AuditTrail.MatchingExact | kernel/core/audit.c:144-168 | a search finds exactly the records of the level and agent asked for, 0xFF and 0xFFFFFFFF standing for any, each once and in order |
| AuditLog.Log.Crc64Init | kernel/core/audit.c:19-37 | fills the table once |
| AuditLog.Log.Crc64 | kernel/core/audit.c:39-49 | the loop computes the bit-by-bit checksum once the table is filled, and a constant before |
| AuditLog.Log.AuditInit | kernel/core/audit.c:58-66 | fills the table and clears time and strings of every slot; counter, head and checksums stay |
| AuditLog.Log.AuditWriteLog | kernel/core/audit.c:76-111 | the ring after one write, with or without the table filled |
| AuditLog.Log.AuditVerify | kernel/core/audit.c:116-128 | true exactly when the index is below the count and the stored checksum is the one computed now |
| AuditLog.Log.AuditGet | kernel/core/audit.c:133-139 | the physical slot, if below the count |
| AuditLog.Log.AuditSearch | kernel/core/audit.c:144-168 | the first `max` matching records in slot order |
| Tasks.RunKeepsMail | kernel/core/kernel.c:203-259 | after every run each mailbox is, in order, the delivered messages to its agent, which are the first 16 accepted ones |
| Tasks.ReachesMailboxIff | kernel/core/kernel.c:236-259 | a send reaches the mailbox if and only if the log has room and fewer than 16 messages to that agent came before; no other mailbox changes |
| Tasks.SeventeenthIsLost | kernel/core/kernel.c:251-256 | a reachable state that shows it: the 17th message is accepted and logged, and the mailbox stays as it was |
| TaskLives.RunClock | kernel/core/kernel.c:323-324 | over every run the clock counts the timer interrupts, in 64 bits, and nothing else moves it |
| TaskLives.SentIsLogged | kernel/core/kernel.c:236-259 | a message sent anywhere in a run stays in the log with sender, receiver, both levels, kind, the time counted in interrupts, and whether it reached the mailbox; one that is refused changes nothing |
| TaskLives.RunKeepsSpecs | kernel/core/kernel.c:203-231 | over every run the table lists the tasks spawned, in order, up to 256, with their levels and priorities, and all are READY |
| TaskLives.ScheduleIs | kernel/core/kernel.c:264-288 | only the current task changes, to the first READY one in cyclic order behind it, which comes last itself |
| TaskLives.EveryTurnEnds | kernel/core/kernel.c:323-336 | from every state: interrupts take one from the quantum and nothing but the clock changes besides, until the one that uses it up; that gives a full quantum and schedules; with an empty quantum the turn never ends |
| TaskSharing.TimerTurnsWheel | kernel/core/kernel.c:323-336 | each timer interrupt moves a weighted wheel by one position |
| TaskSharing.WeightedShares | kernel/core/kernel.c:264-336 | in every window of all slices together each agent is current for exactly its own slice |
| TaskSharing.NextInOrder | kernel/core/kernel.c:264-336 | after its slice the agent with the next id is current with a full slice |
| TaskSharing.WeightedSharesIff | kernel/core/kernel.c:323-336 | the shares are proportional in every window if and only if no slice is empty |
| TaskSharing.EmptySliceReached | kernel/core/kernel.c:327-334 | if some slice is empty the turn reaches such an agent |
| TaskSharing.EmptySliceIff | kernel/core/kernel.c:215-215 | a slice is empty for priorities 0 and 2^31 only |
| TaskSharing.SpawnsGiveFullSlices | kernel/core/kernel.c:203-231 | freshly spawned agents have full slices |
| IdleLoop.RunKeepsSupplied | kernel/core/kernel.c:203-336 | over every run of spawns, sends, yields and interrupts all agents stay READY, with time left exactly if they have a slice |
| IdleLoop.TurnsLaw | kernel/core/kernel.c:391-397 | the law of the turns, for every number of interrupts from every such state: each time the turn goes round, it comes to agent i or passes over it because the slice before it ran out |
| IdleLoop.SlicesLaw | kernel/core/kernel.c:323-336 | the law of the slices: an agent is current for as many interrupts as its expired slices and its quantum account for |
| SkipWheel.TurnsBalance | kernel/core/kernel.c:391-397 | turns held and turns passed over together differ by at most one between any two agents |
| IdleLoop.OnceEach | kernel/core/kernel.c:391-397 | while no slice runs out, each of n agents is current for exactly one of n interrupts |
| IdleLoop.ProportionalIff | kernel/core/kernel.c:391-397 | from every such state the loop shares the interrupts in proportion to the slices, up to a fixed error however long it runs, if and only if all slices are equal |
| SkipShares.ProportionalIff | kernel/core/kernel.c:264-288 | the same for any slices but 1 and any starting position |
| IdleLoop.HighestPriorityFallsBehind | kernel/core/kernel.c:367-397 | at boot the agent of the highest priority falls behind every other one: by more than (m - 300) / 100 of the first m interrupts, for every m |
| TaskSharing.BootShares | kernel/core/kernel.c:367-379 | the five agents of `kmain` hold 100, 80, 50, 30 and 10 of any 270 interrupts |
| KernelCore.Core.SysAgentSpawn | kernel/core/kernel.c:203-231 | the next slot, READY with a full slice and an empty mailbox, or the error value and no change |
| KernelCore.Core.SysAgentSend | kernel/core/kernel.c:236-259 | log entry and mailbox after a send; 1 and no change if the agent is missing or the log full |
| KernelCore.Core.FindReady | kernel/core/kernel.c:267-274 | the loop finds the first READY agent in cyclic order |
| KernelCore.Core.ScheduleNext | kernel/core/kernel.c:264-288 | the current agent afterwards |
| KernelCore.Core.TimerInterrupt | kernel/core/kernel.c:323-336 | ticks, quantum and current agent afterwards |
| ShiftRegister.BurstDetected | kernel/drivers/modbus.c:50-66 | for any polynomial of full width: a burst up to the width always changes the check, one bit longer only one pattern does not |
| ShiftRegister.WindowDetected | kernel/drivers/modbus.c:50-66 | the same for bytes, anywhere in a message |
| ModbusFrames.Crc16IsRemainder | kernel/drivers/modbus.c:50-66 | the CRC of every message is the remainder of its bits, lowest first in each byte, 16 zeros behind and the first 16 complemented, modulo x^16 + x^15 + x^2 + 1 |
| Polynomials.FeedBitsDivides | kernel/drivers/modbus.c:50-66 | for any polynomial: feeding bits to the register is long division, and its state the remainder |
| ModbusFrames.MatchesIffResidueZero | kernel/drivers/modbus.c:124-125 | the comparison succeeds if and only if the CRC of the whole frame is 0 |
| ModbusFrames.FrameMatches | kernel/drivers/modbus.c:109-112 | appending the CRC, low byte first, gives residue 0 for every message |
| ModbusFrames.FrameUnique | kernel/drivers/modbus.c:109-112 | no other two bytes complete the message |
| ModbusFrames.CompletesIff | kernel/drivers/modbus.c:124-129 | what passes the comparison is exactly a message and its checksum |
| ModbusFrames.DamageShows | kernel/drivers/modbus.c:124-129 | a valid frame damaged inside one byte or two adjacent bytes, data and CRC alike, fails |
| ModbusFrames.BurstShows | kernel/drivers/modbus.c:124-129 | damage of up to 16 adjacent bits shows, of 17 unless it is the pattern of the polynomial |
| ModbusFrames.ReplyDecodes | kernel/drivers/modbus.c:124-133 | an undamaged reply carrying v is decoded as v, for every slave and value |
| ModbusFrames.DamagedReplyRejected | kernel/drivers/modbus.c:127-129 | a reply damaged inside one byte or two adjacent bytes is reported as an error |
| ModbusFrames.ErrorValueIff | kernel/drivers/modbus.c:127-133 | 0xFFFF is returned if and only if the CRC fails or the register holds 0xFFFF |
| ModbusFrames.ErrorValueExample | kernel/drivers/modbus.c:124-133 | the valid reply of a register that holds 0xFFFF reads as an error |
| ModbusFrames.AcceptedIsFrame | kernel/drivers/modbus.c:124-133 | a reply is read as v if and only if it completes some three bytes and v to a frame |
| ModbusFrames.ExpectedIff | kernel/drivers/modbus.c:124-133 | a reply read as v is the one asked for if and only if its first three bytes are the slave, the function code and the byte count |
| ModbusFrames.ForeignReplyExample | kernel/drivers/modbus.c:124-133 | another slave's reply is read as if it were the right one's |
| ModbusFrames.ReadRequestTells | kernel/drivers/modbus.c:101-112 | slave, register and count can be read off the request |
| ModbusFrames.WriteRequestTells | kernel/drivers/modbus.c:142-151 | slave, register and value can be read off the request |
| ModbusDriver.Line.ModbusCrc16 | kernel/drivers/modbus.c:50-66 | the loops compute the bit-serial CRC of the first bytes of the buffer |
| ModbusDriver.Line.Seal | kernel/drivers/modbus.c:109-112 | the buffer becomes the frame of its first six bytes |
| ModbusDriver.Line.ReadHoldingRegister | kernel/drivers/modbus.c:97-134 | sends exactly the request, takes exactly seven bytes, returns their decoding |
| ModbusDriver.Line.WriteRegister | kernel/drivers/modbus.c:139-171 | sends exactly the request, takes exactly eight bytes, true if and only if they echo it |
| WatchdogLives.RunKeepsSpecs | kernel/core/watchdog.c:148-193 | over every run that no reboot ends, the table lists the watchdogs created, in order, up to 64, with agent, recovery and timeout, 5000 for 0; the statistic of creations is their number |
| WatchdogLives.BornDisarmed | kernel/core/watchdog.c:148-193 | a watchdog is created behind the others, disarmed, never fired, its time at 0 |
| WatchdogLives.EachAlone | kernel/core/watchdog.c:195-289 | over every run that no reboot ends, enabling, disabling, deleting, kicking, scans and the clock do to each watchdog what they would do to a single one |
| WatchdogLives.EnabledFiresIff | kernel/core/watchdog.c:195-289 | enabling restarts the time: the watchdog then fires if and only if a scan comes a whole timeout after the enabling or the last kick |
| WatchdogLives.DisarmedIsIdle | kernel/core/watchdog.c:209-348 | disabled or deleted, it does not fire until it is enabled again |
| Watchdogs.CheckExact | kernel/core/watchdog.c:237-289 | a scan fires exactly the enabled watchdogs whose time is up; it halts the machine if and only if a reboot recovery is due |
| Watchdogs.NothingDueAfterCheck | kernel/core/watchdog.c:237-289 | after a scan every enabled watchdog has elapsed < timeout, and a second scan changes nothing |
| Watchdogs.FiresIff | kernel/core/watchdog.c:223-289 | over every run: an armed watchdog fires if and only if some scan finds it unkicked for its whole timeout, and then exactly once |
| Watchdogs.PunctualNeverExpires | kernel/core/watchdog.c:223-248 | kicked at gaps shorter than its timeout it never expires |
| Watchdogs.IdleUntilEnabled | kernel/core/watchdog.c:195-289 | a watchdog that is not enabled does not fire until it is enabled |
| Watchdogs.RunKeepsCounts | kernel/core/watchdog.c:195-289 | the counters agree over every run, the halting reboot included |
| Watchdogs.ExpirationsAreRecoveries | kernel/core/watchdog.c:249-285 | from initialisation: expirations = recoveries = sum of the expiry counts in 32 bits, no watchdog stays EXPIRED, unless a reboot halts the machine, which leaves one recovery missing |
| Watchdogs.ActiveCountIff | kernel/core/watchdog.c:195-221 | after every run the statistic of active watchdogs is the number of enabled ones if and only if expiries and repeated enablings so far make a multiple of 2^32 |
| Watchdogs.ActiveDriftExample | kernel/core/watchdog.c:204-204 | one watchdog enabled twice counts as two |
| Watchdogs.OverdueAgentNeverRuns | kernel/core/watchdog.c:86-99 | an agent whose restart watchdog is due is TERMINATED by the scan and, unless current, never runs again |
| WatchdogTimer.Timer.WatchdogCreate | kernel/core/watchdog.c:148-193 | the next slot, disabled, with the default timeout for 0, and the count of creations; the error value when all 64 are taken |
| WatchdogTimer.Timer.WatchdogEnable | kernel/core/watchdog.c:195-207 | state, time of the last kick and the statistic of active watchdogs |
| WatchdogTimer.Timer.WatchdogDisable | kernel/core/watchdog.c:209-221 | only an enabled watchdog is disabled and counted as no longer active |
| WatchdogTimer.Timer.WatchdogKick | kernel/core/watchdog.c:223-235 | only an enabled or expired watchdog is kicked |
| WatchdogTimer.Timer.WatchdogDelete | kernel/core/watchdog.c:334-348 | the slot is disabled, not freed, with the statistic of active watchdogs |
| WatchdogTimer.Timer.Fire | kernel/core/watchdog.c:246-286 | expiry, recovery action and counters for one watchdog; a restart terminates its agent in the agent table |
| WatchdogTimer.Timer.WatchdogCheckAll | kernel/core/watchdog.c:237-289 | watchdogs, counters and the agent table after a scan |
| FileTable.RunKeepsSound | kernel/core/isaf.c:95-237 | over every run, overflowing positions included: accessor level at least owner level, position at most size for every open descriptor, and no file shrinks |
| FileTable.OpenDescriptorsMayWrite | kernel/core/isaf.c:177-180 | the permission check of a write never refuses a descriptor that is open |
| FileTable.ReadExactIff | kernel/core/isaf.c:149-163 | a read advances by min(length, size - position) if and only if nothing is left or position + length fits 32 bits |
| FileTable.WriteExtendsIff | kernel/core/isaf.c:188-191 | a write leaves the size at max(size, position + length) if and only if that end fits 32 bits |
| FileTable.OverflowExample | kernel/core/isaf.c:141-198 | a run that shows both: a write of 2^32 - 1 bytes leaves a file of two bytes at position 1, where a read claims as many bytes and moves back |
| FileTable.ReadsAddUp | kernel/core/isaf.c:141-164 | reading in pieces delivers as many bytes as are left, at most the total asked |
| FileTable.OpenIff | kernel/core/isaf.c:95-136 | when opening succeeds, on which file and descriptor, and that it changes nothing otherwise |
| FileTable.CreatedIsOpenedIff | kernel/core/isaf.c:212-237 | a file just created is what its path opens if and only if the path is not empty, shorter than 32, and no earlier name extends it |
| FileTable.HiddenFileExample | kernel/core/isaf.c:95-237 | a run that shows it: of the files "ab" and "a", the path "a" opens the first |
| FileLives.RunKeepsIdentities | kernel/core/isaf.c:95-237 | over every run the table lists the files created, in order, up to 1024: name cut to 31 characters, owner, inode, permissions and time of creation never change |
| FileLives.OwnerDecides | kernel/core/isaf.c:95-126 | a file that its path opens is, after every run, refused for lack of permission to levels below its owner and to no others |
| FileLives.OwnerOpens | kernel/core/isaf.c:95-136 | and opened at position 0 for all other levels, if and only if one of the 64 descriptors is free |
| FileLives.ClosedIsRefused | kernel/core/isaf.c:141-207 | reading and writing through a closed descriptor deliver and change nothing until something is opened |
| FileLives.CloseUndoesOpen | kernel/core/isaf.c:95-207 | closing concerns one descriptor and frees it: opening again at once gives the same |
| FileLives.OverflowIs | kernel/core/isaf.c:141-198 | what a read and a write do whose end does not fit 32 bits |
| FileLives.WriteMoves | kernel/core/isaf.c:169-198 | a write that fits moves the position to its end, stamps the file, and touches no other file or descriptor |
| CStrings.ComparesPrefix | kernel/core/isaf.c:101-107 | the comparison loop accepts a path if and only if it is a prefix of the stored name |
| IsaFs.FileSystem.constructor | kernel/core/isaf.c:48-86 | after initialisation: ten nameless entries, no open descriptor |
| IsaFs.FileSystem.FindFile | kernel/core/isaf.c:97-115 | the lowest slot whose name the path is a prefix of |
| IsaFs.FileSystem.IsafOpen | kernel/core/isaf.c:95-136 | new descriptor and return code |
| IsaFs.FileSystem.IsafRead | kernel/core/isaf.c:141-164 | new position and number of bytes |
| IsaFs.FileSystem.IsafWrite | kernel/core/isaf.c:169-198 | new position, size and modification time |
| IsaFs.FileSystem.IsafClose | kernel/core/isaf.c:203-207 | only that descriptor is closed |
| IsaFs.FileSystem.IsafCreate | kernel/core/isaf.c:212-237 | new entry and inode, the name cut to 31 characters |
| Decimal.RoundTrip | kernel/services/shell.c:86-92 | the digits of every 32-bit number, followed by anything but a digit, are read back as that number |
| Decimal.ParseIsValue | kernel/services/shell.c:86-92 | the loop computes the value of the digits modulo 2^32 |
| Decimal.ReprintsIff | kernel/services/shell.c:86-92 | digits read and printed again are the same if and only if they have no leading zero and denote less than 2^32 |
| Decimal.AlarmFits | kernel/core/watchdog.c:64-81 | message, digits and NUL take at most 29 of the 128 bytes |
| Decimal.CountDigits | kernel/core/watchdog.c:71-74 | the counting loop finds the number of digits |
| Decimal.PrintAt | kernel/core/watchdog.c:76-80 | the digits, written backwards, and the NUL behind them; what stands before stays |
| Decimal.AlarmMessage | kernel/core/watchdog.c:64-80 | the buffer holds the prefix and the decimal digits of the agent id |
| Decimal.ParseNumber | kernel/services/shell.c:89-92 | the loop on a NUL-terminated argument |
| Shell.KeysKeepLine | kernel/services/shell.c:197-220 | whatever is typed, the line is printable and leaves room for its NUL |
| Shell.BackspacesUndoText | kernel/services/shell.c:205-216 | as many backspaces as characters typed restore the line |
| Shell.TypedWriteIsCarriedOut | kernel/services/shell.c:105-178 | the printed numbers of an actuator and a value, typed as a write command, are carried out once with exactly these numbers |
| Shell.TypedReadIsCarriedOut | kernel/services/shell.c:86-170 | the same for reading a sensor |
| Shell.SameEnter | kernel/services/shell.c:197-216 | both codes of enter do the same, and both of backspace |
| Shell.LongLineIsCut | kernel/services/shell.c:217-220 | of a long text the line keeps the first 127 characters |
| Shell.DeadKeys | kernel/services/shell.c:197-220 | any other key does nothing, nor do enter and backspace on an empty line |
| Shell.OtherLine | kernel/services/shell.c:155-178 | a line that begins with neither numeric command is carried out as its text |
| ShellConsole.Terminal.ParseCommand | kernel/services/shell.c:155-178 | the command understood from the line buffer |
| ShellConsole.Terminal.HandleChar | kernel/services/shell.c:197-220 | line buffer and commands after a key |

## Left out

- KernelHeap.Heap.Kcalloc: requires that the zeroing loop stays inside the block granted, if one is; when it does not, the code writes beyond the block and the model stops. `HeapRuns.LoopsStay` gives the sizes for which it always does.
- KernelHeap.Heap.Krealloc: requires the same of the copying loop, for a pointer that is not NULL; `HeapRuns.CopyOverrunExample` is a heap where it does not.
- KernelHeap.Heap.Kfree: requires NULL or a pointer to an allocated block, as the code does without checking; the same holds for `krealloc`.
- KernelHeap.Heap.Kmalloc: says nothing about the alignment of returned pointers; sizes are rounded to 16 bytes, but every header takes 12.
- Agents.DispatchRule: a context switch is only the change of the current id; registers, stacks and program counters (`ctx_switch`, `agent_setup_stack`, the assembly files) are not modelled, nor are agent names.
- AgentSystem.System.AgentCreate: name, entry point, mailbox indices and stack frame of an agent are not modelled.
- AgentSharing.EqualShares: the windows contain ticks only, no other call. The same holds for `AgentDuel.TwoShares`.
- TaskSharing.WeightedShares: the windows contain timer interrupts only; the loop of `kmain` is in `IdleLoop`.
- IdleLoop.TurnsLaw: other interrupts than the timer's, which wake the loop too, are not modelled.
- KernelCore.Core.SysAgentSpawn: requires a level below 5, because the code indexes a table of five names with it; the name and the program counter are not modelled.
- Autoloading.AutoloadExact: assumes unique names, a fixed result of each `init` and a registry where nothing is loaded yet.
- Loading.RunKeepsOrder: the runs contain loads and autoloads; unloading, which may break closure, is in `Loading.UnloadKeepsClosedIff`.
- ModuleRegistry.Registry.ModuleUnload: the stop and cleanup callbacks have no effect on the registry and are not modelled; the same holds for the start callback of loading, and the clock stands still while modules load.
- ModuleRegistry.Registry.ModuleLoad: the start callback, which has no effect on the registry, is not modelled.
- ModuleRegistry.Registry.Launch: likewise.
- ModuleRegistry.Registry.Register: descriptors without a name, which the scan skips, are not registered in the model.
- AuditClearing.LateInitFails: says that at most one level and agent leave a record that verifies, not which, as that depends on the bytes left in the slot; levels are below 256, of which the code has five.
- ModbusDriver.Line.ReadHoldingRegister: requires that enough bytes arrive; a busy wait for a byte that never comes is not modelled. The same holds for `WriteRegister`.
- WatchdogTimer.Timer.WatchdogCheckAll: the custom recovery function, which no call of the kernel sets, the log lines, the alarm queue and the names are not modelled.
- WatchdogTimer.Timer.Fire: likewise; only the restart recovery acts on modelled state, by terminating its agent.
- WatchdogTimer.Timer.WatchdogCreate: names and the level, which is always 0, are not modelled.
- IsaFs.FileSystem.IsafOpen: a path is the characters before its NUL, and initialisation happens once, at boot.
- ShellConsole.Terminal.ParseCommand: the commands without numbers are kept as their text, not carried out.
- Console and VGA output, the help and status commands of the shell, alarms, batches, configuration and error tables: no algorithm to prove.
- `isaf_list`, `hash_path` (unused), `audit_export` (placeholder offsets), `audit_log_t` field layout beyond its byte order.
- The stubs for PROFINET, EtherCAT, SPI, I2C, CAN, OPC UA and MQTT, and port, MMIO and RTC access.
- `kernel/services/watchdog.c`, which the Makefile does not build, and the floating-point example `userspace/examples/l1_pid.c`.
