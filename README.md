# PsiFreeRTOS bookkeeping layer, modelled in Dafny

This project models the bookkeeping layer that PsiFreeRTOS runs beside the
FreeRTOS scheduler on a Cortex-R5 (`src/PsiFreeRTOS.c`). The model covers:

- the fixed-capacity task registry and its parallel load and tick arrays;
- the heap counter fed by the allocator hooks;
- CPU-load accounting over measurement epochs: the restart in
  `PsiFreeRTOS_StartCpuUsageMeas`, the periodic refresh in the idle hook, the
  interrupt-context dump in `PsiFreeRTOS_PrintCpuUsageInternal`, and the
  lookup in `PsiFreeRTOS_GetCpuLoad`;
- the idle-starvation watchdog in the tick hook;
- the fatal latch reached from stack overflow, allocation failure, a watchdog
  trip and registry overflow.

The C module's static variables become the fields of one class,
`PsiFreeRTOS.Context`, and `PsiFreeRTOS_Init` becomes its constructor. The
registry keeps the C layout: an `array<Handle>` of capacity
`configPSI_MAX_TASKS`, two parallel arrays for loads and ticks, and a 16-bit
count. Every operation that changes state in place is a method. Its contract
gives the whole new state in terms of the old one. The pure parts are
functions with lemmas: the load formula, the wrapping tick and counter
differences, the watchdog comparison and the heap arithmetic.

Integer widths are explicit. `unsigned long`, `TickType_t`, `uint32_t` and
the scheduler's `ulRunTimeCounter` are 32 bits wide and wrap modulo 2^32
(`Uint.Sub32`, `Uint.Add32`). `taskCount` is a `uint16_t`. The stored load is
cast to `uint8_t` (`Uint.Trunc8`).

Values from outside the layer arrive as method parameters:

- tick counts (`xTaskGetTickCount`);
- free-running hardware counter readings (`PsiFreeRTOS_GET_RUN_TIME_COUNTER_VALUE`);
- the build-time configuration macros, gathered in `Config`;
- whether the user's fatal and tick handlers are NULL.

The scheduler's per-task run-time counters are the field `runTime`, a map from
handle to counter. The model records the layer's effects on the system in
fields:

- `halted` records a halt; its value is the fatal reason and whether the user's handler was called;
- `schedulerSuspended` records `vTaskSuspendAll`;
- `userTickCalls` counts calls to the user's tick handler;
- `criticalNesting` holds the nesting depth of `taskENTER_CRITICAL`.

A halt is terminal, because the C code spins for ever. So every
state-changing operation requires `Running()`. The queries `GetCpuLoad` and
`GetHeap` do not.

C leaves some behaviour undefined. The model records it as a `Trap` instead
of choosing a result:

- an unsigned division by zero in the load formula: `runSum / 100` is 0 while
  fewer than 100 counter increments have elapsed, and the code has no clamp;
- the call through a NULL fatal-handler pointer on registry overflow. That
  path has no NULL check, unlike the other three fatal paths.

Three facts about the code shape the model:

- `runSum / 100` has no clamp. A zero divisor with tasks registered traps.
- The load is not an under-estimate. The code divides by the already
  truncated `runSum / 100`. `CpuLoad.LoadNotBelowExactPercent` proves that
  the result is never below the exact truncated percentage.
  `CpuLoad.ShortEpochOverReports` shows a short epoch reporting 199 %.
- The header declares `PsiFreeRTOS_Init` with two parameters, and the demo
  application calls it with three different ones. The model follows the
  three-parameter definition in the `.c` file: fatal handler, tick handler,
  infinite-loop detection.

Files: `wrappers.dfy` (Option), `uint.dfy` (fixed-width arithmetic),
`heap.dfy` (heap counter), `cpu_load.dfy` (load formula and epoch restart),
`watchdog.dfy` (watchdog test), `registry.dfy` (search and removal on
sequences, and the deletion loop as written), `psi_freertos.dfy` (the layer's
state and operations), `scenarios.dfy` (properties that span several calls).

## Model

| member | source | states |
|---|---|---|
| `PsiFreeRTOS.Context.Init` | src/PsiFreeRTOS.c:276-287 | After init the registry is empty, the heap counter equals `configTOTAL_HEAP_SIZE`, the last idle time and the epoch's start counter are 0, and the handler and detection settings are stored. Load and tick slots start at zero, as C statics do. |
| `PsiFreeRTOS.Context.EnterCritical` | src/PsiFreeRTOS.c:111 | `taskENTER_CRITICAL` deepens the critical-section nesting by one. |
| `PsiFreeRTOS.Context.ExitCritical` | src/PsiFreeRTOS.c:126 | `taskEXIT_CRITICAL` undoes one level of nesting. It is only called inside a critical section. |
| `PsiFreeRTOS.Context.TaskCreate` | src/PsiFreeRTOS.c:108-127 | Below capacity the handle goes to slot `taskCount`, that slot's load and ticks become 0, the count grows by one, and nothing else changes. At capacity the registry is untouched. The fatal handler runs with `CreatedTooManyTasks`, or the call traps on a NULL handler. The critical section stays entered, the scheduler is not suspended, and the system halts. |
| `PsiFreeRTOS.Context.TaskDelete` | src/PsiFreeRTOS.c:129-147 | For a registered handle, the registry loses its first occurrence, earlier entries stay, later entries move down one place in order, and the count drops by one. The slot that becomes dead takes its right-hand neighbour's handle, or keeps its own when the registry was full. The load and tick arrays are not touched. The critical section is balanced. |
| `PsiFreeRTOS.Context.ShiftOut` | src/PsiFreeRTOS.c:135-143 | The shifting loop: slots before the first match keep their handle, and every later live slot takes its right-hand neighbour's handle, except that in a full registry the last live slot, which has no neighbour inside the array, keeps its own. Slots past the count are unchanged. |
| `Registry.DeleteAsWritten` | src/PsiFreeRTOS.c:135-144 | The deletion loop exactly as written, on sequences. It reads one slot past the array if and only if the registry is full. Otherwise its live prefix is the old one without the first match. |
| `Registry.FirstIndex` | src/PsiFreeRTOS.c:136-139 | The position where deletion and lookup stop: it holds the handle, and no earlier position does. |
| `Registry.RemoveAt` | src/PsiFreeRTOS.c:136-144 | Removal keeps the elements before the position and moves every later one down by one. |
| `Registry.RemoveAtMultiset` | src/PsiFreeRTOS.c:136-144 | Removal loses exactly one occurrence of the removed handle and keeps all other tasks. |
| `Registry.SuccessorFoundAtRemovedPosition` | src/PsiFreeRTOS.c:317-324 | After a removal from a duplicate-free registry, the successor of the removed task is found at the removed position. |
| `Scenarios.DeleteMisalignsLoad` | src/PsiFreeRTOS.c:136-144 | Because the load array is not shifted, `GetCpuLoad` for the successor of a deleted task returns the deleted task's stored load until the next refresh. |
| `Scenarios.CreateThreeDeleteMiddle` | src/PsiFreeRTOS.c:108-147 | Create A, B, C and then delete B: the registry is [A, C], in creation order. |
| `Scenarios.RegistryScenario` | src/PsiFreeRTOS.c:108-147 | With capacity 4: create A, B, C, delete B, create D and E. Creating F then halts with `CreatedTooManyTasks`, the handler called, and the registry stays [A, C, D, E]. |
| `PsiFreeRTOS.Context.GetCpuLoad` | src/PsiFreeRTOS.c:317-324 | Returns the stored load of the first slot holding the handle, or 0 when the handle is not registered. |
| `PsiFreeRTOS.Context.Malloc` | src/PsiFreeRTOS.c:149-153 | The heap counter drops by the size, modulo 2^32, inside a balanced critical section. |
| `PsiFreeRTOS.Context.Free` | src/PsiFreeRTOS.c:155-159 | The heap counter grows by the size, modulo 2^32, inside a balanced critical section. |
| `Scenarios.MallocThenFree` | src/PsiFreeRTOS.c:149-159 | `MALLOC(n)` followed by `FREE(n)` leaves the heap counter unchanged. |
| `Heap.Apply` | src/PsiFreeRTOS.c:149-159 | One notification is undone by its opposite: adding back the size of an allocation, or subtracting the size of a release, in 32-bit arithmetic, restores the counter. |
| `Heap.ReplayIsNetModulo` | src/PsiFreeRTOS.c:149-159 | After any sequence of notifications, the counter equals its start value plus bytes freed minus bytes allocated, modulo 2^32. |
| `Heap.BalancedReplayRestores` | src/PsiFreeRTOS.c:149-159 | Notifications that free exactly what they allocate leave the counter where it started, even if it wrapped in between. |
| `Heap.AllocThenFreeRestores` | src/PsiFreeRTOS.c:149-159 | An allocation of n bytes followed by a release of n bytes restores the counter. |
| `Uint.Sub32` | src/PsiFreeRTOS.c:151 | Unsigned 32-bit subtraction gives the unique 32-bit value that, added back, yields the minuend modulo 2^32. It is the plain difference when there is no borrow, and the difference plus 2^32 otherwise. |
| `Uint.Add32` | src/PsiFreeRTOS.c:157 | Unsigned 32-bit addition is the plain sum below 2^32 and the sum minus 2^32 above. |
| `Uint.Trunc8` | src/PsiFreeRTOS.c:232 | The `uint8_t` cast keeps values below 256 and otherwise differs from its argument by a multiple of 256. |
| `Uint.AddUndoesSub` | src/PsiFreeRTOS.c:149-159 | Subtracting and then adding the same 32-bit amount is the identity. |
| `Uint.SubUndoesAdd` | src/PsiFreeRTOS.c:149-159 | Adding and then subtracting the same 32-bit amount is the identity. |
| `Uint.ElapsedAcrossWrap` | src/PsiFreeRTOS.c:248 | The wrapping difference between a counter and an earlier reading is the true distance, for any distance below 2^32. |
| `PsiFreeRTOS.Context.StartCpuUsageMeas` | src/PsiFreeRTOS.c:90-102 | The epoch starts at the given counter value and tick. Every registered task's run-time counter is cleared, in registry order, and the critical section is balanced. |
| `CpuLoad.ClearedFor` | src/PsiFreeRTOS.c:95-98 | The restart loop over the registry: the counters afterwards know exactly the tasks known before, plus the registered ones. |
| `CpuLoad.ClearedForAt` | src/PsiFreeRTOS.c:95-98 | After the restart loop, a task's counter is 0 if the task is registered and unchanged otherwise. |
| `CpuLoad.RestartZeroesLoads` | src/PsiFreeRTOS.c:90-102 | Right after a restart, every registered task's load computes to 0. |
| `PsiFreeRTOS.Context.IdleHook` | src/PsiFreeRTOS.c:207-241 | Always records the tick as the last idle time. If the epoch is not due, nothing else changes. If it is due, the hook stores each registered slot's load and counter and restarts the epoch with all registered counters cleared. A zero divisor with tasks registered traps and changes nothing else. |
| `PsiFreeRTOS.Context.StoreLoads` | src/PsiFreeRTOS.c:218-234 | The refresh loop stores each live slot's load and raw run-time counter and leaves slots past the count alone. A zero divisor faults at the first task. |
| `CpuLoad.LoadPercent` | src/PsiFreeRTOS.c:221-232 | The load formula `(uint8_t)(runTime / divisor)`. While the run time is below 256 divisors, the load is the number of whole divisors in the run time. |
| `CpuLoad.EpochDue` | src/PsiFreeRTOS.c:215 | Definition of the restart test: the 32-bit tick difference since the epoch start is at least the update rate. Its meaning is proved by `CpuLoad.EpochDueIffElapsedReaches`. |
| `CpuLoad.EpochDueIffElapsedReaches` | src/PsiFreeRTOS.c:215 | With wrap-around included, the epoch is due exactly when the true number of ticks since its start reaches the update rate. |
| `CpuLoad.Divisor` | src/PsiFreeRTOS.c:220-221 | The divisor is the wrapping counter difference since the epoch start, divided by 100 and truncated. |
| `CpuLoad.FreshLoads` | src/PsiFreeRTOS.c:232 | One load per registered task, in registry order. |
| `CpuLoad.RunTimes` | src/PsiFreeRTOS.c:233 | One raw counter per registered task, in registry order. |
| `CpuLoad.LoadNotBelowExactPercent` | src/PsiFreeRTOS.c:221-232 | For a task that ran at most the epoch's increments, the load is at least `100 * runTime / runSum` and below 200. The 8-bit cast never changes it: the load equals the untruncated quotient. |
| `CpuLoad.LoadAtMostHundred` | src/PsiFreeRTOS.c:221-232 | For an epoch of at least 10000 increments, the load of such a task is at most 100. |
| `CpuLoad.ShortEpochOverReports` | src/PsiFreeRTOS.c:51-52 | With 199 elapsed increments, all used by one task, the load is 199. |
| `CpuLoad.LoadExample` | src/PsiFreeRTOS.c:220-232 | Start 1000, now 2000, run time 250: the load is 25. |
| `Scenarios.RefreshMatchesDump` | src/PsiFreeRTOS.c:70-76 | The interrupt-context dump computes each load with the same formula and divisor as the idle refresh. So a dump followed by a due refresh at the same counter reading stores exactly the dumped loads and ticks, row by row. |
| `PsiFreeRTOS.Context.PrintCpuUsageInternal` | src/PsiFreeRTOS.c:42-86 | The rows printed are the registered tasks in order. Loads are fresh in interrupt context and stored otherwise. A zero divisor traps only in interrupt context with tasks registered. The critical section is balanced. |
| `PsiFreeRTOS.Context.PrintCpuUsageInternalAsWritten` | src/PsiFreeRTOS.c:55-65 | As written, the routine prints the same rows. In normal context it returns with the critical-section nesting one deeper than on entry. |
| `PsiFreeRTOS.Context.PrintCpuUsage` | src/PsiFreeRTOS.c:313-315 | Built on the corrected routine of the second Findings row. It prints the stored loads and ticks of the registered tasks, leaves the critical-section nesting as it was, changes no other state, and never traps. |
| `PsiFreeRTOS.Context.PrintCpuUsageAsWritten` | src/PsiFreeRTOS.c:313-315 | As written, it prints the same rows and never traps, but it returns with the critical-section nesting one deeper than on entry. |
| `PsiFreeRTOS.Context.TickHook` | src/PsiFreeRTOS.c:243-268 | On a watchdog trip the dump runs. The scheduler is then suspended and the system halts with `InfiniteLoop`, the handler called only if non-NULL, or the dump traps first. The user's tick handler is not called. Without a trip the user's tick handler is called exactly when it is non-NULL. |
| `Watchdog.Trips` | src/PsiFreeRTOS.c:244-248 | Definition of the watchdog test: detection is on and the 32-bit tick difference since the last idle entry exceeds the threshold. Its meaning is proved by `Watchdog.TripsIffElapsedExceeds`. |
| `Watchdog.TripsIffElapsedExceeds` | src/PsiFreeRTOS.c:244-248 | With wrap-around included, the watchdog trips exactly when detection is on and the true ticks since the last idle entry exceed the threshold. |
| `Watchdog.ThresholdDoesNotTrip` | src/PsiFreeRTOS.c:248 | A distance exactly equal to the threshold does not trip. |
| `Watchdog.OneBeyondThresholdTrips` | src/PsiFreeRTOS.c:248 | With detection on, one tick beyond the threshold trips. |
| `Watchdog.DisabledNeverTrips` | src/PsiFreeRTOS.c:244 | With detection off, the watchdog never trips. |
| `PsiFreeRTOS.Context.StackOverflowHook` | src/PsiFreeRTOS.c:185-194 | Suspends the scheduler and halts with `StackOverflow`. The handler is called exactly when it is non-NULL. |
| `PsiFreeRTOS.Context.MallocFailedHook` | src/PsiFreeRTOS.c:196-205 | Suspends the scheduler and halts with `MallocFailed`. The handler is called exactly when it is non-NULL. |
| `PsiFreeRTOS.ReasonCode` | src/PsiFreeRTOS.h:19-24 | The fatal reasons are numbered 1 to 4, in the order stack overflow, malloc failure, infinite loop, too many tasks. |

## Left out

- PsiFreeRTOS.Context.TaskDelete: requires the handle to be registered. As written, deleting an absent handle still decrements `taskCount`, and at count 0 the 16-bit counter wraps to 65535. The scheduler only deletes tasks it created.
- PsiFreeRTOS.Context.Init: requires `configPSI_MAX_TASKS` below 65536, so the 16-bit `taskCount` can reach the capacity.
- PsiFreeRTOS.Context.IdleHook: the two `xTaskGetTickCount` reads for the idle time and the epoch test are one parameter, so a tick between them is not modelled. The restart's own counter and tick reads are separate parameters.
- Halting is terminal: every state-changing operation requires `Running()`; the queries do not. Tick interrupts that may still arrive while a task spins in a fatal loop are not modelled.
- Printing is not modelled: `printfSel`, `printfInt`, `PsiFreeRTOS_PrintHeap`, the text layout of the CPU table, the print mutex macros of `src/PsiFreeRTOS.h`, and `PsiFreeRTOS_PrintStackWatermark`. The last is a foreign stack query plus output. The CPU table's rows are returned as values; names and priorities are not.
- The check at the top of `PsiFreeRTOS_PrintCpuUsageInternal` for disabled trace settings is not modelled. It is dead code inside its own `#if`.
- The timer driver is not modelled: `PsiFreerRTOS_CONFIGURE_TIMER_FOR_RUN_TIME_STATS` and `PsiFreeRTOS_GET_RUN_TIME_COUNTER_VALUE`. Counter readings are parameters, and `XTtcPs_Stop`/`XTtcPs_Start` are no-ops.
- Foreign scheduler calls are abstract. `vTaskGetInfo` reads the `runTime` map, `vTaskClearRunTimeCounter` updates it, and `pcTaskGetName` only feeds printing.
- Concurrency is not modelled. Critical sections are only a nesting counter. The registry count is fixed during a loop, so the race-tolerant release and reacquire between iterations is not modelled.
- `PsiFreeRTOS_GetXScuGic` is left out: it only returns the interrupt controller instance.
- `PsiFreeRTOS.Context.GetHeap` returns the counter and has no contract of its own. The heap properties are stated on `Malloc`, `Free` and the `Heap` lemmas.
- The demo application under `refdesign/` is left out: it only exercises the layer.

## Findings

| source | as written | input that shows it | evidently intended | confidence | as-written member | corrected member |
|---|---|---|---|---|---|---|
| src/PsiFreeRTOS.c:141 | The shift reads `allTasks[i+1]` up to `i = taskCount-1`. | A full registry (`taskCount == configPSI_MAX_TASKS`) and the deletion of any registered handle: the loop reads `allTasks[configPSI_MAX_TASKS]`, past the array. | Read only slots inside the array. The value copied into the slot that becomes dead is never used. | high; not executed | `Registry.DeleteAsWritten` | `PsiFreeRTOS.Context.TaskDelete` |
| src/PsiFreeRTOS.c:59-60 | The normal-context loop enters the critical section and breaks out without `taskEXIT_CRITICAL`. | Any call of `PsiFreeRTOS_PrintCpuUsage()` from a task. | Leave the critical section before the break, as the idle hook's loop does at lines 224-226. | high; not executed | `PsiFreeRTOS.Context.PrintCpuUsageInternalAsWritten` | `PsiFreeRTOS.Context.PrintCpuUsageInternal` |
