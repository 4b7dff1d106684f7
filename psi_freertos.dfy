/**
 * The bookkeeping layer that runs beside the FreeRTOS scheduler: the task
 * registry, the heap counter, CPU-load accounting, the idle-starvation
 * watchdog and the fatal latch. All of the C module's static variables are
 * the fields of one `Context`; `PsiFreeRTOS_Init` is its constructor.
 *
 * The scheduler, the hardware timer and the user's callbacks are outside:
 * tick counts and hardware-counter readings arrive as parameters, the
 * scheduler's per-task run-time counters are the map `runTime`, and calls
 * into the user's fatal and tick handlers are recorded in `halted` and
 * `userTickCalls`. Critical sections are a nesting counter.
 */
module PsiFreeRTOS {
  import opened Wrappers
  import opened Uint
  import opened Registry
  import opened CpuLoad
  import Watchdog
  import Heap

  /** An opaque `TaskHandle_t`; the layer only compares handles. */
  datatype Handle = Handle(id: nat)

  /** `PsiFreeRTOS_FatalReason`. */
  datatype FatalReason = StackOverflow | MallocFailed | InfiniteLoop | CreatedTooManyTasks

  /** The numeric value the user's fatal handler receives. */
  function ReasonCode(reason: FatalReason): (code: nat)
    ensures 1 <= code <= 4
    ensures reason == StackOverflow <==> code == 1
    ensures reason == MallocFailed <==> code == 2
    ensures reason == InfiniteLoop <==> code == 3
    ensures reason == CreatedTooManyTasks <==> code == 4
  {
    match reason
    case StackOverflow => 1
    case MallocFailed => 2
    case InfiniteLoop => 3
    case CreatedTooManyTasks => 4
  }

  /**
   * Operations whose effect C leaves undefined: an unsigned division by zero
   * and a call through a NULL pointer. The model records them as a trap
   * instead of choosing a result.
   */
  datatype Fault = DivisionByZero | NullHandlerCall

  /**
   * Why the system stopped for good. `Fatal` is the fatal path: it spins
   * forever after calling the user's handler if `handlerCalled`. `Trap`
   * is a CPU fault hit on the way.
   */
  datatype Halt = Fatal(reason: FatalReason, handlerCalled: bool) | Trap(fault: Fault)

  /**
   * The build-time settings the C code reads as macros: `configPSI_MAX_TASKS`,
   * `configTOTAL_HEAP_SIZE`, `configPSI_MAX_TICKS_WITHOUT_IDLE` and
   * `configPSI_CPU_LOAD_UPDATE_RATE_TICKS`.
   */
  datatype Config = Config(maxTasks: nat, totalHeapSize: u32, maxTicksWithoutIdle: u32, cpuLoadUpdateRateTicks: u32)

  /** One line of the CPU usage table: task, load in percent, run-time counter. */
  datatype Row = Row(task: Handle, load: u8, ticks: u32)

  /** The table from the loads and counters the idle hook stored last, as the normal-context print does. */
  function StoredRows(tasks: seq<Handle>, loads: seq<u8>, ticks: seq<u32>): seq<Row>
    requires |loads| == |tasks| && |ticks| == |tasks|
  {
    seq(|tasks|, i requires 0 <= i < |tasks| => Row(tasks[i], loads[i], ticks[i]))
  }

  /**
   * The table computed fresh from the scheduler's counters, as the
   * interrupt-context dump does: the loads and counters the idle hook would
   * store from the same counters and divisor.
   */
  function FreshRows(tasks: seq<Handle>, counters: map<Handle, u32>, divisor: u32): seq<Row>
    requires tasks != [] ==> divisor > 0
  {
    StoredRows(tasks, FreshLoads(tasks, counters, divisor), RunTimes(tasks, counters))
  }

  /** A slot array whose live prefix was shifted down from position `k` holds the old prefix without element `k`. */
  lemma ShiftedIsRemoved<T>(before: seq<T>, after: seq<T>, n: int, k: nat)
    requires k < n <= |before| == |after|
    requires forall j :: 0 <= j < k ==> after[j] == before[j]
    requires forall j :: k <= j < n - 1 ==> after[j] == before[j + 1]
    ensures after[..n - 1] == RemoveAt(before[..n], k)
  {
  }

  class Context {
    const config: Config
    const fatalHandlerSet: bool
    const tickHandlerSet: bool
    const infLoopDet: bool

    /** The registry: `allTasks[..taskCount]` in creation order, with parallel load and tick slots. */
    const allTasks: array<Handle>
    const taskCpuLoad: array<u8>
    const taskCpuTicks: array<u32>
    var taskCount: u16

    /** The current measurement epoch: hardware counter and tick count at its start. */
    var cpuMeasStartIncr: u32
    var cpuMeasStartTicks: u32

    var remainingHeap: u32
    var lastIdleTime: u32

    /** The scheduler's per-task `ulRunTimeCounter`. */
    var runTime: map<Handle, u32>
    /** Depth of `taskENTER_CRITICAL` nesting of the running context. */
    var criticalNesting: nat
    /** Set by `vTaskSuspendAll`. */
    var schedulerSuspended: bool
    /** How often the user's tick handler has been called. */
    var userTickCalls: nat
    /** The fatal latch: `None` while the system runs. */
    var halted: Option<Halt>

    ghost predicate Valid()
      reads this
    {
      && allTasks.Length == config.maxTasks
      && taskCpuLoad.Length == config.maxTasks
      && taskCpuTicks.Length == config.maxTasks
      && config.maxTasks < 0x1_0000
      && taskCount as int <= config.maxTasks
    }

    predicate Running()
      reads this
    {
      halted == None
    }

    /** The registered tasks, in creation order. */
    ghost function Live(): seq<Handle>
      requires Valid()
      reads this, allTasks
    {
      allTasks[..taskCount]
    }

    /**
     * True when the load formula, as the idle refresh and the interrupt-context
     * dump both compute it, would divide by zero for the first registered task.
     */
    predicate DivisorTraps(counter: u32)
      reads this
    {
      taskCount > 0 && Divisor(counter, cpuMeasStartIncr) == 0
    }

    /** True when the interrupt-context dump would divide by zero; the normal-context print does not divide. */
    predicate DumpTraps(isIrqContext: bool, counter: u32)
      reads this
    {
      isIrqContext && DivisorTraps(counter)
    }

    /** The CPU usage table `PsiFreeRTOS_PrintCpuUsageInternal` prints. */
    ghost function Table(isIrqContext: bool, counter: u32): seq<Row>
      requires Valid() && !DumpTraps(isIrqContext, counter)
      reads this, allTasks, taskCpuLoad, taskCpuTicks
    {
      if isIrqContext then FreshRows(Live(), runTime, Divisor(counter, cpuMeasStartIncr))
      else StoredRows(Live(), taskCpuLoad[..taskCount], taskCpuTicks[..taskCount])
    }

    /** `PsiFreeRTOS_Init`, together with the zero initialisation of the C statics. */
    constructor Init(config: Config, fatalHandlerSet: bool, tickHandlerSet: bool, infLoopDetection: bool)
      requires config.maxTasks < 0x1_0000
      ensures Valid() && Running() && Live() == []
      ensures this.config == config && this.fatalHandlerSet == fatalHandlerSet
      ensures this.tickHandlerSet == tickHandlerSet && this.infLoopDet == infLoopDetection
      ensures remainingHeap == config.totalHeapSize && lastIdleTime == 0
      ensures cpuMeasStartIncr == 0 && cpuMeasStartTicks == 0
      ensures runTime == map[] && criticalNesting == 0 && !schedulerSuspended && userTickCalls == 0
      ensures fresh(allTasks) && fresh(taskCpuLoad) && fresh(taskCpuTicks)
      ensures forall i :: 0 <= i < config.maxTasks ==> taskCpuLoad[i] == 0 && taskCpuTicks[i] == 0
    {
      this.config := config;
      allTasks := new Handle[config.maxTasks](_ => Handle(0));
      taskCpuLoad := new u8[config.maxTasks](_ => 0);
      taskCpuTicks := new u32[config.maxTasks](_ => 0);
      cpuMeasStartTicks := 0;
      runTime := map[];
      criticalNesting := 0;
      schedulerSuspended := false;
      userTickCalls := 0;
      halted := None;
      taskCount := 0;
      remainingHeap := config.totalHeapSize;
      lastIdleTime := 0;
      cpuMeasStartIncr := 0;
      this.fatalHandlerSet := fatalHandlerSet;
      this.tickHandlerSet := tickHandlerSet;
      this.infLoopDet := infLoopDetection;
    }

    method EnterCritical()
      modifies this`criticalNesting
      ensures criticalNesting == old(criticalNesting) + 1
    {
      criticalNesting := criticalNesting + 1;
    }

    method ExitCritical()
      requires criticalNesting > 0
      modifies this`criticalNesting
      ensures criticalNesting == old(criticalNesting) - 1
    {
      criticalNesting := criticalNesting - 1;
    }

    /**
     * `PsiFreeRTOS_TASK_CREATE`. Below capacity the handle is appended and its
     * slots zeroed. At capacity the fatal handler is called with
     * `CreatedTooManyTasks`, without a NULL check, inside the still open
     * critical section, and the call never returns.
     */
    method TaskCreate(task: Handle)
      requires Valid() && Running()
      modifies this`taskCount, this`criticalNesting, this`halted, allTasks, taskCpuLoad, taskCpuTicks
      ensures Valid()
      ensures old(taskCount) as int >= config.maxTasks ==>
        && halted == Some(if fatalHandlerSet then Fatal(CreatedTooManyTasks, true) else Trap(NullHandlerCall))
        && taskCount == old(taskCount)
        && unchanged(allTasks) && unchanged(taskCpuLoad) && unchanged(taskCpuTicks)
        && criticalNesting == old(criticalNesting) + 1
      ensures old(taskCount) as int < config.maxTasks ==>
        && Running()
        && taskCount == old(taskCount) + 1
        && allTasks[..] == old(allTasks[..])[old(taskCount) := task]
        && taskCpuLoad[..] == old(taskCpuLoad[..])[old(taskCount) := 0]
        && taskCpuTicks[..] == old(taskCpuTicks[..])[old(taskCount) := 0]
        && Live() == old(Live()) + [task]
        && criticalNesting == old(criticalNesting)
    {
      EnterCritical();
      if taskCount as int >= config.maxTasks {
        // the handler pointer is called unchecked; the CPU then spins here for ever
        if fatalHandlerSet {
          halted := Some(Fatal(CreatedTooManyTasks, true));
        } else {
          halted := Some(Trap(NullHandlerCall));
        }
        return;
      }
      allTasks[taskCount] := task;
      taskCpuLoad[taskCount] := 0;
      taskCpuTicks[taskCount] := 0;
      taskCount := taskCount + 1;
      ExitCritical();
    }

    /**
     * `PsiFreeRTOS_TASK_DELETE`, with the read of the slot beyond the array
     * made conditional (see `Registry.DeleteAsWritten` for the loop as
     * written). The first slot holding `task` and every later live slot take
     * their right-hand neighbour's handle, except that in a full registry the
     * last live slot, which has no neighbour inside the array, keeps its own.
     * The load and tick arrays are not shifted, so from the deleted position
     * on they stay with the old slots.
     */
    method TaskDelete(task: Handle)
      requires Valid() && Running() && task in Live()
      modifies this`taskCount, this`criticalNesting, allTasks
      ensures Valid() && Running()
      ensures Live() == RemoveAt(old(Live()), FirstIndex(old(Live()), task))
      ensures taskCount == old(taskCount) - 1
      ensures old(taskCount) as int < allTasks.Length ==> allTasks[taskCount] == old(allTasks[taskCount])
      ensures old(taskCount) as int == allTasks.Length ==> allTasks[taskCount] == old(allTasks[taskCount - 1])
      ensures allTasks[old(taskCount)..] == old(allTasks[taskCount..])
      ensures unchanged(taskCpuLoad) && unchanged(taskCpuTicks)
      ensures criticalNesting == old(criticalNesting)
    {
      EnterCritical();
      ghost var before := allTasks[..];
      ghost var k := FirstIndex(Live(), task);
      ShiftOut(task, k);
      ShiftedIsRemoved(before, allTasks[..], taskCount as int, k);
      taskCount := taskCount - 1;
      ExitCritical();
    }

    /**
     * The loop of `PsiFreeRTOS_TASK_DELETE`: from the first live slot holding
     * `task` (at `k`) on, every live slot takes its right-hand neighbour's
     * handle; the neighbour of the last slot of a full array is not read.
     */
    method ShiftOut(task: Handle, ghost k: nat)
      requires Valid() && k < taskCount as int && allTasks[k] == task && task !in allTasks[..k]
      modifies allTasks
      ensures forall j :: 0 <= j < k ==> allTasks[j] == old(allTasks[j])
      ensures forall j :: k <= j < taskCount as int && j + 1 < allTasks.Length ==> allTasks[j] == old(allTasks[j + 1])
      ensures forall j :: taskCount as int <= j < allTasks.Length ==> allTasks[j] == old(allTasks[j])
      ensures taskCount as int == allTasks.Length ==> allTasks[taskCount - 1] == old(allTasks[taskCount - 1])
    {
      var taskFound := false;
      var i := 0;
      while i < taskCount as int
        invariant 0 <= i <= taskCount as int
        invariant taskFound <==> k < i
        invariant forall j :: 0 <= j < i && j < k ==> allTasks[j] == old(allTasks[j])
        invariant forall j :: k <= j < i && j + 1 < allTasks.Length ==> allTasks[j] == old(allTasks[j + 1])
        invariant forall j :: i <= j < allTasks.Length ==> allTasks[j] == old(allTasks[j])
        invariant taskCount as int == allTasks.Length && i == taskCount as int ==> allTasks[taskCount - 1] == old(allTasks[taskCount - 1])
      {
        if task == allTasks[i] {
          taskFound := true;
        }
        if taskFound && i + 1 < allTasks.Length {
          allTasks[i] := allTasks[i + 1];
        }
        i := i + 1;
      }
    }

    /** `PsiFreeRTOS_MALLOC`: the counter drops by `size`, modulo 2^32. */
    method Malloc(size: u32)
      requires Valid() && Running()
      modifies this`remainingHeap, this`criticalNesting
      ensures Valid() && Running()
      ensures remainingHeap == Heap.Apply(old(remainingHeap), Heap.Alloc(size))
      ensures criticalNesting == old(criticalNesting)
    {
      EnterCritical();
      remainingHeap := Sub32(remainingHeap, size);
      ExitCritical();
    }

    /** `PsiFreeRTOS_FREE`: the counter grows by `size`, modulo 2^32. */
    method Free(size: u32)
      requires Valid() && Running()
      modifies this`remainingHeap, this`criticalNesting
      ensures Valid() && Running()
      ensures remainingHeap == Heap.Apply(old(remainingHeap), Heap.Free(size))
      ensures criticalNesting == old(criticalNesting)
    {
      EnterCritical();
      remainingHeap := Add32(remainingHeap, size);
      ExitCritical();
    }

    /** `PsiFreeRTOS_GetHeap`. */
    function GetHeap(): u32
      reads this
    {
      remainingHeap
    }

    /** `PsiFreeRTOS_GetCpuLoad`: the stored load of the first slot holding `task`, or 0 if it is not registered. */
    method GetCpuLoad(task: Handle) returns (load: u8)
      requires Valid()
      ensures task in Live() ==> load == taskCpuLoad[FirstIndex(Live(), task)]
      ensures task !in Live() ==> load == 0
    {
      var i := 0;
      while i < taskCount as int
        invariant 0 <= i <= taskCount as int
        invariant task !in allTasks[..i]
      {
        if allTasks[i] == task {
          assert Live()[..i] == allTasks[..i];
          return taskCpuLoad[i];
        }
        assert allTasks[..i + 1] == allTasks[..i] + [allTasks[i]];
        i := i + 1;
      }
      assert allTasks[..i] == Live();
      return 0;
    }

    /**
     * `PsiFreeRTOS_StartCpuUsageMeas`: a new epoch starts at hardware counter
     * `counter` and tick `tick`, and the run-time counter of every registered
     * task is cleared.
     */
    method StartCpuUsageMeas(counter: u32, tick: u32)
      requires Valid() && Running()
      modifies this`cpuMeasStartIncr, this`cpuMeasStartTicks, this`runTime, this`criticalNesting
      ensures Valid() && Running()
      ensures cpuMeasStartIncr == counter && cpuMeasStartTicks == tick
      ensures runTime == ClearedFor(old(runTime), Live())
      ensures criticalNesting == old(criticalNesting)
    {
      EnterCritical();
      // the hardware counter is stopped while it is read; `counter` is its value
      cpuMeasStartIncr := counter;
      cpuMeasStartTicks := tick;
      var i := 0;
      while i < taskCount as int
        modifies this`runTime
        invariant 0 <= i <= taskCount as int
        invariant runTime == ClearedFor(old(runTime), allTasks[..i])
      {
        assert allTasks[..i + 1][..i] == allTasks[..i];
        runTime := runTime[allTasks[i] := 0];
        i := i + 1;
      }
      ExitCritical();
    }

    /**
     * `vApplicationIdleHook`: records the idle entry and, once the epoch has
     * lasted `cpuLoadUpdateRateTicks`, stores every registered task's load and
     * run-time counter and starts a new epoch at `restartCounter` and
     * `restartTick`. A divisor of zero with any task registered faults.
     */
    method IdleHook(tick: u32, counter: u32, restartCounter: u32, restartTick: u32)
      requires Valid() && Running()
      modifies this`lastIdleTime, this`cpuMeasStartIncr, this`cpuMeasStartTicks, this`runTime
      modifies this`criticalNesting, this`halted, taskCpuLoad, taskCpuTicks
      ensures Valid() && lastIdleTime == tick && criticalNesting == old(criticalNesting)
      ensures !EpochDue(old(cpuMeasStartTicks), tick, config.cpuLoadUpdateRateTicks) ==>
        && Running() && taskCpuLoad[..] == old(taskCpuLoad[..]) && taskCpuTicks[..] == old(taskCpuTicks[..])
        && runTime == old(runTime)
        && cpuMeasStartIncr == old(cpuMeasStartIncr) && cpuMeasStartTicks == old(cpuMeasStartTicks)
      ensures EpochDue(old(cpuMeasStartTicks), tick, config.cpuLoadUpdateRateTicks) && old(DivisorTraps(counter)) ==>
        && halted == Some(Trap(DivisionByZero))
        && taskCpuLoad[..] == old(taskCpuLoad[..]) && taskCpuTicks[..] == old(taskCpuTicks[..])
        && runTime == old(runTime) && cpuMeasStartIncr == old(cpuMeasStartIncr)
        && cpuMeasStartTicks == old(cpuMeasStartTicks)
      ensures EpochDue(old(cpuMeasStartTicks), tick, config.cpuLoadUpdateRateTicks) && !old(DivisorTraps(counter)) ==>
        && Running()
        && taskCpuLoad[..taskCount] == FreshLoads(Live(), old(runTime), Divisor(counter, old(cpuMeasStartIncr)))
        && taskCpuTicks[..taskCount] == RunTimes(Live(), old(runTime))
        && taskCpuLoad[taskCount..] == old(taskCpuLoad[taskCount..])
        && taskCpuTicks[taskCount..] == old(taskCpuTicks[taskCount..])
        && cpuMeasStartIncr == restartCounter && cpuMeasStartTicks == restartTick
        && runTime == ClearedFor(old(runTime), Live())
    {
      lastIdleTime := tick;
      var now := tick;
      if Sub32(now, cpuMeasStartTicks) >= config.cpuLoadUpdateRateTicks {
        var runSum := Sub32(counter, cpuMeasStartIncr);
        var runSumDiv := runSum / 100;
        StoreLoads(runSumDiv);
        if halted.Some? {
          // the division faulted
          return;
        }
        StartCpuUsageMeas(restartCounter, restartTick);
      }
    }

    /**
     * The refresh loop of `vApplicationIdleHook`: for every registered slot,
     * store the task's load over the epoch and its raw run-time counter.
     * With a zero divisor the first division faults.
     */
    method StoreLoads(runSumDiv: u32)
      requires Valid() && Running()
      modifies this`criticalNesting, this`halted, taskCpuLoad, taskCpuTicks
      ensures criticalNesting == old(criticalNesting)
      ensures runSumDiv == 0 && taskCount > 0 ==>
        && halted == Some(Trap(DivisionByZero))
        && taskCpuLoad[..] == old(taskCpuLoad[..]) && taskCpuTicks[..] == old(taskCpuTicks[..])
      ensures runSumDiv > 0 || taskCount == 0 ==>
        && Running()
        && taskCpuLoad[..taskCount] == FreshLoads(Live(), runTime, runSumDiv)
        && taskCpuTicks[..taskCount] == RunTimes(Live(), runTime)
        && taskCpuLoad[taskCount..] == old(taskCpuLoad[taskCount..])
        && taskCpuTicks[taskCount..] == old(taskCpuTicks[taskCount..])
    {
      var i := 0;
      while true
        invariant 0 <= i <= taskCount as int
        invariant Running() && criticalNesting == old(criticalNesting)
        invariant i > 0 ==> runSumDiv > 0
        invariant forall j :: 0 <= j < i ==> taskCpuTicks[j] == RunTimeOf(runTime, allTasks[j])
        invariant forall j :: 0 <= j < i ==> taskCpuLoad[j] == LoadPercent(RunTimeOf(runTime, allTasks[j]), runSumDiv)
        invariant forall j :: i <= j < taskCpuLoad.Length ==> taskCpuLoad[j] == old(taskCpuLoad[j])
        invariant forall j :: i <= j < taskCpuTicks.Length ==> taskCpuTicks[j] == old(taskCpuTicks[j])
        decreases taskCount as int - i
      {
        EnterCritical();
        if i >= taskCount as int {
          ExitCritical();
          break;
        }
        var hndl := allTasks[i];
        ExitCritical();
        var ticks := RunTimeOf(runTime, hndl);
        if runSumDiv == 0 {
          // unsigned division by zero
          assert taskCpuLoad[..] == old(taskCpuLoad[..]) && taskCpuTicks[..] == old(taskCpuTicks[..]);
          halted := Some(Trap(DivisionByZero));
          return;
        }
        taskCpuLoad[i] := LoadPercent(ticks, runSumDiv);
        taskCpuTicks[i] := ticks;
        i := i + 1;
      }
    }

    /**
     * `PsiFreeRTOS_PrintCpuUsageInternal` with the critical section left on
     * the final pass of the loop, as every other pass leaves it; the printed
     * text is left out and the rows it prints are returned. In interrupt
     * context the loads are computed fresh, otherwise the stored ones are used.
     */
    method PrintCpuUsageInternal(isIrqContext: bool, counter: u32) returns (rows: seq<Row>)
      requires Valid() && Running()
      modifies this`criticalNesting, this`halted
      ensures Valid() && criticalNesting == old(criticalNesting)
      ensures DumpTraps(isIrqContext, counter) ==> halted == Some(Trap(DivisionByZero))
      ensures !DumpTraps(isIrqContext, counter) ==> Running() && rows == Table(isIrqContext, counter)
    {
      var runSum := Sub32(counter, cpuMeasStartIncr);
      var runSumPercent := runSum / 100;
      rows := [];
      var i := 0;
      while true
        modifies this`criticalNesting, this`halted
        invariant 0 <= i <= taskCount as int && |rows| == i
        invariant Running() && criticalNesting == old(criticalNesting)
        invariant isIrqContext && i > 0 ==> runSumPercent > 0
        invariant forall j :: 0 <= j < i ==> rows[j].task == allTasks[j]
        invariant forall j :: 0 <= j < i && !isIrqContext ==> rows[j].load == taskCpuLoad[j] && rows[j].ticks == taskCpuTicks[j]
        invariant forall j :: 0 <= j < i && isIrqContext ==>
          rows[j].load == LoadPercent(RunTimeOf(runTime, allTasks[j]), runSumPercent) && rows[j].ticks == RunTimeOf(runTime, allTasks[j])
        decreases taskCount as int - i
      {
        if !isIrqContext {
          EnterCritical();
        }
        if i >= taskCount as int {
          if !isIrqContext {
            ExitCritical();
          }
          break;
        }
        var hndl := allTasks[i];
        if !isIrqContext {
          ExitCritical();
        }
        var ticks := RunTimeOf(runTime, hndl);
        var cpuLoad: u8, cpuTicks: u32;
        if !isIrqContext {
          cpuLoad, cpuTicks := taskCpuLoad[i], taskCpuTicks[i];
        } else {
          if runSumPercent == 0 {
            // unsigned division by zero
            halted := Some(Trap(DivisionByZero));
            return;
          }
          cpuLoad, cpuTicks := LoadPercent(ticks, runSumPercent), ticks;
        }
        rows := rows + [Row(hndl, cpuLoad, cpuTicks)];
        i := i + 1;
      }
    }

    /**
     * `PsiFreeRTOS_PrintCpuUsageInternal` exactly as written: in normal
     * context the last pass of the loop enters the critical section and
     * breaks out without leaving it.
     */
    method PrintCpuUsageInternalAsWritten(isIrqContext: bool, counter: u32) returns (rows: seq<Row>)
      requires Valid() && Running()
      modifies this`criticalNesting, this`halted
      ensures Valid()
      ensures criticalNesting == old(criticalNesting) + (if isIrqContext then 0 else 1)
      ensures DumpTraps(isIrqContext, counter) ==> halted == Some(Trap(DivisionByZero))
      ensures !DumpTraps(isIrqContext, counter) ==> Running() && rows == Table(isIrqContext, counter)
    {
      var runSum := Sub32(counter, cpuMeasStartIncr);
      var runSumPercent := runSum / 100;
      rows := [];
      var i := 0;
      while true
        modifies this`criticalNesting, this`halted
        invariant 0 <= i <= taskCount as int && |rows| == i
        invariant Running() && criticalNesting == old(criticalNesting)
        invariant isIrqContext && i > 0 ==> runSumPercent > 0
        invariant forall j :: 0 <= j < i ==> rows[j].task == allTasks[j]
        invariant forall j :: 0 <= j < i && !isIrqContext ==> rows[j].load == taskCpuLoad[j] && rows[j].ticks == taskCpuTicks[j]
        invariant forall j :: 0 <= j < i && isIrqContext ==>
          rows[j].load == LoadPercent(RunTimeOf(runTime, allTasks[j]), runSumPercent) && rows[j].ticks == RunTimeOf(runTime, allTasks[j])
        decreases taskCount as int - i
      {
        if !isIrqContext {
          EnterCritical();
        }
        if i >= taskCount as int {
          break;
        }
        var hndl := allTasks[i];
        if !isIrqContext {
          ExitCritical();
        }
        var ticks := RunTimeOf(runTime, hndl);
        var cpuLoad: u8, cpuTicks: u32;
        if !isIrqContext {
          cpuLoad, cpuTicks := taskCpuLoad[i], taskCpuTicks[i];
        } else {
          if runSumPercent == 0 {
            // unsigned division by zero
            halted := Some(Trap(DivisionByZero));
            return;
          }
          cpuLoad, cpuTicks := LoadPercent(ticks, runSumPercent), ticks;
        }
        rows := rows + [Row(hndl, cpuLoad, cpuTicks)];
        i := i + 1;
      }
    }

    /** `PsiFreeRTOS_PrintCpuUsage`: the table of stored loads, printed in normal context. */
    method PrintCpuUsage(counter: u32) returns (rows: seq<Row>)
      requires Valid() && Running()
      modifies this`criticalNesting, this`halted
      ensures Valid() && Running() && criticalNesting == old(criticalNesting)
      ensures rows == StoredRows(Live(), taskCpuLoad[..taskCount], taskCpuTicks[..taskCount])
    {
      rows := PrintCpuUsageInternal(false, counter);
    }

    /**
     * `PsiFreeRTOS_PrintCpuUsage` exactly as written: the normal-context dump
     * returns with the critical section entered once more than on entry.
     */
    method PrintCpuUsageAsWritten(counter: u32) returns (rows: seq<Row>)
      requires Valid() && Running()
      modifies this`criticalNesting, this`halted
      ensures Valid() && Running() && criticalNesting == old(criticalNesting) + 1
      ensures rows == StoredRows(Live(), taskCpuLoad[..taskCount], taskCpuTicks[..taskCount])
    {
      rows := PrintCpuUsageInternalAsWritten(false, counter);
    }

    /**
     * `vApplicationTickHook`. When the watchdog trips, the CPU usage is dumped
     * in interrupt context, the scheduler is suspended, the fatal handler is
     * called if set, and the call never returns; the user's tick handler is
     * not reached. Otherwise the user's tick handler is called if set.
     */
    method TickHook(tick: u32, counter: u32)
      requires Valid() && Running()
      modifies this`halted, this`schedulerSuspended, this`userTickCalls, this`criticalNesting
      ensures Valid() && criticalNesting == old(criticalNesting)
      ensures Watchdog.Trips(infLoopDet, tick, lastIdleTime, config.maxTicksWithoutIdle) && DumpTraps(true, counter) ==>
        && halted == Some(Trap(DivisionByZero))
        && userTickCalls == old(userTickCalls) && schedulerSuspended == old(schedulerSuspended)
      ensures Watchdog.Trips(infLoopDet, tick, lastIdleTime, config.maxTicksWithoutIdle) && !DumpTraps(true, counter) ==>
        && halted == Some(Fatal(InfiniteLoop, fatalHandlerSet))
        && schedulerSuspended && userTickCalls == old(userTickCalls)
      ensures !Watchdog.Trips(infLoopDet, tick, lastIdleTime, config.maxTicksWithoutIdle) ==>
        && Running() && schedulerSuspended == old(schedulerSuspended)
        && userTickCalls == old(userTickCalls) + (if tickHandlerSet then 1 else 0)
    {
      if infLoopDet {
        var currentTime := tick;
        if Sub32(currentTime, lastIdleTime) > config.maxTicksWithoutIdle {
          var rows := PrintCpuUsageInternal(true, counter);
          if halted.Some? {
            // the forensic dump itself faulted
            return;
          }
          schedulerSuspended := true;
          halted := Some(Fatal(InfiniteLoop, fatalHandlerSet));
          return;
        }
      }
      if tickHandlerSet {
        userTickCalls := userTickCalls + 1;
      }
    }

    /** `vApplicationStackOverflowHook`: suspend, call the fatal handler if set, never return. */
    method StackOverflowHook(task: Handle)
      requires Valid() && Running()
      modifies this`schedulerSuspended, this`halted
      ensures Valid() && schedulerSuspended
      ensures halted == Some(Fatal(StackOverflow, fatalHandlerSet))
    {
      schedulerSuspended := true;
      halted := Some(Fatal(StackOverflow, fatalHandlerSet));
    }

    /** `vApplicationMallocFailedHook`: suspend, call the fatal handler if set, never return. */
    method MallocFailedHook()
      requires Valid() && Running()
      modifies this`schedulerSuspended, this`halted
      ensures Valid() && schedulerSuspended
      ensures halted == Some(Fatal(MallocFailed, fatalHandlerSet))
    {
      schedulerSuspended := true;
      halted := Some(Fatal(MallocFailed, fatalHandlerSet));
    }
  }
}
