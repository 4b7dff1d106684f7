/**
 * Properties that span several calls into the layer, stated as client
 * methods whose contracts follow from the operations' contracts alone.
 */
module Scenarios {
  import opened Wrappers
  import opened Uint
  import opened Registry
  import opened CpuLoad
  import opened PsiFreeRTOS

  /** `PsiFreeRTOS_MALLOC(n)` followed by `PsiFreeRTOS_FREE(n)` leaves the heap counter where it was. */
  method MallocThenFree(ctx: Context, n: u32)
    requires ctx.Valid() && ctx.Running()
    modifies ctx
    ensures ctx.Valid() && ctx.Running()
    ensures ctx.remainingHeap == old(ctx.remainingHeap)
  {
    ctx.Malloc(n);
    ctx.Free(n);
    AddUndoesSub(old(ctx.remainingHeap), n);
  }

  /**
   * An interrupt-context dump followed by an idle-hook refresh at the same
   * hardware counter reading: the loads and counters the refresh stores are
   * exactly the ones the dump printed, row by row.
   */
  method RefreshMatchesDump(ctx: Context, tick: u32, counter: u32, restartCounter: u32, restartTick: u32)
    returns (dumped: seq<Row>)
    requires ctx.Valid() && ctx.Running() && !ctx.DumpTraps(true, counter)
    requires EpochDue(ctx.cpuMeasStartTicks, tick, ctx.config.cpuLoadUpdateRateTicks)
    modifies ctx, ctx.taskCpuLoad, ctx.taskCpuTicks
    ensures ctx.Valid() && ctx.Running() && |dumped| == ctx.taskCount as int
    ensures forall i :: 0 <= i < |dumped| ==>
      dumped[i].task == ctx.allTasks[i] && dumped[i].load == ctx.taskCpuLoad[i] && dumped[i].ticks == ctx.taskCpuTicks[i]
  {
    dumped := ctx.PrintCpuUsageInternal(true, counter);
    ctx.IdleHook(tick, counter, restartCounter, restartTick);
  }

  /**
   * Deleting the task in slot `k` moves its successor into slot `k` but
   * leaves the load array as it was, so until the next refresh the
   * successor's lookup returns the deleted task's load.
   */
  method DeleteMisalignsLoad(ctx: Context, k: nat) returns (successorLoad: u8)
    requires ctx.Valid() && ctx.Running() && k + 1 < ctx.taskCount as int && Distinct(ctx.Live())
    modifies ctx, ctx.allTasks
    ensures ctx.Valid() && ctx.Running()
    ensures ctx.allTasks[k] == old(ctx.allTasks[k + 1])
    ensures successorLoad == old(ctx.taskCpuLoad[k])
  {
    ghost var live := ctx.Live();
    var deleted := ctx.allTasks[k];
    assert live[k] == deleted;
    FirstIndexIs(live, deleted, k);
    ctx.TaskDelete(deleted);
    SuccessorFoundAtRemovedPosition(live, k);
    successorLoad := ctx.GetCpuLoad(ctx.allTasks[k]);
  }

  /** Registering three tasks and deleting the middle one leaves the other two, in creation order. */
  method CreateThreeDeleteMiddle(ctx: Context, a: Handle, b: Handle, c: Handle)
    requires ctx.Valid() && ctx.Running() && ctx.Live() == [] && 3 <= ctx.config.maxTasks
    modifies ctx, ctx.allTasks, ctx.taskCpuLoad, ctx.taskCpuTicks
    ensures ctx.Valid() && ctx.Running() && ctx.Live() == [a, c]
  {
    ctx.TaskCreate(a);
    ctx.TaskCreate(b);
    ctx.TaskCreate(c);
    assert ctx.Live() == [a, b, c];
    // when `b == a` the first occurrence goes, which leaves the same two handles
    if b == a {
      assert FirstIndex([a, b, c], b) == 0;
    } else {
      assert FirstIndex([a, b, c], b) == 1;
    }
    ctx.TaskDelete(b);
  }

  /**
   * With capacity 4: create A, B, C; delete B, leaving A, C in that order;
   * create D and E, filling the registry; creating F takes the fatal path
   * with reason `CreatedTooManyTasks` and leaves the registry as it was.
   */
  method RegistryScenario() returns (live: seq<Handle>, halt: Option<Halt>)
    ensures live == [Handle(1), Handle(3), Handle(4), Handle(5)]
    ensures halt == Some(Fatal(CreatedTooManyTasks, true))
  {
    var ctx := new Context.Init(Config(4, 0x1000, 50, 100), true, false, true);
    var a, b, c, d, e, f := Handle(1), Handle(2), Handle(3), Handle(4), Handle(5), Handle(6);
    CreateThreeDeleteMiddle(ctx, a, b, c);
    ctx.TaskCreate(d);
    ctx.TaskCreate(e);
    assert ctx.Running() && ctx.Live() == [a, c, d, e];
    ctx.TaskCreate(f);
    assert ctx.halted == Some(Fatal(CreatedTooManyTasks, true));
    live, halt := ctx.allTasks[..ctx.taskCount], ctx.halted;
  }
}
