/**
 * The CPU accounting arithmetic: the per-task load formula shared by the
 * periodic refresh in the idle hook and by the interrupt-context dump, the
 * epoch-restart test, and the clearing of the scheduler's per-task run-time
 * counters when a new measurement epoch starts.
 *
 * The scheduler's run-time counters are an abstract map from task to the
 * 32-bit `ulRunTimeCounter` it reports; a task the map does not mention
 * reports zero.
 */
module CpuLoad {
  import opened Uint

  /**
   * `runSum / 100`, where `runSum` is the wrapping difference between the
   * free-running hardware counter now and at the start of the epoch.
   */
  function Divisor(counterNow: u32, startIncr: u32): (d: u32)
    ensures 100 * d as int <= Sub32(counterNow, startIncr) as int < 100 * (d as int + 1)
  {
    Sub32(counterNow, startIncr) / 100
  }

  /** The stored or printed load of one task: `(uint8_t)(runTime / divisor)`. */
  function LoadPercent(runTime: u32, divisor: u32): (load: u8)
    requires divisor > 0
    ensures runTime as int < 256 * divisor as int ==>
      load as int * divisor as int <= runTime as int < (load as int + 1) * divisor as int
  {
    var t, d := runTime as int, divisor as int;
    if t < 256 * d then
      QuotientBelow(t, d, 256);
      QuotientBrackets(t, d);
      Trunc8(runTime / divisor)
    else
      Trunc8(runTime / divisor)
  }

  /** The truncated quotient is the number of whole divisors in the dividend. */
  lemma QuotientBrackets(x: int, y: int)
    requires 0 <= x && 0 < y
    ensures (x / y) * y <= x < (x / y + 1) * y
  {
  }

  /** The run-time counter the scheduler reports for `task`. */
  function RunTimeOf<K>(counters: map<K, u32>, task: K): u32
  {
    if task in counters then counters[task] else 0
  }

  /** True when the idle hook must store the loads and restart the epoch. */
  predicate EpochDue(startTicks: u32, now: u32, updateRateTicks: u32)
  {
    Sub32(now, startTicks) >= updateRateTicks
  }

  /**
   * Whatever the tick counter did in between (wrap-around included), the
   * epoch is due exactly when the true number of ticks since its start
   * reaches the update rate, for any true distance below 2^32.
   */
  lemma EpochDueIffElapsedReaches(startTicks: u32, elapsed: int, updateRateTicks: u32)
    requires 0 <= elapsed < TWO_TO_THE_32
    ensures EpochDue(startTicks, ((startTicks as int + elapsed) % TWO_TO_THE_32) as u32, updateRateTicks)
            <==> elapsed >= updateRateTicks as int
  {
    ElapsedAcrossWrap(startTicks, elapsed);
  }

  /** The loads of `tasks`, in registry order, from the counters as they stand. */
  function FreshLoads<K>(tasks: seq<K>, counters: map<K, u32>, divisor: u32): (loads: seq<u8>)
    requires tasks != [] ==> divisor > 0
    ensures |loads| == |tasks|
  {
    seq(|tasks|, i requires 0 <= i < |tasks| => LoadPercent(RunTimeOf(counters, tasks[i]), divisor))
  }

  /** The raw run-time counters of `tasks`, in registry order. */
  function RunTimes<K>(tasks: seq<K>, counters: map<K, u32>): (ticks: seq<u32>)
    ensures |ticks| == |tasks|
  {
    seq(|tasks|, i requires 0 <= i < |tasks| => RunTimeOf(counters, tasks[i]))
  }

  /** The counters after clearing those of `tasks` one after the other, as the restart loop does. */
  function ClearedFor<K>(counters: map<K, u32>, tasks: seq<K>): (cleared: map<K, u32>)
    ensures cleared.Keys == counters.Keys + set t | t in tasks
  {
    if tasks == [] then counters
    else ClearedFor(counters, tasks[..|tasks| - 1])[tasks[|tasks| - 1] := 0]
  }

  /** After the restart loop, exactly the listed tasks read zero; every other task keeps its counter. */
  lemma {:induction false} ClearedForAt<K>(counters: map<K, u32>, tasks: seq<K>, task: K)
    ensures RunTimeOf(ClearedFor(counters, tasks), task) == if task in tasks then 0 else RunTimeOf(counters, task)
  {
    if tasks != [] {
      var prefix := tasks[..|tasks| - 1];
      assert tasks == prefix + [tasks[|tasks| - 1]];
      assert task in tasks <==> task in prefix || task == tasks[|tasks| - 1];
      ClearedForAt(counters, prefix, task);
    }
  }

  /** Right after a restart every registered task has load 0: the new epoch counts only time since the reset. */
  lemma RestartZeroesLoads<K>(counters: map<K, u32>, tasks: seq<K>, divisor: u32)
    requires divisor > 0
    ensures forall i :: 0 <= i < |tasks| ==> FreshLoads(tasks, ClearedFor(counters, tasks), divisor)[i] == 0
  {
    var cleared := ClearedFor(counters, tasks);
    assert 0 / divisor == 0;
    forall i | 0 <= i < |tasks|
      ensures FreshLoads(tasks, cleared, divisor)[i] == 0
    {
      ClearedForAt(counters, tasks, tasks[i]);
      assert RunTimeOf(cleared, tasks[i]) == 0;
      assert LoadPercent(0, divisor) == Trunc8(0);
    }
  }

  /** Integer division is monotone in the dividend. */
  lemma DivMonotone(a: int, b: int, q: int)
    requires 0 <= a <= b && 0 < q
    ensures a / q <= b / q
  {
    assert (a / q) * q <= a;
    assert b < (b / q + 1) * q;
    ProductCancel(a / q, b / q + 1, q);
  }

  /** A strict inequality between multiples of the same positive number carries over to the factors. */
  lemma ProductCancel(x: int, y: int, q: int)
    requires 0 < q && x * q < y * q
    ensures x < y
  {
  }

  /** `x < k * y` bounds the quotient: `x / y < k`. */
  lemma QuotientBelow(x: int, y: int, k: int)
    requires 0 <= x && 0 < y && 0 <= k && x < k * y
    ensures x / y < k
  {
  }

  /**
   * Because the divisor `runSum / 100` is itself truncated, the stored load is
   * never below the exact truncated percentage `100 * runTime / runSum` of a
   * task that ran at most `runSum` counter increments, and it stays below 200,
   * so the 8-bit cast never changes it.
   */
  lemma LoadNotBelowExactPercent(runTime: u32, runSum: u32)
    requires 100 <= runSum && runTime <= runSum
    ensures 100 * (runTime as int) / (runSum as int) <= LoadPercent(runTime, runSum / 100) as int < 200
    ensures LoadPercent(runTime, runSum / 100) as int == (runTime / (runSum / 100)) as int
  {
    var t, s := runTime as int, runSum as int;
    var q := s / 100;
    assert 1 <= q && 100 * q <= s < 100 * q + 100;
    var l := t / q;
    // the quotient before the cast is below 200, so the cast keeps it
    assert s < 200 * q;
    QuotientBelow(s, q, 200);
    DivMonotone(t, s, q);
    assert (runTime / (runSum / 100)) as int == l < 200;
    // 100 * t < (l + 1) * s, hence 100 * t / s <= l
    assert t < (l + 1) * q;
    assert 100 * t < (l + 1) * (100 * q);
    assert (l + 1) * (100 * q) <= (l + 1) * s;
    QuotientBelow(100 * t, s, l + 1);
  }

  /** Once the epoch spans at least 10000 counter increments, a task's load is at most 100. */
  lemma LoadAtMostHundred(runTime: u32, runSum: u32)
    requires 10000 <= runSum && runTime <= runSum
    ensures LoadPercent(runTime, runSum / 100) <= 100
  {
    var t, s := runTime as int, runSum as int;
    var q := s / 100;
    assert 100 <= q && s < 100 * q + 100 <= 101 * q;
    QuotientBelow(s, q, 101);
    DivMonotone(t, s, q);
    LoadNotBelowExactPercent(runTime, runSum);
  }

  /** In an epoch shorter than 10000 increments the load can exceed 100: 199 increments, all of them one task's. */
  lemma ShortEpochOverReports()
    ensures LoadPercent(199, Divisor(199, 0)) == 199
  {
  }

  /** Epoch started at counter 1000, counter now 2000, task ran 250 increments: load 25. */
  lemma LoadExample()
    ensures LoadPercent(250, Divisor(2000, 1000)) == 25
  {
  }
}
