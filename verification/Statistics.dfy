/** What happened in the cycles of a control loop, and the quantities a summary of it may have.
    All times are integer nanoseconds of one clock. */
module CycleHistory {
  import opened Scheduling

  const MILLISECOND: int := 1_000_000
  const CONTROL_PERIOD: int := MILLISECOND

  /** The clock readings of one cycle, and the processor it ran on (negative if unknown). */
  datatype Cycle = Cycle(scheduledStart: int, cycleStart: int, controlStart: int, controlEnd: int,
                         snapshotStart: int, snapshotEnd: int, actualEnd: int, processor: int)
  {
    function Delay(): int { SchedulingDelay(cycleStart, scheduledStart) }
    function Execution(): int { actualEnd - cycleStart }
    function Margin(): int { scheduledStart + CONTROL_PERIOD - actualEnd }
    predicate Missed() { actualEnd > scheduledStart + CONTROL_PERIOD }

    /** Behind schedule, for a scheduler with period `p`. */
    predicate Delayed(p: int) { HasBacklog(p, cycleStart, scheduledStart) }

    function Excess(p: int): int { Backlog(p, cycleStart, scheduledStart) }
  }

  // ---------------------------------------------------------------- sequences of numbers

  function Sum(s: seq<int>): int {
    if s == [] then 0 else Sum(s[..|s| - 1]) + s[|s| - 1]
  }

  /** `m` is the largest of 0 and the elements of `s`. */
  ghost predicate IsMax(m: int, s: seq<int>) {
    m >= 0 && (forall k | 0 <= k < |s| :: s[k] <= m) && (m == 0 || m in s)
  }

  ghost predicate IsMin(m: int, s: seq<int>) {
    m in s && forall k | 0 <= k < |s| :: m <= s[k]
  }

  /** How many cycles satisfy `p`. */
  function Count(h: seq<Cycle>, p: Cycle -> bool): nat {
    if h == [] then 0 else Count(h[..|h| - 1], p) + if p(h[|h| - 1]) then 1 else 0
  }

  function Each(h: seq<Cycle>, f: Cycle -> int): seq<int> {
    seq(|h|, k requires 0 <= k < |h| => f(h[k]))
  }

  /** From a moment of each cycle to the next cycle's start. */
  function UntilNext(h: seq<Cycle>, from: Cycle -> int): seq<int> {
    if h == [] then [] else seq(|h| - 1, k requires 0 <= k < |h| - 1 => h[k + 1].cycleStart - from(h[k]))
  }

  /** From each cycle's start to the next one's. */
  function Periods(h: seq<Cycle>): seq<int> {
    UntilNext(h, (c: Cycle) => c.cycleStart)
  }

  /** From each cycle's end to the next one's start. */
  function Gaps(h: seq<Cycle>): seq<int> {
    UntilNext(h, (c: Cycle) => c.actualEnd)
  }

  /** The known processors, in order. */
  function Processors(h: seq<Cycle>): (known: seq<int>)
    ensures forall k | 0 <= k < |known| :: known[k] >= 0
  {
    if h == [] then [] else Processors(h[..|h| - 1]) + if h[|h| - 1].processor >= 0 then [h[|h| - 1].processor] else []
  }

  function Changes(s: seq<int>): nat {
    if |s| < 2 then 0 else Changes(s[..|s| - 1]) + if s[|s| - 1] != s[|s| - 2] then 1 else 0
  }

  /** The `len` cycles from `start` on are all delayed. */
  ghost predicate DelayedRun(h: seq<Cycle>, p: int, start: nat, len: nat) {
    start + len <= |h| && forall k | start <= k < start + len :: h[k].Delayed(p)
  }

  ghost predicate IsLongestRun(m: nat, h: seq<Cycle>, p: int) {
    (exists start: nat :: DelayedRun(h, p, start, m)) && forall start: nat, len: nat | DelayedRun(h, p, start, len) :: len <= m
  }

  /** The history ends with exactly `m` delayed cycles. */
  ghost predicate IsLastRun(m: nat, h: seq<Cycle>, p: int) {
    m <= |h| && DelayedRun(h, p, |h| - m, m) && (m < |h| ==> !h[|h| - m - 1].Delayed(p))
  }

  /** Readings of a clock that never goes back. */
  ghost predicate Monotone(h: seq<Cycle>) {
    && (forall k | 0 <= k < |h| :: h[k].cycleStart <= h[k].actualEnd)
    && (forall k | 0 <= k < |h| - 1 :: h[k].actualEnd <= h[k + 1].cycleStart)
  }

  // ---------------------------------------------------------------- one more cycle

  lemma CountOneMore(h: seq<Cycle>, c: Cycle, p: Cycle -> bool)
    ensures Count(h + [c], p) == Count(h, p) + if p(c) then 1 else 0
  {
    assert (h + [c])[..|h|] == h;
  }

  lemma SumOneMore(s: seq<int>, x: int)
    ensures Sum(s + [x]) == Sum(s) + x
  {
    assert (s + [x])[..|s|] == s;
  }

  lemma MaxOneMore(m: int, s: seq<int>, x: int)
    requires IsMax(m, s)
    ensures IsMax(if x > m then x else m, s + [x])
  {
  }

  lemma MinOneMore(m: int, s: seq<int>, x: int)
    requires s == [] || IsMin(m, s)
    ensures IsMin(if s == [] || x < m then x else m, s + [x])
  {
  }

  lemma EachOneMore(h: seq<Cycle>, c: Cycle, f: Cycle -> int)
    ensures Each(h + [c], f) == Each(h, f) + [f(c)]
  {
  }

  lemma UntilNextOneMore(h: seq<Cycle>, c: Cycle, from: Cycle -> int)
    ensures UntilNext(h + [c], from) == if h == [] then [] else UntilNext(h, from) + [c.cycleStart - from(h[|h| - 1])]
  {
    if h != [] {
      var h', n := h + [c], |h| - 1;
      assert |UntilNext(h', from)| == n + 1;
      forall k | 0 <= k < n
        ensures UntilNext(h', from)[k] == UntilNext(h, from)[k]
      {
        assert h'[k] == h[k] && h'[k + 1] == h[k + 1];
      }
      assert UntilNext(h', from)[n] == c.cycleStart - from(h[n]);
    }
  }

  lemma PeriodsOneMore(h: seq<Cycle>, c: Cycle)
    ensures Periods(h + [c]) == if h == [] then [] else Periods(h) + [c.cycleStart - h[|h| - 1].cycleStart]
    ensures |Periods(h)| == if h == [] then 0 else |h| - 1
  {
    UntilNextOneMore(h, c, (c: Cycle) => c.cycleStart);
  }

  lemma GapsOneMore(h: seq<Cycle>, c: Cycle)
    ensures Gaps(h + [c]) == if h == [] then [] else Gaps(h) + [c.cycleStart - h[|h| - 1].actualEnd]
  {
    UntilNextOneMore(h, c, (c: Cycle) => c.actualEnd);
  }

  lemma ProcessorsOneMore(h: seq<Cycle>, c: Cycle)
    ensures Processors(h + [c]) == Processors(h) + if c.processor >= 0 then [c.processor] else []
  {
    assert (h + [c])[..|h|] == h;
  }

  lemma ChangesOneMore(s: seq<int>, x: int)
    ensures Changes(s + [x]) == Changes(s) + if s != [] && x != s[|s| - 1] then 1 else 0
  {
    assert (s + [x])[..|s|] == s;
  }

  lemma RunOneMore(h: seq<Cycle>, c: Cycle, p: int, longest: nat, last: nat)
    requires IsLongestRun(longest, h, p) && IsLastRun(last, h, p)
    ensures var last' := if c.Delayed(p) then last + 1 else 0;
            && IsLastRun(last', h + [c], p)
            && IsLongestRun(if last' > longest then last' else longest, h + [c], p)
  {
    var h', last' := h + [c], if c.Delayed(p) then last + 1 else 0;
    assert IsLastRun(last', h', p);
    var start: nat :| DelayedRun(h, p, start, longest);
    assert DelayedRun(h', p, start, longest);
    assert DelayedRun(h', p, |h'| - last', last');
    forall start: nat, len: nat | DelayedRun(h', p, start, len)
      ensures len <= if last' > longest then last' else longest
    {
      if start + len <= |h| {
        assert DelayedRun(h, p, start, len) by {
          forall k | start <= k < start + len ensures h[k].Delayed(p) { assert h'[k].Delayed(p); }
        }
      } else if len > 0 {
        assert h'[|h|].Delayed(p);
        assert last < |h| ==> h'[|h| - last - 1] == h[|h| - last - 1];
      }
    }
  }
}

/** The control loop's timing statistics, updated in place by one function each. */
module ControlLoopTiming {
  import opened Scheduling
  import opened CycleHistory

  class Statistics {
    const schedulerPeriod: int

    var previousProcessor: int
    var processorChanges: nat

    var previousCycle: int
    var minPeriod: int
    var maxPeriod: int
    var totalPeriod: int

    var delayedCycles: nat
    var consecutiveDelayedCycles: nat
    var maxConsecutiveDelayedCycles: nat
    var maxBacklog: int
    var backlogCycles: nat

    var maxControlTime: int
    var maxSnapshotTime: int

    var previousCycleEnd: int
    var maxInterCycleGap: int

    var delayUnder100us: nat
    var delay100usTo1ms: nat
    var delay1msTo5ms: nat
    var delay5msTo10ms: nat
    var delayOver10ms: nat
    var maxSchedulingDelay: int

    var minDeadlineMargin: int
    var maxExecutionTime: int

    var deadlineMisses: nat
    var schedulingMisses: nat
    var executionMisses: nat
    var combinedMisses: nat

    var measuredCycles: nat

    // ------------------------------------------------------------ what the fields summarise

    ghost predicate ProcessorSummary(h: seq<Cycle>)
      reads `previousProcessor, `processorChanges
    {
      var known := Processors(h);
      && previousProcessor == (if known == [] then -1 else known[|known| - 1])
      && processorChanges == Changes(known)
    }

    ghost predicate PeriodSummary(h: seq<Cycle>)
      reads `previousCycle, `minPeriod, `maxPeriod, `totalPeriod
    {
      && (h != [] ==> previousCycle == h[|h| - 1].cycleStart)
      && (if |h| < 2 then minPeriod == 0 else IsMin(minPeriod, Periods(h)))
      && IsMax(maxPeriod, Periods(h)) && totalPeriod == Sum(Periods(h))
    }

    ghost predicate DelaySummary(h: seq<Cycle>)
      reads `delayedCycles, `consecutiveDelayedCycles, `maxConsecutiveDelayedCycles, `maxBacklog, `backlogCycles
    {
      && delayedCycles == Count(h, (c: Cycle) => c.Delayed(schedulerPeriod))
      && IsLastRun(consecutiveDelayedCycles, h, schedulerPeriod)
      && IsLongestRun(maxConsecutiveDelayedCycles, h, schedulerPeriod)
      && IsMax(maxBacklog, Each(h, (c: Cycle) => c.Excess(schedulerPeriod)))
      && backlogCycles == Count(h, (c: Cycle) => c.Delayed(schedulerPeriod) && c.Excess(schedulerPeriod) >= CONTROL_PERIOD)
    }

    ghost predicate ControlSummary(h: seq<Cycle>)
      reads `maxControlTime
    {
      IsMax(maxControlTime, Each(h, (c: Cycle) => c.controlEnd - c.controlStart))
    }

    ghost predicate SnapshotSummary(h: seq<Cycle>)
      reads `maxSnapshotTime
    {
      IsMax(maxSnapshotTime, Each(h, (c: Cycle) => c.snapshotEnd - c.snapshotStart))
    }

    ghost predicate ExecutionSummary(h: seq<Cycle>)
      reads `maxExecutionTime
    {
      IsMax(maxExecutionTime, Each(h, (c: Cycle) => c.Execution()))
    }

    ghost predicate GapSummary(h: seq<Cycle>)
      reads `previousCycleEnd, `maxInterCycleGap
    {
      && (h != [] ==> previousCycleEnd == h[|h| - 1].actualEnd)
      && IsMax(maxInterCycleGap, Gaps(h))
    }

    ghost predicate SchedulingSummary(h: seq<Cycle>)
      reads `delayUnder100us, `delay100usTo1ms, `delay1msTo5ms, `delay5msTo10ms, `delayOver10ms, `maxSchedulingDelay
    {
      && delayUnder100us == Count(h, (c: Cycle) => c.Delay() < 100_000)
      && delay100usTo1ms == Count(h, (c: Cycle) => 100_000 <= c.Delay() < MILLISECOND)
      && delay1msTo5ms == Count(h, (c: Cycle) => MILLISECOND <= c.Delay() < 5 * MILLISECOND)
      && delay5msTo10ms == Count(h, (c: Cycle) => 5 * MILLISECOND <= c.Delay() < 10 * MILLISECOND)
      && delayOver10ms == Count(h, (c: Cycle) => 10 * MILLISECOND <= c.Delay())
      && IsMax(maxSchedulingDelay, Each(h, (c: Cycle) => c.Delay()))
    }

    ghost predicate DeadlineSummary(h: seq<Cycle>)
      reads `minDeadlineMargin
    {
      if h == [] then minDeadlineMargin == 0 else IsMin(minDeadlineMargin, Each(h, (c: Cycle) => c.Margin()))
    }

    ghost predicate MissSummary(h: seq<Cycle>)
      reads `deadlineMisses, `schedulingMisses, `executionMisses, `combinedMisses
    {
      && deadlineMisses == Count(h, (c: Cycle) => c.Missed())
      && schedulingMisses == Count(h, (c: Cycle) => c.Missed() && c.Delay() > 0 && c.Execution() <= CONTROL_PERIOD)
      && executionMisses == Count(h, (c: Cycle) => c.Missed() && c.Delay() <= 0)
      && combinedMisses == Count(h, (c: Cycle) => c.Missed() && c.Delay() > 0 && c.Execution() > CONTROL_PERIOD)
    }

    /** Every field agrees with the history of cycles. */
    ghost predicate Summarises(h: seq<Cycle>)
      reads this
    {
      && measuredCycles == |h|
      && ProcessorSummary(h) && PeriodSummary(h) && DelaySummary(h)
      && ControlSummary(h) && SnapshotSummary(h) && ExecutionSummary(h) && GapSummary(h)
      && SchedulingSummary(h) && DeadlineSummary(h) && MissSummary(h)
    }

    // ------------------------------------------------------------ the update functions

    constructor (schedulerPeriod: int)
      ensures Summarises([]) && this.schedulerPeriod == schedulerPeriod
    {
      this.schedulerPeriod := schedulerPeriod;
      previousProcessor, processorChanges := -1, 0;
      previousCycle, minPeriod, maxPeriod, totalPeriod := 0, 0, 0, 0;
      delayedCycles, consecutiveDelayedCycles, maxConsecutiveDelayedCycles, maxBacklog, backlogCycles := 0, 0, 0, 0, 0;
      maxControlTime, maxSnapshotTime, maxExecutionTime := 0, 0, 0;
      previousCycleEnd, maxInterCycleGap := 0, 0;
      delayUnder100us, delay100usTo1ms, delay1msTo5ms, delay5msTo10ms, delayOver10ms := 0, 0, 0, 0, 0;
      maxSchedulingDelay, minDeadlineMargin := 0, 0;
      deadlineMisses, schedulingMisses, executionMisses, combinedMisses := 0, 0, 0, 0;
      measuredCycles := 0;
      new;
      assert DelayedRun([], schedulerPeriod, 0, 0);
    }

    method UpdateProcessorStatistics(processor: int, ghost h: seq<Cycle>, ghost c: Cycle)
      requires ProcessorSummary(h) && processor == c.processor
      modifies `previousProcessor, `processorChanges
      ensures ProcessorSummary(h + [c])
    {
      ProcessorsOneMore(h, c);
      ChangesOneMore(Processors(h), processor);
      assert Processors(h) + [] == Processors(h);
      if processor >= 0 {
        if previousProcessor >= 0 && processor != previousProcessor {
          processorChanges := processorChanges + 1;
        }
        previousProcessor := processor;
      }
    }

    method UpdatePeriodStatistics(cycleStart: int, ghost h: seq<Cycle>, ghost c: Cycle)
      requires PeriodSummary(h) && measuredCycles == |h| && cycleStart == c.cycleStart
      modifies `previousCycle, `minPeriod, `maxPeriod, `totalPeriod
      ensures PeriodSummary(h + [c])
    {
      hide Periods, Sum, IsMax, IsMin;
      PeriodsOneMore(h, c);
      if measuredCycles > 0 {
        var period := cycleStart - previousCycle;
        MinOneMore(minPeriod, Periods(h), period);
        MaxOneMore(maxPeriod, Periods(h), period);
        SumOneMore(Periods(h), period);
        if measuredCycles == 1 || period < minPeriod {
          minPeriod := period;
        }
        if period > maxPeriod {
          maxPeriod := period;
        }
        totalPeriod := totalPeriod + period;
      }
      previousCycle := cycleStart;
    }

    method UpdateDelayStatistics(behindSchedule: bool, cycleStart: int, scheduledStart: int, ghost h: seq<Cycle>, ghost c: Cycle)
      requires DelaySummary(h) && cycleStart == c.cycleStart && scheduledStart == c.scheduledStart
      requires behindSchedule == c.Delayed(schedulerPeriod)
      modifies `delayedCycles, `consecutiveDelayedCycles, `maxConsecutiveDelayedCycles, `maxBacklog, `backlogCycles
      ensures DelaySummary(h + [c])
    {
      ghost var p := schedulerPeriod;
      CountOneMore(h, c, (c: Cycle) => c.Delayed(p));
      CountOneMore(h, c, (c: Cycle) => c.Delayed(p) && c.Excess(p) >= CONTROL_PERIOD);
      EachOneMore(h, c, (c: Cycle) => c.Excess(p));
      MaxOneMore(maxBacklog, Each(h, (c: Cycle) => c.Excess(p)), c.Excess(p));
      RunOneMore(h, c, p, maxConsecutiveDelayedCycles, consecutiveDelayedCycles);
      if behindSchedule {
        delayedCycles := delayedCycles + 1;
        consecutiveDelayedCycles := consecutiveDelayedCycles + 1;
        if consecutiveDelayedCycles > maxConsecutiveDelayedCycles {
          maxConsecutiveDelayedCycles := consecutiveDelayedCycles;
        }
        var backlog := Backlog(schedulerPeriod, cycleStart, scheduledStart);
        if backlog > maxBacklog {
          maxBacklog := backlog;
        }
        if backlog >= CONTROL_PERIOD {
          backlogCycles := backlogCycles + 1;
        }
      } else {
        consecutiveDelayedCycles := 0;
      }
    }

    method UpdateControlStatistics(controlStart: int, controlEnd: int, ghost h: seq<Cycle>, ghost c: Cycle)
      requires ControlSummary(h) && controlStart == c.controlStart && controlEnd == c.controlEnd
      modifies `maxControlTime
      ensures ControlSummary(h + [c])
    {
      EachOneMore(h, c, (c: Cycle) => c.controlEnd - c.controlStart);
      var controlTime := controlEnd - controlStart;
      MaxOneMore(maxControlTime, Each(h, (c: Cycle) => c.controlEnd - c.controlStart), controlTime);
      if controlTime > maxControlTime {
        maxControlTime := controlTime;
      }
    }

    method UpdateSnapshotStatistics(snapshotStart: int, snapshotEnd: int, ghost h: seq<Cycle>, ghost c: Cycle)
      requires SnapshotSummary(h) && snapshotStart == c.snapshotStart && snapshotEnd == c.snapshotEnd
      modifies `maxSnapshotTime
      ensures SnapshotSummary(h + [c])
    {
      EachOneMore(h, c, (c: Cycle) => c.snapshotEnd - c.snapshotStart);
      var snapshotTime := snapshotEnd - snapshotStart;
      MaxOneMore(maxSnapshotTime, Each(h, (c: Cycle) => c.snapshotEnd - c.snapshotStart), snapshotTime);
      if snapshotTime > maxSnapshotTime {
        maxSnapshotTime := snapshotTime;
      }
    }

    method UpdateExecutionStatistics(actualStart: int, actualEnd: int, ghost h: seq<Cycle>, ghost c: Cycle) returns (executionTime: int)
      requires ExecutionSummary(h) && actualStart == c.cycleStart && actualEnd == c.actualEnd
      modifies `maxExecutionTime
      ensures ExecutionSummary(h + [c]) && executionTime == c.Execution()
    {
      EachOneMore(h, c, (c: Cycle) => c.Execution());
      executionTime := actualEnd - actualStart;
      MaxOneMore(maxExecutionTime, Each(h, (c: Cycle) => c.Execution()), executionTime);
      if executionTime > maxExecutionTime {
        maxExecutionTime := executionTime;
      }
    }

    method UpdateInterCycleStatistics(cycleStart: int, cycleEnd: int, ghost h: seq<Cycle>, ghost c: Cycle)
      requires GapSummary(h) && measuredCycles == |h| && cycleStart == c.cycleStart && cycleEnd == c.actualEnd
      modifies `previousCycleEnd, `maxInterCycleGap
      ensures GapSummary(h + [c])
    {
      GapsOneMore(h, c);
      if measuredCycles > 0 {
        var gap := cycleStart - previousCycleEnd;
        MaxOneMore(maxInterCycleGap, Gaps(h), gap);
        if gap > maxInterCycleGap {
          maxInterCycleGap := gap;
        }
      }
      previousCycleEnd := cycleEnd;
    }

    method UpdateSchedulingStatistics(schedulingDelay: int, ghost h: seq<Cycle>, ghost c: Cycle)
      requires SchedulingSummary(h) && schedulingDelay == c.Delay()
      modifies `delayUnder100us, `delay100usTo1ms, `delay1msTo5ms, `delay5msTo10ms, `delayOver10ms, `maxSchedulingDelay
      ensures SchedulingSummary(h + [c])
    {
      CountOneMore(h, c, (c: Cycle) => c.Delay() < 100_000);
      CountOneMore(h, c, (c: Cycle) => 100_000 <= c.Delay() < MILLISECOND);
      CountOneMore(h, c, (c: Cycle) => MILLISECOND <= c.Delay() < 5 * MILLISECOND);
      CountOneMore(h, c, (c: Cycle) => 5 * MILLISECOND <= c.Delay() < 10 * MILLISECOND);
      CountOneMore(h, c, (c: Cycle) => 10 * MILLISECOND <= c.Delay());
      EachOneMore(h, c, (c: Cycle) => c.Delay());
      MaxOneMore(maxSchedulingDelay, Each(h, (c: Cycle) => c.Delay()), schedulingDelay);
      if schedulingDelay < 100_000 {
        delayUnder100us := delayUnder100us + 1;
      } else if schedulingDelay < 1_000_000 {
        delay100usTo1ms := delay100usTo1ms + 1;
      } else if schedulingDelay < 5_000_000 {
        delay1msTo5ms := delay1msTo5ms + 1;
      } else if schedulingDelay < 10_000_000 {
        delay5msTo10ms := delay5msTo10ms + 1;
      } else {
        delayOver10ms := delayOver10ms + 1;
      }
      if schedulingDelay > maxSchedulingDelay {
        maxSchedulingDelay := schedulingDelay;
      }
    }

    method UpdateDeadlineStatistics(deadline: int, actualEnd: int, cycles: nat, ghost h: seq<Cycle>, ghost c: Cycle)
      requires DeadlineSummary(h) && cycles == |h| && deadline - actualEnd == c.Margin()
      modifies `minDeadlineMargin
      ensures DeadlineSummary(h + [c])
    {
      EachOneMore(h, c, (c: Cycle) => c.Margin());
      var margin := deadline - actualEnd;
      MinOneMore(minDeadlineMargin, Each(h, (c: Cycle) => c.Margin()), margin);
      if cycles == 0 || margin < minDeadlineMargin {
        minDeadlineMargin := margin;
      }
    }

    method UpdateMissStatistics(actualEnd: int, deadline: int, schedulingDelay: int, execution: int,
                                ghost h: seq<Cycle>, ghost c: Cycle)
      requires MissSummary(h) && (actualEnd > deadline <==> c.Missed())
      requires schedulingDelay == c.Delay() && execution == c.Execution()
      modifies `deadlineMisses, `schedulingMisses, `executionMisses, `combinedMisses
      ensures MissSummary(h + [c])
    {
      CountOneMore(h, c, (c: Cycle) => c.Missed());
      CountOneMore(h, c, (c: Cycle) => c.Missed() && c.Delay() > 0 && c.Execution() <= CONTROL_PERIOD);
      CountOneMore(h, c, (c: Cycle) => c.Missed() && c.Delay() <= 0);
      CountOneMore(h, c, (c: Cycle) => c.Missed() && c.Delay() > 0 && c.Execution() > CONTROL_PERIOD);
      if actualEnd > deadline {
        deadlineMisses := deadlineMisses + 1;
        var schedulingOverrun := schedulingDelay > 0;
        var executionOverrun := execution > CONTROL_PERIOD;
        if schedulingOverrun && executionOverrun {
          combinedMisses := combinedMisses + 1;
        } else if schedulingOverrun {
          schedulingMisses := schedulingMisses + 1;
        } else {
          executionMisses := executionMisses + 1;
        }
      }
    }

    /** The statistics of one cycle of `update()`, in the order in which the cycle makes them. */
    method Record(c: Cycle, ghost h: seq<Cycle>) returns (executionTime: int)
      requires Summarises(h)
      modifies this
      ensures Summarises(h + [c]) && executionTime == c.Execution()
    {
      hide ProcessorSummary, PeriodSummary, DelaySummary, ControlSummary, SnapshotSummary, ExecutionSummary;
      hide GapSummary, SchedulingSummary, DeadlineSummary, MissSummary;
      RecordStart(c, h);
      RecordWork(c, h);
      executionTime := RecordEnd(c, h);
      measuredCycles := measuredCycles + 1;
    }

    /** Up to the point where the robot is updated. */
    method RecordStart(c: Cycle, ghost h: seq<Cycle>)
      requires ProcessorSummary(h) && PeriodSummary(h) && DelaySummary(h) && measuredCycles == |h|
      modifies `previousProcessor, `processorChanges, `previousCycle, `minPeriod, `maxPeriod, `totalPeriod
      modifies `delayedCycles, `consecutiveDelayedCycles, `maxConsecutiveDelayedCycles, `maxBacklog, `backlogCycles
      ensures ProcessorSummary(h + [c]) && PeriodSummary(h + [c]) && DelaySummary(h + [c])
    {
      hide ProcessorSummary, PeriodSummary, DelaySummary;
      UpdateProcessorStatistics(c.processor, h, c);
      var behindSchedule := HasBacklog(schedulerPeriod, c.cycleStart, c.scheduledStart);
      UpdatePeriodStatistics(c.cycleStart, h, c);
      UpdateDelayStatistics(behindSchedule, c.cycleStart, c.scheduledStart, h, c);
    }

    /** Around the control work and the publication. */
    method RecordWork(c: Cycle, ghost h: seq<Cycle>)
      requires ControlSummary(h) && SnapshotSummary(h) && GapSummary(h) && measuredCycles == |h|
      modifies `maxControlTime, `maxSnapshotTime, `previousCycleEnd, `maxInterCycleGap
      ensures ControlSummary(h + [c]) && SnapshotSummary(h + [c]) && GapSummary(h + [c])
    {
      hide ControlSummary, SnapshotSummary, GapSummary;
      UpdateControlStatistics(c.controlStart, c.controlEnd, h, c);
      UpdateSnapshotStatistics(c.snapshotStart, c.snapshotEnd, h, c);
      UpdateInterCycleStatistics(c.cycleStart, c.actualEnd, h, c);
    }

    /** After the state has been published. */
    method RecordEnd(c: Cycle, ghost h: seq<Cycle>) returns (executionTime: int)
      requires SchedulingSummary(h) && DeadlineSummary(h) && ExecutionSummary(h) && MissSummary(h) && measuredCycles == |h|
      modifies `delayUnder100us, `delay100usTo1ms, `delay1msTo5ms, `delay5msTo10ms, `delayOver10ms, `maxSchedulingDelay
      modifies `minDeadlineMargin, `maxExecutionTime, `deadlineMisses, `schedulingMisses, `executionMisses, `combinedMisses
      ensures SchedulingSummary(h + [c]) && DeadlineSummary(h + [c]) && ExecutionSummary(h + [c]) && MissSummary(h + [c])
      ensures executionTime == c.Execution()
    {
      hide SchedulingSummary, DeadlineSummary, ExecutionSummary, MissSummary;
      var deadline := c.scheduledStart + CONTROL_PERIOD;
      var schedulingDelay := SchedulingDelay(c.cycleStart, c.scheduledStart);
      UpdateSchedulingStatistics(schedulingDelay, h, c);
      UpdateDeadlineStatistics(deadline, c.actualEnd, measuredCycles, h, c);
      executionTime := UpdateExecutionStatistics(c.cycleStart, c.actualEnd, h, c);
      UpdateMissStatistics(c.actualEnd, deadline, schedulingDelay, executionTime, h, c);
    }
  }

  // ---------------------------------------------------------------- laws of the statistics

  lemma {:induction false} PeriodsTelescope(h: seq<Cycle>)
    requires h != []
    ensures Sum(Periods(h)) == h[|h| - 1].cycleStart - h[0].cycleStart
  {
    var n := |h| - 1;
    if n > 0 {
      PeriodsTelescope(h[..n]);
      assert h == h[..n] + [h[n]];
      UntilNextOneMore(h[..n], h[n], (c: Cycle) => c.cycleStart);
      SumOneMore(Periods(h[..n]), h[n].cycleStart - h[n - 1].cycleStart);
    }
  }

  lemma {:induction false} SumBetween(s: seq<int>, lo: int, hi: int)
    requires forall k | 0 <= k < |s| :: lo <= s[k] <= hi
    ensures lo * |s| <= Sum(s) <= hi * |s|
  {
    if s != [] {
      var n := |s| - 1;
      SumBetween(s[..n], lo, hi);
      assert lo * |s| == lo * n + lo && hi * |s| == hi * n + hi;
    }
  }

  /** The total period is the time from the first start to the last, and lies between the extreme
      periods times their number. */
  lemma TotalPeriod(s: Statistics, h: seq<Cycle>)
    requires s.Summarises(h) && h != []
    ensures s.totalPeriod == h[|h| - 1].cycleStart - h[0].cycleStart
    ensures |h| >= 2 ==> s.minPeriod * (|h| - 1) <= s.totalPeriod <= s.maxPeriod * (|h| - 1)
  {
    PeriodsTelescope(h);
    if |h| >= 2 { SumBetween(Periods(h), s.minPeriod, s.maxPeriod); }
  }

  lemma PeriodIsGapAndExecution(h: seq<Cycle>, k: nat)
    requires k < |h| - 1
    ensures Periods(h)[k] == Gaps(h)[k] + h[k].Execution()
  {
  }

  lemma MaxAtLeast(m: int, s: seq<int>, k: nat)
    requires IsMax(m, s) && k < |s|
    ensures s[k] <= m
  {
  }

  /** The longest period is at least the longest gap between cycles, and exceeds it by at most the
      longest execution. */
  lemma GapsAndPeriods(s: Statistics, h: seq<Cycle>)
    requires s.Summarises(h) && Monotone(h)
    ensures s.maxInterCycleGap <= s.maxPeriod <= s.maxInterCycleGap + s.maxExecutionTime
  {
    var executions := Each(h, (c: Cycle) => c.Execution());
    if s.maxPeriod > 0 {
      var k :| 0 <= k < |Periods(h)| && Periods(h)[k] == s.maxPeriod;
      PeriodIsGapAndExecution(h, k);
      MaxAtLeast(s.maxInterCycleGap, Gaps(h), k);
      assert executions[k] == h[k].Execution();
      MaxAtLeast(s.maxExecutionTime, executions, k);
    }
    if s.maxInterCycleGap > 0 {
      var k :| 0 <= k < |Gaps(h)| && Gaps(h)[k] == s.maxInterCycleGap;
      PeriodIsGapAndExecution(h, k);
      MaxAtLeast(s.maxPeriod, Periods(h), k);
    }
  }

  lemma {:induction false} CountSplits(h: seq<Cycle>, p: Cycle -> bool, q: Cycle -> bool, r: Cycle -> bool)
    requires forall c | c in h :: p(c) == (q(c) || r(c)) && !(q(c) && r(c))
    ensures Count(h, p) == Count(h, q) + Count(h, r)
  {
    if h != [] { CountSplits(h[..|h| - 1], p, q, r); }
  }

  lemma {:induction false} CountAll(h: seq<Cycle>, p: Cycle -> bool)
    requires forall c | c in h :: p(c)
    ensures Count(h, p) == |h|
  {
    if h != [] { CountAll(h[..|h| - 1], p); }
  }

  lemma {:induction false} CountImplies(h: seq<Cycle>, p: Cycle -> bool, q: Cycle -> bool)
    requires forall c | c in h :: p(c) ==> q(c)
    ensures Count(h, p) <= Count(h, q)
  {
    if h != [] { CountImplies(h[..|h| - 1], p, q); }
  }

  lemma {:induction false} CountPositive(h: seq<Cycle>, p: Cycle -> bool)
    ensures Count(h, p) > 0 <==> exists c | c in h :: p(c)
  {
    if h != [] {
      CountPositive(h[..|h| - 1], p);
      assert forall c | c in h :: c in h[..|h| - 1] || c == h[|h| - 1];
    }
  }

  /** Every miss has exactly one cause; a miss that is not blamed on scheduling overran its period;
      and a miss occurred exactly when the smallest deadline margin is negative. */
  lemma MissesAgree(s: Statistics, h: seq<Cycle>)
    requires s.Summarises(h)
    ensures s.deadlineMisses == s.schedulingMisses + s.executionMisses + s.combinedMisses
    ensures forall c | c in h && c.Missed() && c.Delay() <= 0 :: c.Execution() > CONTROL_PERIOD
    ensures s.deadlineMisses > 0 <==> s.minDeadlineMargin < 0
  {
    var missed := (c: Cycle) => c.Missed();
    var late := (c: Cycle) => c.Missed() && c.Delay() > 0;
    hide Each, IsMin;
    CountSplits(h, missed, late, (c: Cycle) => c.Missed() && c.Delay() <= 0);
    CountSplits(h, late, (c: Cycle) => c.Missed() && c.Delay() > 0 && c.Execution() <= CONTROL_PERIOD,
                (c: Cycle) => c.Missed() && c.Delay() > 0 && c.Execution() > CONTROL_PERIOD);
    MissMeansNegativeMargin(h, s.minDeadlineMargin);
  }

  lemma MissMeansNegativeMargin(h: seq<Cycle>, m: int)
    requires if h == [] then m == 0 else IsMin(m, Each(h, (c: Cycle) => c.Margin()))
    ensures Count(h, (c: Cycle) => c.Missed()) > 0 <==> m < 0
  {
    CountPositive(h, (c: Cycle) => c.Missed());
    var margins := Each(h, (c: Cycle) => c.Margin());
    assert forall k | 0 <= k < |h| :: margins[k] < 0 <==> h[k].Missed();
    if m < 0 {
      var k :| 0 <= k < |margins| && margins[k] == m;
      assert h[k] in h;
    }
  }

  /** The five buckets of the delay histogram account for every measured cycle once. */
  lemma BucketsAddUp(s: Statistics, h: seq<Cycle>)
    requires s.Summarises(h)
    ensures s.delayUnder100us + s.delay100usTo1ms + s.delay1msTo5ms + s.delay5msTo10ms + s.delayOver10ms == s.measuredCycles
  {
    var p2 := (c: Cycle) => 100_000 <= c.Delay();
    var p3 := (c: Cycle) => MILLISECOND <= c.Delay();
    var p4 := (c: Cycle) => 5 * MILLISECOND <= c.Delay();
    CountAll(h, (c: Cycle) => true);
    CountSplits(h, (c: Cycle) => true, (c: Cycle) => c.Delay() < 100_000, p2);
    CountSplits(h, p2, (c: Cycle) => 100_000 <= c.Delay() < MILLISECOND, p3);
    CountSplits(h, p3, (c: Cycle) => MILLISECOND <= c.Delay() < 5 * MILLISECOND, p4);
    CountSplits(h, p4, (c: Cycle) => 5 * MILLISECOND <= c.Delay() < 10 * MILLISECOND, (c: Cycle) => 10 * MILLISECOND <= c.Delay());
  }

  /** The largest backlog is what the largest scheduling delay exceeds the period by. */
  lemma BacklogIsExcessDelay(s: Statistics, h: seq<Cycle>)
    requires s.Summarises(h) && 0 <= s.schedulerPeriod
    ensures s.maxBacklog == if s.maxSchedulingDelay > s.schedulerPeriod then s.maxSchedulingDelay - s.schedulerPeriod else 0
    ensures s.backlogCycles <= s.delayedCycles
  {
    var p := s.schedulerPeriod;
    var delays, backlogs := Each(h, (c: Cycle) => c.Delay()), Each(h, (c: Cycle) => c.Excess(p));
    assert forall k | 0 <= k < |h| :: backlogs[k] == if delays[k] >= p then delays[k] - p else 0;
    if s.maxBacklog > 0 {
      var k :| 0 <= k < |backlogs| && backlogs[k] == s.maxBacklog;
      MaxAtLeast(s.maxSchedulingDelay, delays, k);
    }
    if s.maxSchedulingDelay > p {
      var k :| 0 <= k < |delays| && delays[k] == s.maxSchedulingDelay;
      MaxAtLeast(s.maxBacklog, backlogs, k);
    }
    CountImplies(h, (c: Cycle) => c.Delayed(p) && c.Excess(p) >= CONTROL_PERIOD, (c: Cycle) => c.Delayed(p));
  }

  /** With the scheduler's period equal to the control period, a delayed cycle misses its deadline
      as soon as it takes any time at all. */
  lemma DelayedCyclesMiss(s: Statistics, h: seq<Cycle>)
    requires s.Summarises(h) && s.schedulerPeriod == CONTROL_PERIOD
    requires forall c | c in h :: c.cycleStart < c.actualEnd
    ensures s.delayedCycles <= s.deadlineMisses
  {
    var p := s.schedulerPeriod;
    CountImplies(h, (c: Cycle) => c.Delayed(p), (c: Cycle) => c.Missed());
  }

  // ---------------------------------------------------------------- in plain numbers

  /** The cycles of the history, by number, that satisfy `p`. */
  ghost function Where(h: seq<Cycle>, p: Cycle -> bool): set<int> {
    set k | 0 <= k < |h| && p(h[k])
  }

  lemma {:induction false} CountIsCardinality(h: seq<Cycle>, p: Cycle -> bool)
    ensures Count(h, p) == |Where(h, p)|
  {
    if h == [] {
      assert Where(h, p) == {};
    } else {
      var n := |h| - 1;
      CountIsCardinality(h[..n], p);
      assert Where(h, p) == Where(h[..n], p) + if p(h[n]) then {n} else {};
    }
  }

  lemma CountWhere(h: seq<Cycle>, p: Cycle -> bool, q: Cycle -> bool)
    requires forall c | c in h :: p(c) == q(c)
    ensures Count(h, p) == |Where(h, q)|
  {
    CountIsCardinality(h, p);
    assert Where(h, p) == Where(h, q);
  }

  /** The misses, in nanoseconds: a cycle that ends more than 1 000 000 after its scheduled start is one,
      a cycle that ends exactly 1 000 000 after it is not. */
  lemma MissesInNanoseconds(s: Statistics, h: seq<Cycle>)
    requires s.Summarises(h)
    ensures s.deadlineMisses == |Where(h, (c: Cycle) => c.actualEnd - c.scheduledStart > 1_000_000)|
    ensures s.schedulingMisses ==
            |Where(h, (c: Cycle) => c.actualEnd - c.scheduledStart > 1_000_000 && c.cycleStart > c.scheduledStart
                                    && c.actualEnd - c.cycleStart <= 1_000_000)|
    ensures s.executionMisses ==
            |Where(h, (c: Cycle) => c.actualEnd - c.scheduledStart > 1_000_000 && c.cycleStart <= c.scheduledStart)|
    ensures s.combinedMisses ==
            |Where(h, (c: Cycle) => c.actualEnd - c.scheduledStart > 1_000_000 && c.cycleStart > c.scheduledStart
                                    && c.actualEnd - c.cycleStart > 1_000_000)|
  {
    hide Where, Count;
    CountWhere(h, (c: Cycle) => c.Missed(), (c: Cycle) => c.actualEnd - c.scheduledStart > 1_000_000);
    CountWhere(h, (c: Cycle) => c.Missed() && c.Delay() > 0 && c.Execution() <= CONTROL_PERIOD,
               (c: Cycle) => c.actualEnd - c.scheduledStart > 1_000_000 && c.cycleStart > c.scheduledStart
                             && c.actualEnd - c.cycleStart <= 1_000_000);
    CountWhere(h, (c: Cycle) => c.Missed() && c.Delay() <= 0,
               (c: Cycle) => c.actualEnd - c.scheduledStart > 1_000_000 && c.cycleStart <= c.scheduledStart);
    CountWhere(h, (c: Cycle) => c.Missed() && c.Delay() > 0 && c.Execution() > CONTROL_PERIOD,
               (c: Cycle) => c.actualEnd - c.scheduledStart > 1_000_000 && c.cycleStart > c.scheduledStart
                             && c.actualEnd - c.cycleStart > 1_000_000);
  }

  /** The delay histogram and the delayed cycles, in nanoseconds, for a scheduler with a period of 1 ms. */
  lemma DelaysInNanoseconds(s: Statistics, h: seq<Cycle>)
    requires s.Summarises(h) && s.schedulerPeriod == 1_000_000
    ensures s.delayUnder100us == |Where(h, (c: Cycle) => c.cycleStart - c.scheduledStart < 100_000)|
    ensures s.delay100usTo1ms == |Where(h, (c: Cycle) => 100_000 <= c.cycleStart - c.scheduledStart < 1_000_000)|
    ensures s.delay1msTo5ms == |Where(h, (c: Cycle) => 1_000_000 <= c.cycleStart - c.scheduledStart < 5_000_000)|
    ensures s.delay5msTo10ms == |Where(h, (c: Cycle) => 5_000_000 <= c.cycleStart - c.scheduledStart < 10_000_000)|
    ensures s.delayOver10ms == |Where(h, (c: Cycle) => 10_000_000 <= c.cycleStart - c.scheduledStart)|
    ensures s.delayedCycles == |Where(h, (c: Cycle) => c.cycleStart - c.scheduledStart >= 1_000_000)|
    ensures s.backlogCycles == |Where(h, (c: Cycle) => c.cycleStart - c.scheduledStart >= 2_000_000)|
  {
    hide Where, Count;
    var p := s.schedulerPeriod;
    CountWhere(h, (c: Cycle) => c.Delay() < 100_000, (c: Cycle) => c.cycleStart - c.scheduledStart < 100_000);
    CountWhere(h, (c: Cycle) => 100_000 <= c.Delay() < MILLISECOND,
               (c: Cycle) => 100_000 <= c.cycleStart - c.scheduledStart < 1_000_000);
    CountWhere(h, (c: Cycle) => MILLISECOND <= c.Delay() < 5 * MILLISECOND,
               (c: Cycle) => 1_000_000 <= c.cycleStart - c.scheduledStart < 5_000_000);
    CountWhere(h, (c: Cycle) => 5 * MILLISECOND <= c.Delay() < 10 * MILLISECOND,
               (c: Cycle) => 5_000_000 <= c.cycleStart - c.scheduledStart < 10_000_000);
    CountWhere(h, (c: Cycle) => 10 * MILLISECOND <= c.Delay(), (c: Cycle) => 10_000_000 <= c.cycleStart - c.scheduledStart);
    CountWhere(h, (c: Cycle) => c.Delayed(p), (c: Cycle) => c.cycleStart - c.scheduledStart >= 1_000_000);
    CountWhere(h, (c: Cycle) => c.Delayed(p) && c.Excess(p) >= CONTROL_PERIOD,
               (c: Cycle) => c.cycleStart - c.scheduledStart >= 2_000_000);
  }

  /** `m` is the largest of 0 and what `f` is over the cycles. */
  ghost predicate IsLargest(m: int, h: seq<Cycle>, f: Cycle -> int) {
    m >= 0 && (forall c | c in h :: f(c) <= m) && (m == 0 || exists c | c in h :: f(c) == m)
  }

  lemma LargestOfEach(m: int, h: seq<Cycle>, f: Cycle -> int, g: Cycle -> int)
    requires IsMax(m, Each(h, f)) && forall c | c in h :: f(c) == g(c)
    ensures IsLargest(m, h, g)
  {
    forall c | c in h ensures g(c) <= m {
      var k :| 0 <= k < |h| && h[k] == c;
      assert Each(h, f)[k] == f(c);
    }
    if m != 0 {
      var k :| 0 <= k < |h| && Each(h, f)[k] == m;
      assert h[k] in h && g(h[k]) == m;
    }
  }

  /** The maxima over the cycles, and the smallest margin, in the clock readings themselves. */
  lemma ExtremesInReadings(s: Statistics, h: seq<Cycle>)
    requires s.Summarises(h)
    ensures IsLargest(s.maxControlTime, h, (c: Cycle) => c.controlEnd - c.controlStart)
    ensures IsLargest(s.maxSnapshotTime, h, (c: Cycle) => c.snapshotEnd - c.snapshotStart)
    ensures IsLargest(s.maxExecutionTime, h, (c: Cycle) => c.actualEnd - c.cycleStart)
    ensures IsLargest(s.maxSchedulingDelay, h, (c: Cycle) => c.cycleStart - c.scheduledStart)
    ensures h != [] ==> IsSmallestMargin(s.minDeadlineMargin, h)
  {
    hide Each, IsMax, IsLargest;
    LargestOfEach(s.maxControlTime, h, (c: Cycle) => c.controlEnd - c.controlStart, (c: Cycle) => c.controlEnd - c.controlStart);
    LargestOfEach(s.maxSnapshotTime, h, (c: Cycle) => c.snapshotEnd - c.snapshotStart, (c: Cycle) => c.snapshotEnd - c.snapshotStart);
    LargestOfEach(s.maxExecutionTime, h, (c: Cycle) => c.Execution(), (c: Cycle) => c.actualEnd - c.cycleStart);
    LargestOfEach(s.maxSchedulingDelay, h, (c: Cycle) => c.Delay(), (c: Cycle) => c.cycleStart - c.scheduledStart);
    if h != [] { SmallestMargin(s.minDeadlineMargin, h); }
  }

  /** `m` is the smallest time left to 1 000 000 after the scheduled start at the end of a cycle. */
  ghost predicate IsSmallestMargin(m: int, h: seq<Cycle>) {
    && (forall c | c in h :: m <= c.scheduledStart + 1_000_000 - c.actualEnd)
    && exists c | c in h :: m == c.scheduledStart + 1_000_000 - c.actualEnd
  }

  lemma SmallestMargin(m: int, h: seq<Cycle>)
    requires IsMin(m, Each(h, (c: Cycle) => c.Margin()))
    ensures IsSmallestMargin(m, h)
  {
    var margins := Each(h, (c: Cycle) => c.Margin());
    forall c | c in h ensures m <= c.scheduledStart + 1_000_000 - c.actualEnd {
      var k :| 0 <= k < |h| && h[k] == c;
      assert margins[k] == c.Margin();
    }
    var k :| 0 <= k < |margins| && margins[k] == m;
    assert h[k] in h && m == h[k].Margin();
  }

  /** From cycle `k` to the next one, in the clock readings. */
  ghost predicate IsLargestUntilNext(m: int, h: seq<Cycle>, from: Cycle -> int) {
    && m >= 0 && (forall k, l | 0 <= k < l < |h| && l == k + 1 :: h[l].cycleStart - from(h[k]) <= m)
    && (m == 0 || exists k, l | 0 <= k < l < |h| && l == k + 1 :: h[l].cycleStart - from(h[k]) == m)
  }

  /** `m` is the smallest time from one cycle's start to the next one's. */
  ghost predicate IsSmallestPeriod(m: int, h: seq<Cycle>) {
    && (forall k, l | 0 <= k < l < |h| && l == k + 1 :: m <= h[l].cycleStart - h[k].cycleStart)
    && exists k, l | 0 <= k < l < |h| && l == k + 1 :: h[l].cycleStart - h[k].cycleStart == m
  }

  /** The longest and the shortest period and the longest gap, in the clock readings themselves. */
  lemma PeriodsInReadings(s: Statistics, h: seq<Cycle>)
    requires s.Summarises(h)
    ensures IsLargestUntilNext(s.maxPeriod, h, (c: Cycle) => c.cycleStart)
    ensures IsLargestUntilNext(s.maxInterCycleGap, h, (c: Cycle) => c.actualEnd)
    ensures if |h| >= 2 then IsSmallestPeriod(s.minPeriod, h) else s.minPeriod == 0
  {
    if |h| >= 2 { SmallestPeriod(s.minPeriod, h); }
    hide IsSmallestPeriod;
    hide IsLargestUntilNext, UntilNext, IsMax;
    LargestUntilNext(s.maxPeriod, h, (c: Cycle) => c.cycleStart);
    LargestUntilNext(s.maxInterCycleGap, h, (c: Cycle) => c.actualEnd);
  }

  lemma LargestUntilNext(m: int, h: seq<Cycle>, from: Cycle -> int)
    requires IsMax(m, UntilNext(h, from))
    ensures IsLargestUntilNext(m, h, from)
  {
    forall k, l | 0 <= k < l < |h| && l == k + 1
      ensures h[l].cycleStart - from(h[k]) <= m
    {
      assert UntilNext(h, from)[k] == h[l].cycleStart - from(h[k]);
    }
    if m != 0 {
      var k :| 0 <= k < |UntilNext(h, from)| && UntilNext(h, from)[k] == m;
      var l := k + 1;
      assert h[l].cycleStart - from(h[k]) == m;
    }
  }

  lemma SmallestPeriod(m: int, h: seq<Cycle>)
    requires IsMin(m, Periods(h)) && |h| >= 2
    ensures IsSmallestPeriod(m, h)
  {
    forall k, l | 0 <= k < l < |h| && l == k + 1
      ensures m <= h[l].cycleStart - h[k].cycleStart
    {
      assert Periods(h)[k] == h[l].cycleStart - h[k].cycleStart;
    }
    var k :| 0 <= k < |Periods(h)| && Periods(h)[k] == m;
    var l := k + 1;
    assert h[l].cycleStart - h[k].cycleStart == m;
  }

  /** The longest run of cycles that start 1 ms late or later, for a scheduler with a period of 1 ms: no
      such run is longer than the statistics say, and one is as long. */
  lemma LongestDelayInReadings(s: Statistics, h: seq<Cycle>)
    requires s.Summarises(h) && s.schedulerPeriod == 1_000_000
    ensures forall i, j | 0 <= i <= j <= |h| && AllLate(h, i, j) :: j - i <= s.maxConsecutiveDelayedCycles
    ensures exists i, j :: 0 <= i <= j <= |h| && AllLate(h, i, j) && j - i == s.maxConsecutiveDelayedCycles
  {
    var p, longest := s.schedulerPeriod, s.maxConsecutiveDelayedCycles;
    forall i, j | 0 <= i <= j <= |h| && AllLate(h, i, j)
      ensures j - i <= longest
    {
      assert DelayedRun(h, p, i, j - i);
    }
    var start: nat :| DelayedRun(h, p, start, longest);
    assert AllLate(h, start, start + longest);
  }

  predicate AllLate(h: seq<Cycle>, i: int, j: int)
    requires 0 <= i <= j <= |h|
  {
    forall k | i <= k < j :: h[k].cycleStart - h[k].scheduledStart >= 1_000_000
  }

  /** Position `k` of `s` is followed by a different value. */
  predicate ChangesAt(s: seq<int>, k: int) {
    0 <= k < |s| - 1 && s[k] != s[k + 1]
  }

  /** The processor changes are the places at which the sequence of known processors changes. */
  lemma {:induction false} ChangesAreCounted(s: seq<int>)
    ensures Changes(s) == |set k | 0 <= k < |s| && ChangesAt(s, k)|
  {
    if |s| < 2 {
      assert (set k | 0 <= k < |s| && ChangesAt(s, k)) == {};
    } else {
      var n := |s| - 1;
      ChangesAreCounted(s[..n]);
      var earlier := set k | 0 <= k < n && ChangesAt(s[..n], k);
      assert forall k | 0 <= k < n - 1 :: ChangesAt(s[..n], k) == ChangesAt(s, k);
      assert (set k | 0 <= k < |s| && ChangesAt(s, k)) == earlier + if s[n] != s[n - 1] then {n - 1} else {};
    }
  }
}
