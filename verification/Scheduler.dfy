/** The absolute schedule of the control loop, its mapping to another clock, and how fast a late
    loop catches up.  Times are integer nanoseconds. */
module Scheduling {

  // ---------------------------------------------------------------- the portable timeline

  class PortableControlScheduler {
    const period: int
    var nextCycle: int

    constructor (period: int, now: int)
      ensures this.period == period && nextCycle == now
    {
      this.period, nextCycle := period, now;
    }

    method Reset(now: int)
      modifies this
      ensures nextCycle == now
    {
      nextCycle := now;
    }

    /** Sleeps until the scheduled time, however long that takes, and moves the schedule on. */
    method WaitForNextCycle() returns (scheduledStart: int)
      modifies this
      ensures scheduledStart == old(nextCycle) && nextCycle == old(nextCycle) + period
    {
      scheduledStart := nextCycle;
      nextCycle := nextCycle + period;
    }
  }

  predicate HasBacklog(period: int, actualStart: int, scheduledStart: int) {
    actualStart >= scheduledStart + period
  }

  function SchedulingDelay(actualStart: int, scheduledStart: int): int {
    actualStart - scheduledStart
  }

  /** How far a cycle is behind the schedule beyond one period. */
  function Backlog(period: int, actualStart: int, scheduledStart: int): (backlog: int)
    ensures 0 <= backlog
    ensures HasBacklog(period, actualStart, scheduledStart) <==> SchedulingDelay(actualStart, scheduledStart) == period + backlog
  {
    if !HasBacklog(period, actualStart, scheduledStart) then 0 else actualStart - scheduledStart - period
  }

  datatype Call = Reset(now: int) | Wait

  /** The next scheduled time after a sequence of calls. */
  function NextAfter(t0: int, period: int, calls: seq<Call>): int {
    if calls == [] then t0
    else match calls[|calls| - 1]
      case Reset(now) => now
      case Wait => NextAfter(t0, period, calls[..|calls| - 1]) + period
  }

  /** What the waits among the calls return, in order: each the scheduled time it finds. */
  function Returned(t0: int, period: int, calls: seq<Call>): seq<int> {
    if calls == [] then []
    else
      var front := calls[..|calls| - 1];
      Returned(t0, period, front) + if calls[|calls| - 1].Wait? then [NextAfter(t0, period, front)] else []
  }

  /** No drift: whatever delays the cycles had, the k-th wait after a reset to a time returns that time
      plus k periods; the same holds of the waits before any reset and the time of construction.  The
      waits after call `from` are the last |calls| - from values returned. */
  lemma {:induction false} NoDrift(t0: int, period: int, calls: seq<Call>, from: nat, k: nat)
    requires from + k < |calls| && (from == 0 || calls[from - 1].Reset?)
    requires forall q | from <= q < |calls| :: calls[q].Wait?
    ensures var base := if from == 0 then t0 else calls[from - 1].now;
            var before, returned := |Returned(t0, period, calls[..from])|, Returned(t0, period, calls);
            && |returned| == before + |calls| - from
            && returned[..before] == Returned(t0, period, calls[..from])
            && returned[before + k] == base + k * period
  {
    var n := |calls| - 1;
    var front := calls[..n];
    assert front[..from] == calls[..from];
    NextStart(t0, period, front, from);
    WaitReturns(t0, period, calls);
    hide Returned, NextAfter;
    if n == from {
      assert front == calls[..from];
    } else {
      NoDrift(t0, period, front, from, if k < n - from then k else 0);
    }
  }

  lemma WaitReturns(t0: int, period: int, calls: seq<Call>)
    requires calls != [] && calls[|calls| - 1].Wait?
    ensures Returned(t0, period, calls) == Returned(t0, period, calls[..|calls| - 1]) + [NextAfter(t0, period, calls[..|calls| - 1])]
  {
  }

  lemma {:induction false} NextStart(t0: int, period: int, calls: seq<Call>, from: nat)
    requires from <= |calls| && (from == 0 || calls[from - 1].Reset?)
    requires forall q | from <= q < |calls| :: calls[q].Wait?
    ensures NextAfter(t0, period, calls) == (if from == 0 then t0 else calls[from - 1].now) + (|calls| - from) * period
  {
    if from < |calls| {
      var front := calls[..|calls| - 1];
      NextStart(t0, period, front, from);
      assert (|calls| - from) * period == (|front| - from) * period + period;
    }
  }

  // ---------------------------------------------------------------- catching up

  function Max(x: int, y: int): int {
    if x >= y then x else y
  }

  /** When cycle `k` starts, if wake-ups are ideal: at its scheduled time, or as soon as the cycle
      before it has ended.  Cycle 0 starts `lateness` after its scheduled time `t0`. */
  function ActualStart(t0: int, period: int, lateness: nat, executions: seq<nat>, k: nat): int
    requires k <= |executions|
  {
    if k == 0 then t0 + lateness
    else Max(t0 + k * period, ActualStart(t0, period, lateness, executions, k - 1) + executions[k - 1])
  }

  /** How late cycle `k` starts. */
  function DelayAt(t0: int, period: int, lateness: nat, executions: seq<nat>, k: nat): int
    requires k <= |executions|
  {
    ActualStart(t0, period, lateness, executions, k) - (t0 + k * period)
  }

  /** A cycle is late by what the cycle before it was late by, less the slack that one left. */
  lemma DelayRecurrence(t0: int, period: int, lateness: nat, executions: seq<nat>, k: nat)
    requires k <= |executions|
    ensures DelayAt(t0, period, lateness, executions, k) ==
            if k == 0 then lateness
            else Max(0, DelayAt(t0, period, lateness, executions, k - 1) + executions[k - 1] - period)
  {
    if k > 0 { assert k * period == (k - 1) * period + period; }
  }

  /** Recovery: if no execution exceeds `e`, each cycle works off at least `period - e` of an initial
      delay; and no more than that, if every execution takes `e`. */
  lemma {:induction false} Recovery(t0: int, period: int, lateness: nat, executions: seq<nat>, e: nat, k: nat)
    requires k <= |executions| && e <= period && forall i | 0 <= i < |executions| :: executions[i] <= e
    ensures var delay := DelayAt(t0, period, lateness, executions, k);
            && 0 <= delay <= Max(0, lateness - k * (period - e))
            && ((forall i | 0 <= i < |executions| :: executions[i] == e) ==> delay == Max(0, lateness - k * (period - e)))
  {
    hide DelayAt;
    DelayRecurrence(t0, period, lateness, executions, k);
    var slack := period - e;
    if k > 0 {
      Recovery(t0, period, lateness, executions, e, k - 1);
      assert k * slack == (k - 1) * slack + slack;
      assert (k - 1) * slack >= 0;
    }
  }

  // ---------------------------------------------------------------- the Linux clock

  const SECOND: int := 1_000_000_000

  datatype TimeSpec = TimeSpec(sec: int, nsec: int)
  {
    function Total(): int { sec * SECOND + nsec }
    predicate Normalised() { 0 <= nsec < SECOND }
  }

  /** Integer division and remainder that truncate toward zero. */
  function TruncatedDiv(a: int, b: int): int
    requires b > 0
  {
    if a >= 0 then a / b else -(-a / b)
  }

  function TruncatedMod(a: int, b: int): int
    requires b > 0
  {
    a - TruncatedDiv(a, b) * b
  }

  /** Adds a duration to a time of the Linux clock.  Nanoseconds are conserved for every duration.
      The result is normalised exactly when the remainder of the duration does not undercut the
      nanoseconds it is added to, so in particular for every duration that is not negative. */
  method AddDuration(time: TimeSpec, duration: int) returns (result: TimeSpec)
    requires time.Normalised()
    ensures result.Total() == time.Total() + duration
    ensures result.Normalised() <==> time.nsec + TruncatedMod(duration, SECOND) >= 0
    ensures duration >= 0 ==> result.Normalised()
    ensures -SECOND < result.nsec < SECOND
  {
    result := time;
    result := result.(sec := result.sec + TruncatedDiv(duration, SECOND));
    result := result.(nsec := result.nsec + TruncatedMod(duration, SECOND));
    if result.nsec >= SECOND {
      result := result.(sec := result.sec + 1);
      result := result.(nsec := result.nsec - SECOND);
    }
  }

  /** A normalised time is determined by its nanoseconds, so the contract of `AddDuration` leaves one
      result for every duration that is not negative. */
  lemma NormalisedIsUnique(a: TimeSpec, b: TimeSpec)
    requires a.Normalised() && b.Normalised() && a.Total() == b.Total()
    ensures a == b
  {
  }

  /** A negative duration can leave a time that is not normalised. */
  lemma NegativeDurationUndercuts()
    ensures var time := TimeSpec(5, 0); time.Normalised() && time.nsec + TruncatedMod(-1, SECOND) < 0
  {
  }

  class LinuxControlScheduler {
    const timeline: PortableControlScheduler
    const linuxStart: TimeSpec
    const chronoStart: int

    constructor (timeline: PortableControlScheduler, linuxStart: TimeSpec, chronoStart: int)
      ensures this.timeline == timeline && this.linuxStart == linuxStart && this.chronoStart == chronoStart
    {
      this.timeline, this.linuxStart, this.chronoStart := timeline, linuxStart, chronoStart;
    }

    /** Waits for the scheduled time on the Linux clock: `target` is as far from that clock's start as
        the scheduled time is from the portable clock's, to the nanosecond. */
    method WaitForNextCycle() returns (scheduledStart: int, target: TimeSpec)
      requires linuxStart.Normalised()
      modifies timeline
      ensures scheduledStart == old(timeline.nextCycle)
      ensures timeline.nextCycle == old(timeline.nextCycle) + timeline.period
      ensures target.Total() - linuxStart.Total() == scheduledStart - chronoStart
      ensures scheduledStart >= chronoStart ==> target.Normalised()
    {
      var scheduled := timeline.nextCycle;
      target := AddDuration(linuxStart, scheduled - chronoStart);
      scheduledStart := timeline.WaitForNextCycle();
    }
  }
}
