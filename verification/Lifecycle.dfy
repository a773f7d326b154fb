/** The lifecycle of the control loop: any number of threads calling `run`, `wait` and
    `requestStop`, and the workers they start, interleaved at single accesses of the shared state.
    A disabled action does nothing, so an execution is any sequence of actions. */
module Lifecycle {

  datatype Life = Idle | Running | Finished

  /** A worker thread that was asked for `requested` cycles. */
  datatype WorkerPc = Starting | Checking | Cycling | Reporting | Returning | Exited
  datatype Worker = Worker(requested: nat, done: nat, pc: WorkerPc)

  /** Where a calling thread is: in no call, before the mutex, or at one access inside it. */
  datatype Caller =
    | Away
    | RunBlocked(n: int) | RunChecking(n: int) | RunClearing(n: int) | RunMarking(n: int) | RunSpawning(n: int)
    | WaitBlocked | WaitChecking | WaitJoining | WaitMarking
    | Leaving

  datatype Mutex = Free | HeldBy(caller: nat)

  /** The thread handle: holds a worker until that worker is joined. */
  datatype Handle = Empty | Joinable(worker: nat)

  datatype Loop = Loop(life: Life, stop: bool, mutex: Mutex, handle: Handle,
                       workers: seq<Worker>, callers: seq<Caller>, completed: nat)

  datatype Action = CallRun(caller: nat, n: int) | CallWait(caller: nat) | RequestStop | CallerStep(caller: nat) | WorkerStep(worker: nat)

  function Initial(n: nat): Loop {
    Loop(Idle, false, Free, Empty, [], seq(n, _ => Away), 0)
  }

  function Move(s: Loop, t: nat, to: Caller): Loop
    requires t < |s.callers|
  {
    s.(callers := s.callers[t := to])
  }

  /** The next access of a caller; blocked callers wait for the mutex or for the worker to exit. */
  function StepCaller(s: Loop, t: nat): Loop
    requires t < |s.callers|
  {
    match s.callers[t]
    case Away => s
    case RunBlocked(n) => if s.mutex.Free? then Move(s.(mutex := HeldBy(t)), t, RunChecking(n)) else s
    case RunChecking(n) => Move(s, t, if s.life != Idle || n <= 0 then Leaving else RunClearing(n))
    case RunClearing(n) => Move(s.(stop := false), t, RunMarking(n))
    case RunMarking(n) => Move(s.(life := Running), t, RunSpawning(n))
    case RunSpawning(n) =>
      Move(s.(workers := s.workers + [Worker(if n > 0 then n else 0, 0, Starting)], handle := Joinable(|s.workers|)), t, Leaving)
    case WaitBlocked => if s.mutex.Free? then Move(s.(mutex := HeldBy(t)), t, WaitChecking) else s
    case WaitChecking => Move(s, t, if s.handle.Joinable? then WaitJoining else WaitMarking)
    case WaitJoining =>
      if s.handle.Joinable? && s.handle.worker < |s.workers| && s.workers[s.handle.worker].pc.Exited?
      then Move(s.(handle := Empty), t, WaitMarking) else s
    case WaitMarking => Move(s.(life := Idle), t, Leaving)
    case Leaving => Move(s.(mutex := Free), t, Away)
  }

  function PutWorker(s: Loop, w: nat, worker: Worker): Loop
    requires w < |s.workers|
  {
    s.(workers := s.workers[w := worker])
  }

  /** The next step of a worker: the stop flag is looked at before each cycle, and only there. */
  function StepWorker(s: Loop, w: nat): Loop
    requires w < |s.workers|
  {
    match s.workers[w].pc
    case Starting => PutWorker(s, w, s.workers[w].(pc := Checking))
    case Checking =>
      PutWorker(s, w, s.workers[w].(pc := if s.workers[w].done < s.workers[w].requested && !s.stop then Cycling else Reporting))
    case Cycling =>
      PutWorker(s.(completed := s.completed + 1), w, s.workers[w].(done := s.workers[w].done + 1, pc := Checking))
    case Reporting => PutWorker(s.(life := Finished), w, s.workers[w].(pc := Returning))
    case Returning => PutWorker(s, w, s.workers[w].(pc := Exited))
    case Exited => s
  }

  function Do(s: Loop, a: Action): Loop {
    match a
    case CallRun(t, n) => if t < |s.callers| && s.callers[t].Away? then Move(s, t, RunBlocked(n)) else s
    case CallWait(t) => if t < |s.callers| && s.callers[t].Away? then Move(s, t, WaitBlocked) else s
    case RequestStop => s.(stop := true)
    case CallerStep(t) => if t < |s.callers| then StepCaller(s, t) else s
    case WorkerStep(w) => if w < |s.workers| then StepWorker(s, w) else s
  }

  function StateAt(n: nat, acts: seq<Action>, k: nat): Loop
    requires k <= |acts|
  {
    if k == 0 then Initial(n) else Do(StateAt(n, acts, k - 1), acts[k - 1])
  }

  // ---------------------------------------------------------------- the invariant

  predicate InsideMutex(c: Caller) {
    !c.Away? && !c.RunBlocked? && !c.WaitBlocked?
  }

  /** The mutex is held by exactly the caller that is inside it. */
  ghost predicate MutexInv(s: Loop) {
    && (forall t | 0 <= t < |s.callers| :: InsideMutex(s.callers[t]) <==> s.mutex == HeldBy(t))
    && (s.mutex.HeldBy? ==> s.mutex.caller < |s.callers|)
  }

  /** At most the last worker is alive, and only while the handle holds it. */
  ghost predicate WorkersInv(s: Loop) {
    && (s.handle.Joinable? ==> |s.workers| > 0 && s.handle.worker == |s.workers| - 1)
    && (forall w | 0 <= w < |s.workers| && s.handle != Joinable(w) :: s.workers[w].pc.Exited?)
    && (forall w | 0 <= w < |s.workers| :: s.workers[w].done <= s.workers[w].requested)
    && (forall w | 0 <= w < |s.workers| && s.workers[w].pc.Cycling? :: s.workers[w].done < s.workers[w].requested)
  }

  /** What the lifecycle state says about the handle, seen by a caller at `c`. */
  ghost predicate LifeInv(s: Loop, c: Caller) {
    && (s.handle.Joinable? ==>
          (&& s.handle.worker < |s.workers|
           && s.life == if s.workers[s.handle.worker].pc in {Returning, Exited} then Finished else Running))
    && match c
       case RunClearing(n) => n > 0 && s.life == Idle && s.handle.Empty?
       case RunMarking(n) => n > 0 && s.life == Idle && s.handle.Empty?
       case RunSpawning(n) => n > 0 && s.life == Running && s.handle.Empty?
       case WaitJoining => s.handle.Joinable?
       case WaitMarking => s.handle.Empty?
       case _ => s.life == Idle <==> s.handle.Empty?
  }

  function Insider(s: Loop): Caller {
    if s.mutex.HeldBy? && s.mutex.caller < |s.callers| then s.callers[s.mutex.caller] else Away
  }

  ghost predicate Inv(s: Loop) {
    MutexInv(s) && WorkersInv(s) && LifeInv(s, Insider(s))
  }

  lemma CallerKeepsInv(s: Loop, t: nat)
    requires Inv(s) && t < |s.callers|
    ensures Inv(StepCaller(s, t))
  {
    CallerKeepsMutex(s, t);
    CallerKeepsWorkers(s, t);
    CallerKeepsLife(s, t);
  }

  lemma CallerKeepsMutex(s: Loop, t: nat)
    requires MutexInv(s) && t < |s.callers|
    ensures MutexInv(StepCaller(s, t))
  {
  }

  lemma CallerKeepsWorkers(s: Loop, t: nat)
    requires Inv(s) && t < |s.callers|
    ensures WorkersInv(StepCaller(s, t))
  {
    if InsideMutex(s.callers[t]) { assert Insider(s) == s.callers[t]; }
    hide MutexInv;
  }

  lemma CallerKeepsLife(s: Loop, t: nat)
    requires Inv(s) && t < |s.callers|
    ensures LifeInv(StepCaller(s, t), Insider(StepCaller(s, t)))
  {
    if InsideMutex(s.callers[t]) { assert Insider(s) == s.callers[t]; }
  }

  lemma WorkerKeepsInv(s: Loop, w: nat)
    requires Inv(s) && w < |s.workers|
    ensures Inv(StepWorker(s, w))
  {
  }

  lemma StepKeepsInv(s: Loop, a: Action)
    requires Inv(s)
    ensures Inv(Do(s, a))
  {
    match a
    case CallerStep(t) => if t < |s.callers| { CallerKeepsInv(s, t); }
    case WorkerStep(w) => if w < |s.workers| { WorkerKeepsInv(s, w); }
    case _ =>
  }

  lemma {:induction false} Invariant(n: nat, acts: seq<Action>, k: nat)
    requires k <= |acts|
    ensures Inv(StateAt(n, acts, k))
  {
    if k > 0 {
      hide Inv;
      Invariant(n, acts, k - 1);
      StepKeepsInv(StateAt(n, acts, k - 1), acts[k - 1]);
    }
  }

  // ---------------------------------------------------------------- safety

  /** At most one worker is alive; and whenever no call is inside the mutex, the loop is Idle exactly
      when no worker remains to be joined. */
  lemma OneWorker(n: nat, acts: seq<Action>, k: nat)
    requires k <= |acts|
    ensures var s := StateAt(n, acts, k);
            && (forall v, w | 0 <= v < |s.workers| && 0 <= w < |s.workers|
                  && !s.workers[v].pc.Exited? && !s.workers[w].pc.Exited? :: v == w)
            && (s.mutex.Free? ==> (s.life == Idle <==> s.handle.Empty?))
  {
    Invariant(n, acts, k);
    hide StateAt;
  }

  /** A run is refused until the previous worker has been joined. */
  lemma RunIsRefused(n: nat, acts: seq<Action>, k: nat, t: nat)
    requires k <= |acts| && t < |StateAt(n, acts, k).callers|
    requires StateAt(n, acts, k).callers[t].RunChecking? && StateAt(n, acts, k).handle.Joinable?
    ensures var s := StateAt(n, acts, k); StepCaller(s, t) == Move(s, t, Leaving)
  {
    Invariant(n, acts, k);
    hide StateAt;
  }

  // ---------------------------------------------------------------- a run completes its cycles

  /** The part of an execution that begins with caller `t` clearing the stop flag for a run of `n`
      cycles, and in which nobody requests a stop. */
  ghost predicate UndisturbedRun(m: nat, acts: seq<Action>, i: nat, j: nat, t: nat, n: nat) {
    && i < j <= |acts| && acts[i] == CallerStep(t)
    && t < |StateAt(m, acts, i).callers| && StateAt(m, acts, i).callers[t] == RunClearing(n)
    && forall k | i < k < j :: acts[k] != RequestStop
  }

  /** Between the clearing at `before` and `s`, with at most one worker started since. */
  ghost predicate RunProgress(before: Loop, s: Loop, t: nat, n: nat) {
    var w := |before.workers|;
    && !s.stop && |s.workers| >= w
    && (|s.workers| == w ==>
          && t < |s.callers| && s.callers[t] in {RunMarking(n), RunSpawning(n)} && s.completed == before.completed)
    && (|s.workers| > w ==>
          && s.workers[w].requested == n
          && (s.workers[w].pc in {Reporting, Returning, Exited} ==> s.workers[w].done == n)
          && (|s.workers| == w + 1 ==> s.completed == before.completed + s.workers[w].done))
  }

  lemma ProgressStep(before: Loop, s: Loop, a: Action, t: nat, n: nat)
    requires Inv(s) && RunProgress(before, s, t, n) && a != RequestStop
    ensures RunProgress(before, Do(s, a), t, n)
  {
  }

  lemma UndisturbedStep(m: nat, acts: seq<Action>, i: nat, j: nat, t: nat, n: nat)
    requires UndisturbedRun(m, acts, i, j, t, n)
    ensures i < j <= |acts| && StateAt(m, acts, j) == Do(StateAt(m, acts, j - 1), acts[j - 1])
    ensures j > i + 1 ==> UndisturbedRun(m, acts, i, j - 1, t, n) && acts[j - 1] != RequestStop
    ensures j == i + 1 ==> RunProgress(StateAt(m, acts, i), StateAt(m, acts, j), t, n)
  {
  }

  lemma {:induction false} RunMakesProgress(m: nat, acts: seq<Action>, i: nat, j: nat, t: nat, n: nat)
    requires UndisturbedRun(m, acts, i, j, t, n)
    ensures i < j <= |acts| && RunProgress(StateAt(m, acts, i), StateAt(m, acts, j), t, n)
    decreases j
  {
    hide Inv, RunProgress, Do, StateAt;
    UndisturbedStep(m, acts, i, j, t, n);
    hide UndisturbedRun;
    if j > i + 1 {
      Invariant(m, acts, j - 1);
      RunMakesProgress(m, acts, i, j - 1, t, n);
      ProgressStep(StateAt(m, acts, i), StateAt(m, acts, j - 1), acts[j - 1], t, n);
    }
  }

  /** If nobody requests a stop after a run of `n` has cleared the flag, then once its worker has
      exited exactly `n` cycles have been added, and not before another run adds any. */
  lemma RunAddsItsCycles(m: nat, acts: seq<Action>, i: nat, j: nat, t: nat, n: nat)
    requires UndisturbedRun(m, acts, i, j, t, n)
    requires var s, w := StateAt(m, acts, j), |StateAt(m, acts, i).workers|;
             |s.workers| > w && s.workers[w].pc.Exited?
    ensures var before, s, w := StateAt(m, acts, i), StateAt(m, acts, j), |StateAt(m, acts, i).workers|;
            && s.workers[w].requested == s.workers[w].done == n
            && (|s.workers| == w + 1 ==> s.completed == before.completed + n)
  {
    RunMakesProgress(m, acts, i, j, t, n);
    hide StateAt;
  }

  // ---------------------------------------------------------------- a stop request stops

  /** One if a cycle is in progress. */
  ghost function Pending(s: Loop): nat {
    if exists w | 0 <= w < |s.workers| :: s.workers[w].pc.Cycling? then 1 else 0
  }

  lemma PendingStep(s: Loop, a: Action)
    requires Inv(s) && s.stop
    ensures Do(s, a).completed + Pending(Do(s, a)) <= s.completed + Pending(s)
  {
    var s' := Do(s, a);
    if w' :| 0 <= w' < |s'.workers| && s'.workers[w'].pc.Cycling? {
      assert w' < |s.workers| && s.workers[w'].pc.Cycling?;
    }
  }

  /** The stop flag is up in all states from `i` to `j`. */
  ghost predicate StopStands(n: nat, acts: seq<Action>, i: nat, j: nat) {
    i <= j <= |acts| && forall k | i <= k <= j :: StateAt(n, acts, k).stop
  }

  lemma StopStandsStep(n: nat, acts: seq<Action>, i: nat, j: nat)
    requires StopStands(n, acts, i, j) && i < j
    ensures j <= |acts| && StopStands(n, acts, i, j - 1) && StateAt(n, acts, j - 1).stop
    ensures StateAt(n, acts, j) == Do(StateAt(n, acts, j - 1), acts[j - 1])
  {
    hide Do;
  }

  lemma {:induction false} NoMoreStarts(n: nat, acts: seq<Action>, i: nat, j: nat)
    requires StopStands(n, acts, i, j)
    ensures i <= j <= |acts|
    ensures StateAt(n, acts, j).completed + Pending(StateAt(n, acts, j)) <= StateAt(n, acts, i).completed + Pending(StateAt(n, acts, i))
  {
    hide Pending, Inv, Do, StateAt;
    if i < j {
      StopStandsStep(n, acts, i, j);
      hide StopStands;
      NoMoreStarts(n, acts, i, j - 1);
      Invariant(n, acts, j - 1);
      PendingStep(StateAt(n, acts, j - 1), acts[j - 1]);
    }
  }

  /** As long as a stop request stands, at most one more cycle completes, and it is the one that was
      in progress when the request was made. */
  lemma StopAllowsOneMore(n: nat, acts: seq<Action>, i: nat, j: nat)
    requires StopStands(n, acts, i, j)
    ensures i <= j <= |acts|
    ensures var s, s' := StateAt(n, acts, i), StateAt(n, acts, j);
            && s'.completed <= s.completed + 1
            && (s'.completed > s.completed ==> exists w | 0 <= w < |s.workers| :: s.workers[w].pc.Cycling?)
  {
    NoMoreStarts(n, acts, i, j);
    hide StateAt, StopStands;
  }

  /** A requested stop stands until a later run clears the flag. */
  lemma {:induction false} StopStandsUntilCleared(n: nat, acts: seq<Action>, i: nat, j: nat)
    requires i < j <= |acts| && acts[i] == RequestStop
    requires forall k | i < k < j :: !Clears(StateAt(n, acts, k), acts[k])
    ensures StopStands(n, acts, i + 1, j)
  {
    hide Do, Clears;
    if j == i + 1 {
      RequestStands(StateAt(n, acts, i));
    } else {
      StopStandsUntilCleared(n, acts, i, j - 1);
      StopStandsOn(StateAt(n, acts, j - 1), acts[j - 1]);
    }
  }

  /** The action is a run clearing the stop flag. */
  predicate Clears(s: Loop, a: Action) {
    a.CallerStep? && a.caller < |s.callers| && s.callers[a.caller].RunClearing?
  }

  lemma RequestStands(s: Loop)
    ensures Do(s, RequestStop).stop
  {
  }

  lemma StopStandsOn(s: Loop, a: Action)
    requires s.stop && !Clears(s, a)
    ensures Do(s, a).stop
  {
  }

  // ---------------------------------------------------------------- calls end

  /** How many more steps a worker can make. */
  function WorkerRank(w: Worker): nat {
    var left := if w.done < w.requested then w.requested - w.done else 0;
    match w.pc
    case Starting => 2 * left + 4
    case Checking => 2 * left + 3
    case Cycling => 2 * left + 2
    case Reporting => 2
    case Returning => 1
    case Exited => 0
  }

  /** How many more steps of its own a caller inside the mutex can make. */
  function CallerRank(c: Caller): nat {
    match c
    case RunChecking(_) => 5
    case RunClearing(_) => 4
    case RunMarking(_) => 3
    case RunSpawning(_) => 2
    case WaitChecking => 4
    case WaitJoining => 3
    case WaitMarking => 2
    case Leaving => 1
    case _ => 0
  }

  predicate Waiting(c: Caller) {
    c.WaitChecking? || c.WaitJoining?
  }

  /** The steps left before the call inside the mutex leaves it: its own, and, for a `wait`, those of
      the worker it joins. */
  function HolderRank(s: Loop): nat {
    CallerRank(Insider(s)) +
    if Waiting(Insider(s)) && s.handle.Joinable? && s.handle.worker < |s.workers|
    then WorkerRank(s.workers[s.handle.worker]) else 0
  }

  /** A step that is really made, by the caller inside the mutex or by the worker it waits for. */
  predicate Effective(s: Loop, a: Action) {
    Do(s, a) != s && match a
      case CallerStep(t) => s.mutex == HeldBy(t)
      case WorkerStep(w) => Waiting(Insider(s)) && s.handle == Joinable(w)
      case _ => false
  }

  /** No deadlock: whenever a call is inside the mutex, it can move, or it waits for a worker that can. */
  lemma HolderIsNotStuck(n: nat, acts: seq<Action>, k: nat)
    requires k <= |acts| && StateAt(n, acts, k).mutex.HeldBy?
    ensures var s := StateAt(n, acts, k);
            || Effective(s, CallerStep(s.mutex.caller))
            || (s.handle.Joinable? && Effective(s, WorkerStep(s.handle.worker)))
  {
    Invariant(n, acts, k);
    MovesOn(StateAt(n, acts, k));
  }

  lemma MovesOn(s: Loop)
    requires Inv(s) && s.mutex.HeldBy?
    ensures || Effective(s, CallerStep(s.mutex.caller))
            || (s.handle.Joinable? && Effective(s, WorkerStep(s.handle.worker)))
  {
    var t := s.mutex.caller;
    assert InsideMutex(s.callers[t]);
    if s.callers[t].WaitJoining? && !s.workers[s.handle.worker].pc.Exited? {
      var w := s.handle.worker;
      assert StepWorker(s, w).workers[w] != s.workers[w];
    } else {
      assert StepCaller(s, t).callers[t] != s.callers[t];
    }
  }

  lemma RankStep(s: Loop, a: Action)
    requires Inv(s) && s.mutex.HeldBy?
    ensures HolderRank(Do(s, a)) + (if Effective(s, a) then 1 else 0) <= HolderRank(s)
  {
    assert InsideMutex(s.callers[s.mutex.caller]);
    match a
    case CallerStep(t) => if t < |s.callers| && s.mutex == HeldBy(t) { RankCallerStep(s); }
    case WorkerStep(w) => if w < |s.workers| { RankWorkerStep(s, w); }
    case _ =>
  }

  lemma RankCallerStep(s: Loop)
    requires Inv(s) && s.mutex.HeldBy? && InsideMutex(s.callers[s.mutex.caller])
    ensures var s' := StepCaller(s, s.mutex.caller);
            HolderRank(s') <= HolderRank(s) && (s' != s ==> HolderRank(s') < HolderRank(s))
  {
  }

  lemma RankWorkerStep(s: Loop, w: nat)
    requires Inv(s) && s.mutex.HeldBy? && w < |s.workers|
    ensures HolderRank(StepWorker(s, w)) + (if Effective(s, WorkerStep(w)) then 1 else 0) <= HolderRank(s)
  {
  }

  /** The effective steps made from state `i` to state `j`. */
  function EffectiveSteps(n: nat, acts: seq<Action>, i: nat, j: nat): nat
    requires i <= j <= |acts|
  {
    if i == j then 0
    else EffectiveSteps(n, acts, i, j - 1) + if Effective(StateAt(n, acts, j - 1), acts[j - 1]) then 1 else 0
  }

  /** The mutex is held in all states from `i` up to `j`. */
  ghost predicate HeldThroughout(n: nat, acts: seq<Action>, i: nat, j: nat) {
    i <= j <= |acts| && forall k | i <= k < j :: StateAt(n, acts, k).mutex.HeldBy?
  }

  lemma HeldStep(n: nat, acts: seq<Action>, i: nat, j: nat)
    requires HeldThroughout(n, acts, i, j) && i < j
    ensures j <= |acts| && HeldThroughout(n, acts, i, j - 1) && StateAt(n, acts, j - 1).mutex.HeldBy?
    ensures StateAt(n, acts, j) == Do(StateAt(n, acts, j - 1), acts[j - 1])
  {
    hide Do;
  }

  /** Every call leaves the mutex: whatever all other threads do, while it is held there are at most
      `HolderRank` effective steps, and by `HolderIsNotStuck` there is always one to make. */
  lemma {:induction false} CallsEnd(n: nat, acts: seq<Action>, i: nat, j: nat)
    requires HeldThroughout(n, acts, i, j)
    ensures i <= j <= |acts|
    ensures EffectiveSteps(n, acts, i, j) + HolderRank(StateAt(n, acts, j)) <= HolderRank(StateAt(n, acts, i))
  {
    hide HolderRank, Effective, Inv, Do, StateAt;
    if i < j {
      HeldStep(n, acts, i, j);
      hide HeldThroughout;
      CallsEnd(n, acts, i, j - 1);
      Invariant(n, acts, j - 1);
      RankStep(StateAt(n, acts, j - 1), acts[j - 1]);
    }
  }

  // ---------------------------------------------------------------- what the calls do

  /** Caller `t` takes the mutex as action `i` and holds it until state `j`. */
  ghost predicate InsideCall(m: nat, acts: seq<Action>, i: nat, j: nat, t: nat) {
    && i < j <= |acts| && acts[i] == CallerStep(t) && t < |StateAt(m, acts, i).callers|
    && StateAt(m, acts, i).mutex.Free? && forall k | i < k <= j :: StateAt(m, acts, k).mutex == HeldBy(t)
  }

  lemma InsideStep(m: nat, acts: seq<Action>, i: nat, j: nat, t: nat)
    requires InsideCall(m, acts, i, j, t)
    ensures i < j <= |acts| && StateAt(m, acts, j) == Do(StateAt(m, acts, j - 1), acts[j - 1])
    ensures StateAt(m, acts, j).mutex == HeldBy(t)
    ensures j == i + 1 ==> acts[j - 1] == CallerStep(t) && StateAt(m, acts, j - 1).mutex.Free?
    ensures j > i + 1 ==> InsideCall(m, acts, i, j - 1, t)
  {
    hide Do;
  }

  predicate Accepted(s: Loop, n: int) {
    s.life == Idle && n > 0
  }

  /** A call of `run(n)` inside the mutex, that took it in state `before`. */
  ghost predicate Deciding(before: Loop, s: Loop, t: nat, n: int) {
    && |s.workers| >= |before.workers|
    && t < |s.callers| && match s.callers[t]
       case RunChecking(n') =>
         && n' == n && |s.workers| == |before.workers| && s.handle == before.handle
         && (s.life == Idle <==> before.life == Idle) && (before.life == Idle ==> s.workers == before.workers)
       case RunClearing(n') => n' == n && Accepted(before, n) && s.workers == before.workers
       case RunMarking(n') => n' == n && Accepted(before, n) && s.workers == before.workers
       case RunSpawning(n') => n' == n && Accepted(before, n) && s.workers == before.workers
       case Leaving => Decided(before, s, n)
       case _ => false
  }

  /** An accepted run has started one more worker, which it asked for `n` cycles and which the handle
      holds; any other run has started none and left the handle and the state of the loop alone. */
  ghost predicate Decided(before: Loop, s: Loop, n: int) {
    var w := |before.workers|;
    && (Accepted(before, n) ==>
          && |s.workers| == w + 1 && s.workers[..w] == before.workers && s.workers[w].requested == n
          && s.handle == Joinable(w) && s.life in {Running, Finished})
    && (!Accepted(before, n) ==>
          |s.workers| == w && s.handle == before.handle && (s.life == Idle <==> before.life == Idle))
  }

  lemma DecidingBegins(s: Loop, t: nat, n: int)
    requires Inv(s) && s.mutex.Free? && t < |s.callers| && s.callers[t] == RunBlocked(n)
    ensures Deciding(s, StepCaller(s, t), t, n)
  {
  }

  lemma DecidingStep(before: Loop, s: Loop, a: Action, t: nat, n: int)
    requires Inv(before) && before.mutex.Free? && Inv(s) && s.mutex == HeldBy(t) && Deciding(before, s, t, n)
    requires Do(s, a).mutex == HeldBy(t)
    ensures Deciding(before, Do(s, a), t, n)
  {
    assert Insider(s) == s.callers[t];
    match a
    case CallerStep(u) => if u == t { CallerDecides(before, s, t, n); } else { OthersWait(s, u, t); }
    case WorkerStep(w) => if w < |s.workers| { WorkerLeavesDecision(before, s, w, t, n); }
    case _ =>
  }

  lemma CallerDecides(before: Loop, s: Loop, t: nat, n: int)
    requires Inv(before) && before.mutex.Free? && Inv(s) && s.mutex == HeldBy(t) && Deciding(before, s, t, n)
    requires StepCaller(s, t).mutex == HeldBy(t)
    ensures Deciding(before, StepCaller(s, t), t, n)
  {
  }

  /** Nobody else moves past the mutex. */
  lemma OthersWait(s: Loop, u: nat, t: nat)
    requires Inv(s) && s.mutex == HeldBy(t) && u != t
    ensures Do(s, CallerStep(u)) == s
  {
  }

  lemma WorkerLeavesDecision(before: Loop, s: Loop, w: nat, t: nat, n: int)
    requires Inv(s) && s.mutex == HeldBy(t) && Deciding(before, s, t, n) && w < |s.workers|
    ensures Deciding(before, StepWorker(s, w), t, n)
  {
  }

  lemma {:induction false} RunDeciding(m: nat, acts: seq<Action>, i: nat, j: nat, t: nat, n: int)
    requires InsideCall(m, acts, i, j, t) && StateAt(m, acts, i).callers[t] == RunBlocked(n)
    ensures i < j <= |acts| && Deciding(StateAt(m, acts, i), StateAt(m, acts, j), t, n)
    decreases j
  {
    hide Inv, Do, Deciding;
    InsideStep(m, acts, i, j, t);
    Invariant(m, acts, i);
    if j == i + 1 {
      DecidingBegins(StateAt(m, acts, i), t, n);
      CallerActs(StateAt(m, acts, i), t);
    } else {
      RunDeciding(m, acts, i, j - 1, t, n);
      InsideStep(m, acts, i, j - 1, t);
      Invariant(m, acts, j - 1);
      DecidingStep(StateAt(m, acts, i), StateAt(m, acts, j - 1), acts[j - 1], t, n);
    }
  }

  lemma CallerActs(s: Loop, t: nat)
    requires t < |s.callers|
    ensures Do(s, CallerStep(t)) == StepCaller(s, t)
  {
  }

  /** Over every interleaving, a call of `run(n)` that is about to leave the mutex has started exactly
      one worker for `n` cycles, held by the handle, if it took the mutex with the loop idle and n > 0;
      and has had no effect otherwise. */
  lemma RunStartsItsWorker(m: nat, acts: seq<Action>, i: nat, j: nat, t: nat, n: int)
    requires InsideCall(m, acts, i, j, t) && StateAt(m, acts, i).callers[t] == RunBlocked(n)
    requires t < |StateAt(m, acts, j).callers| && StateAt(m, acts, j).callers[t].Leaving?
    ensures Decided(StateAt(m, acts, i), StateAt(m, acts, j), n)
    ensures |StateAt(m, acts, j).workers| == |StateAt(m, acts, i).workers| <==> !Accepted(StateAt(m, acts, i), n)
  {
    RunDeciding(m, acts, i, j, t, n);
    hide StateAt;
  }

  /** A call of `wait` inside the mutex. */
  ghost predicate Joining(s: Loop, t: nat) {
    t < |s.callers| && match s.callers[t]
      case WaitChecking => true
      case WaitJoining => true
      case WaitMarking => s.handle.Empty?
      case Leaving => s.handle.Empty? && s.life == Idle
      case _ => false
  }

  lemma JoiningStep(s: Loop, a: Action, t: nat)
    requires Inv(s) && s.mutex == HeldBy(t) && Joining(s, t) && Do(s, a).mutex == HeldBy(t)
    ensures Joining(Do(s, a), t)
  {
    assert Insider(s) == s.callers[t];
    match a
    case CallerStep(u) => if u != t { OthersWait(s, u, t); }
    case _ =>
  }

  /** Over every interleaving, a call of `wait` that is about to leave the mutex has joined the worker:
      none is alive, none is left to be joined, and the loop is idle. */
  lemma {:induction false} WaitJoins(m: nat, acts: seq<Action>, i: nat, j: nat, t: nat)
    requires InsideCall(m, acts, i, j, t) && StateAt(m, acts, i).callers[t].WaitBlocked?
    ensures i < j <= |acts| && Joining(StateAt(m, acts, j), t)
    ensures var s := StateAt(m, acts, j);
            && t < |s.callers|
            && (s.callers[t].Leaving? ==>
                  s.handle.Empty? && s.life == Idle && forall w | 0 <= w < |s.workers| :: s.workers[w].pc.Exited?)
    decreases j
  {
    hide Inv, Do, Joining;
    InsideStep(m, acts, i, j, t);
    if j == i + 1 {
      JoiningBegins(StateAt(m, acts, i), t);
      CallerActs(StateAt(m, acts, i), t);
    } else {
      WaitJoins(m, acts, i, j - 1, t);
      InsideStep(m, acts, i, j - 1, t);
      Invariant(m, acts, j - 1);
      JoiningStep(StateAt(m, acts, j - 1), acts[j - 1], t);
    }
    Invariant(m, acts, j);
    Joined(StateAt(m, acts, j), t);
  }

  lemma JoiningBegins(s: Loop, t: nat)
    requires s.mutex.Free? && t < |s.callers| && s.callers[t].WaitBlocked?
    ensures Joining(StepCaller(s, t), t)
  {
  }

  lemma Joined(s: Loop, t: nat)
    requires Inv(s) && Joining(s, t)
    ensures t < |s.callers|
    ensures s.callers[t].Leaving? ==>
              s.handle.Empty? && s.life == Idle && forall w | 0 <= w < |s.workers| :: s.workers[w].pc.Exited?
  {
  }

  // ---------------------------------------------------------------- an accepted run, to its end

  /** An accepted run of `n` has not cleared the flag yet. */
  ghost predicate Accepting(before: Loop, s: Loop, t: nat, n: nat) {
    && |s.workers| == |before.workers| && s.completed == before.completed && s.life == Idle && s.handle.Empty?
    && s.mutex == HeldBy(t) && t < |s.callers| && s.callers[t] in {RunChecking(n), RunClearing(n)}
  }

  lemma AcceptingStep(before: Loop, s: Loop, a: Action, t: nat, n: nat)
    requires Inv(s) && Accepting(before, s, t, n) && n > 0
    ensures Accepting(before, Do(s, a), t, n) || (a == CallerStep(t) && s.callers[t] == RunClearing(n))
  {
    assert Insider(s) == s.callers[t];
    match a
    case CallerStep(u) => if u != t { OthersWait(s, u, t); }
    case _ =>
  }

  lemma AcceptingBegins(s: Loop, t: nat, n: nat)
    requires Inv(s) && s.mutex.Free? && t < |s.callers| && s.callers[t] == RunBlocked(n) && Accepted(s, n)
    ensures Accepting(s, Do(s, CallerStep(t)), t, n)
  {
  }

  /** Caller `t` takes the mutex for `run(n)` as action `i`, with the loop idle. */
  ghost predicate RunTaken(m: nat, acts: seq<Action>, i: nat, t: nat, n: nat) {
    && i < |acts| && acts[i] == CallerStep(t) && t < |StateAt(m, acts, i).callers|
    && StateAt(m, acts, i).mutex.Free? && StateAt(m, acts, i).callers[t] == RunBlocked(n)
    && Accepted(StateAt(m, acts, i), n)
  }

  /** The caller is still before the clearing of the flag, or has made it as action `k`. */
  lemma {:induction false} FindsClearing(m: nat, acts: seq<Action>, i: nat, j: nat, t: nat, n: nat) returns (k: nat)
    requires RunTaken(m, acts, i, t, n) && i < j <= |acts|
    ensures i < k <= j && Accepting(StateAt(m, acts, i), StateAt(m, acts, k), t, n)
    ensures k < j ==> acts[k] == CallerStep(t) && StateAt(m, acts, k).callers[t] == RunClearing(n)
    decreases j
  {
    hide Inv, Do, Accepting;
    Invariant(m, acts, i);
    if j == i + 1 {
      AcceptingBegins(StateAt(m, acts, i), t, n);
      k := j;
    } else {
      k := FindsClearing(m, acts, i, j - 1, t, n);
      if k == j - 1 {
        Invariant(m, acts, k);
        AcceptingStep(StateAt(m, acts, i), StateAt(m, acts, k), acts[k], t, n);
        if Accepting(StateAt(m, acts, i), StateAt(m, acts, j), t, n) { k := j; }
      }
    }
    AcceptingCaller(StateAt(m, acts, i), StateAt(m, acts, k), t, n);
  }

  lemma AcceptingCaller(before: Loop, s: Loop, t: nat, n: nat)
    requires Accepting(before, s, t, n)
    ensures t < |s.callers| && |s.workers| == |before.workers| && s.completed == before.completed
  {
  }

  /** Over every interleaving: a call `run(n)` that took the mutex with the loop idle has, when the
      worker after those there were then has exited, completed exactly `n` cycles through it, and the
      count has grown by `n`, provided nobody requested a stop and no further run was started. */
  lemma RunCompletes(m: nat, acts: seq<Action>, i: nat, j: nat, t: nat, n: nat)
    requires RunTaken(m, acts, i, t, n) && i < j <= |acts|
    requires forall q | i < q < j :: acts[q] != RequestStop
    requires var s, w := StateAt(m, acts, j), |StateAt(m, acts, i).workers|;
             |s.workers| > w && s.workers[w].pc.Exited?
    ensures var before, s, w := StateAt(m, acts, i), StateAt(m, acts, j), |StateAt(m, acts, i).workers|;
            && s.workers[w].requested == s.workers[w].done == n
            && (|s.workers| == w + 1 ==> s.completed == before.completed + n)
  {
    hide StateAt, Accepting, RunTaken;
    var k := FindsClearing(m, acts, i, j, t, n);
    AcceptingCaller(StateAt(m, acts, i), StateAt(m, acts, k), t, n);
    RunAddsItsCycles(m, acts, k, j, t, n);
  }

  // ---------------------------------------------------------------- a quiet run and its wait

  /** The action `a`, `k` times. */
  function Again(s: Loop, a: Action, k: nat): Loop {
    if k == 0 then s else Do(Again(s, a, k - 1), a)
  }

  /** Without interference, a call of `run(n)` on a loop with its mutex free starts a worker if the loop
      is idle and n > 0, and otherwise leaves everything exactly as it was. */
  lemma QuietRun(s: Loop, t: nat, n: int)
    requires s.mutex.Free? && t < |s.callers| && s.callers[t].Away?
    ensures var called := Do(s, CallRun(t, n));
            if Accepted(s, n) then
              Again(called, CallerStep(t), 6) ==
              s.(life := Running, stop := false, handle := Joinable(|s.workers|), workers := s.workers + [Worker(n, 0, Starting)])
            else Again(called, CallerStep(t), 3) == s
  {
    hide Do;
    var a, s0 := CallerStep(t), Do(s, CallRun(t, n));
    var s1, s2, s3 := Again(s0, a, 1), Again(s0, a, 2), Again(s0, a, 3);
    Calls(s, t, n);
    assert s0 == Move(s, t, RunBlocked(n));
    assert Again(s0, a, 0) == s0;
    CallerActs(s0, t);
    CallerActs(s1, t);
    CallerActs(s2, t);
    var held := s.(mutex := HeldBy(t));
    assert s1 == Move(held, t, RunChecking(n)) by { MoveTwice(held, t, RunBlocked(n), RunChecking(n)); }
    if Accepted(s, n) {
      MoveTwice(held, t, RunChecking(n), RunClearing(n));
      assert s2 == Move(held, t, RunClearing(n));
      MoveTwice(held.(stop := false), t, RunClearing(n), RunMarking(n));
      assert s3 == Move(held.(stop := false), t, RunMarking(n));
      QuietSpawn(s, s3, t, n);
      assert Again(s0, a, 4) == Do(s3, a);
      assert Again(s0, a, 5) == Do(Do(s3, a), a);
      assert Again(s0, a, 6) == Do(Do(Do(s3, a), a), a);
    } else {
      MoveTwice(held, t, RunChecking(n), Leaving);
      assert s2 == Move(held, t, Leaving);
      MoveTwice(s, t, Leaving, Away);
      assert s3 == Move(s, t, Away);
    }
    assert Move(s, t, Away) == s;
  }

  lemma Calls(s: Loop, t: nat, n: int)
    requires t < |s.callers| && s.callers[t].Away?
    ensures Do(s, CallRun(t, n)) == Move(s, t, RunBlocked(n)) && Do(s, CallWait(t)) == Move(s, t, WaitBlocked)
  {
  }

  lemma MoveTwice(s: Loop, t: nat, one: Caller, other: Caller)
    requires t < |s.callers|
    ensures Move(Move(s, t, one), t, other) == Move(s, t, other)
  {
  }

  lemma QuietSpawn(s: Loop, marking: Loop, t: nat, n: int)
    requires s.mutex.Free? && t < |s.callers| && s.callers[t].Away? && n > 0
    requires marking == Move(s.(mutex := HeldBy(t), stop := false), t, RunMarking(n))
    ensures var a := CallerStep(t);
            Do(Do(Do(marking, a), a), a) ==
            s.(life := Running, stop := false, handle := Joinable(|s.workers|), workers := s.workers + [Worker(n, 0, Starting)])
  {
    var a := CallerStep(t);
    var spawning, leaving := Do(marking, a), Do(Do(marking, a), a);
    assert Do(leaving, a).callers == s.callers;
  }

  /** Without interference, the worker makes its cycles. */
  lemma {:induction false} QuietCycles(s: Loop, w: nat, k: nat)
    requires w < |s.workers| && s.workers[w].pc.Starting? && s.workers[w].done == 0 && k <= s.workers[w].requested && !s.stop
    ensures Again(s, WorkerStep(w), 2 * k + 1) ==
            s.(completed := s.completed + k, workers := s.workers[w := s.workers[w].(done := k, pc := Checking)])
  {
    var a := WorkerStep(w);
    if k == 0 {
      assert Again(s, a, 0) == s;
    } else {
      QuietCycles(s, w, k - 1);
      var checking := Again(s, a, 2 * k - 1);
      assert Again(s, a, 2 * k + 1) == Do(Do(checking, a), a);
      assert Do(Do(checking, a), a).workers == s.workers[w := s.workers[w].(done := k, pc := Checking)];
    }
  }

  /** The steps of a worker that nobody interferes with: all its cycles, then its report, then its end. */
  lemma QuietWorker(s: Loop, w: nat)
    requires w < |s.workers| && s.workers[w].pc.Starting? && s.workers[w].done == 0 && !s.stop
    ensures var n := s.workers[w].requested;
            Again(s, WorkerStep(w), 2 * n + 4) ==
            s.(completed := s.completed + n, life := Finished, workers := s.workers[w := Worker(n, n, Exited)])
  {
    var a, n := WorkerStep(w), s.workers[w].requested;
    QuietCycles(s, w, n);
    var checking := Again(s, a, 2 * n + 1);
    assert Again(s, a, 2 * n + 2) == Do(checking, a);
    assert Again(s, a, 2 * n + 3) == Do(Do(checking, a), a);
    assert Again(s, a, 2 * n + 4) == Do(Do(Do(checking, a), a), a);
    assert Do(Do(Do(checking, a), a), a).workers == s.workers[w := Worker(n, n, Exited)];
  }

  /** Without interference, `wait` joins a worker that has exited and returns the loop to idle. */
  lemma QuietWait(s: Loop, t: nat)
    requires s.mutex.Free? && t < |s.callers| && s.callers[t].Away?
    requires s.handle.Joinable? && s.handle.worker < |s.workers| && s.workers[s.handle.worker].pc.Exited?
    ensures Again(Do(s, CallWait(t)), CallerStep(t), 5) == s.(handle := Empty, life := Idle)
  {
    hide Do;
    var a, s0, held := CallerStep(t), Do(s, CallWait(t)), s.(mutex := HeldBy(t));
    var s1, s2, s3, s4 := Again(s0, a, 1), Again(s0, a, 2), Again(s0, a, 3), Again(s0, a, 4);
    Calls(s, t, 0);
    assert Again(s0, a, 0) == s0;
    CallerActs(s0, t);
    MoveTwice(held, t, WaitBlocked, WaitChecking);
    assert s1 == Move(held, t, WaitChecking);
    CallerActs(s1, t);
    MoveTwice(held, t, WaitChecking, WaitJoining);
    assert s2 == Move(held, t, WaitJoining);
    CallerActs(s2, t);
    MoveTwice(held.(handle := Empty), t, WaitJoining, WaitMarking);
    assert s3 == Move(held.(handle := Empty), t, WaitMarking);
    CallerActs(s3, t);
    MoveTwice(held.(handle := Empty, life := Idle), t, WaitMarking, Leaving);
    assert s4 == Move(held.(handle := Empty, life := Idle), t, Leaving);
    CallerActs(s4, t);
    MoveTwice(s.(handle := Empty, life := Idle), t, Leaving, Away);
    assert Move(s, t, Away) == s;
  }

  /** The use the program makes of the loop, from any state in which it is idle and nobody is inside: a
      run of `n`, its worker's steps, and a wait leave it idle again, with nothing to join, and with
      exactly `n` more completed cycles. */
  lemma RunThenWait(s: Loop, t: nat, n: nat)
    requires Accepted(s, n) && s.mutex.Free? && t < |s.callers| && s.callers[t].Away?
    ensures var running := Again(Do(s, CallRun(t, n)), CallerStep(t), 6);
            var finished := Again(running, WorkerStep(|s.workers|), 2 * n + 4);
            Again(Do(finished, CallWait(t)), CallerStep(t), 5) ==
            s.(stop := false, handle := Empty, completed := s.completed + n, workers := s.workers + [Worker(n, n, Exited)])
  {
    hide Do, Again;
    QuietRun(s, t, n);
    var running := Again(Do(s, CallRun(t, n)), CallerStep(t), 6);
    var w := |s.workers|;
    QuietWorker(running, w);
    assert running.workers[w := Worker(n, n, Exited)] == s.workers + [Worker(n, n, Exited)];
    QuietWait(Again(running, WorkerStep(w), 2 * n + 4), t);
  }
}
