/** The control loop and its monitors together: the worker updates the robot, publishes its state
    and counts the cycle; monitors call `state()`, one at a time under a mutex, and keep the last
    state they could read.  Interleaved at the granularity of single atomic accesses. */
module Monitor {
  import opened JointTypes
  import opened JointDynamics
  import opened RobotDynamics
  import opened SeqLock
  import opened SnapshotBuffers
  import Convergence

  /** Where the worker is in its cycle. */
  datatype Stage = Ready | Updated | Publishing | Published

  datatype Holder = Free | HeldBy(monitor: nat)

  /** What a call of `state()` returned, and the publication it was read from. */
  datatype Result = Result(value: Cells, index: nat)

  /** `updates` is the history of robots after each update; `results` the history of returns. */
  datatype Loop = Loop(lock: System, robot: RobotModel, updates: seq<RobotModel>, stage: Stage, completed: nat,
                       holder: Holder, lastState: Cells, lastIndex: nat, results: seq<Result>)

  datatype LoopAction =
    | Command(op: RobotOp)   // a target or an acceleration set, or a joint initialised, between updates
    | UpdateRobot            // the worker's update of the robot
    | PublishAccess          // the worker's next atomic access of its publication
    | CountCycle             // the worker's increment of the completed cycles
    | Enter(monitor: nat)    // a monitor locks the mutex and begins to read
    | Load(monitor: nat)     // its next atomic load
    | Leave(monitor: nat)    // it keeps what it read, returns and unlocks

  function InitialLoop(n: nat): Loop {
    Loop(SeqLock.Initial(n), NewRobot(), [], Ready, 0, Free, ZEROS, 0, [])
  }

  /** The step that an action makes in the snapshot protocol. */
  function LockAction(s: Loop, a: LoopAction): Action {
    match a
    case PublishAccess =>
      if s.stage.Updated? then Begin(Flatten(StateOf(s.robot)))
      else if s.stage.Publishing? && s.lock.writer.Storing? then
        if s.lock.writer.next < CELLS then Store else End
      else Idle
    case Enter(m) => if s.holder.Free? && m < |s.lock.readers| then Call(m) else Idle
    case Load(m) => if s.holder == HeldBy(m) then Access(m) else Idle
    case _ => Idle
  }

  function DoLoop(s: Loop, a: LoopAction): Loop {
    LocalStep(s.(lock := Do(s.lock, LockAction(s, a))), a, s)
  }

  /** What an action does besides its step in the snapshot protocol, which `t` already shows. */
  function LocalStep(t: Loop, a: LoopAction, s: Loop): Loop {
    match a
    case Command(op) =>
      if s.stage.Ready? && !op.Update? then t.(robot := Apply(PD, s.robot, op).0) else t
    case UpdateRobot =>
      if s.stage.Ready? then
        t.(robot := Cycle(s.robot), updates := s.updates + [Cycle(s.robot)], stage := Updated)
      else t
    case PublishAccess =>
      if s.stage.Updated? then t.(stage := Publishing)
      else if s.stage.Publishing? && t.lock.writer.Resting? then t.(stage := Published)
      else t
    case CountCycle =>
      if s.stage.Published? then t.(completed := s.completed + 1, stage := Ready) else t
    case Enter(m) =>
      if s.holder.Free? && m < |s.lock.readers| then t.(holder := HeldBy(m)) else t
    case Load(m) => t
    case Leave(m) =>
      if s.holder == HeldBy(m) && m < |s.lock.readers| && s.lock.readers[m].Returned?
      then Return(t, s.lock.readers[m]) else t
  }

  /** The worker's update, at the fixed time step. */
  function Cycle(robot: RobotModel): RobotModel {
    UpdateAll(PD, robot, Convergence.DT)
  }

  /** The end of `state()`: keep the snapshot if it was read, return the last one kept, unlock. */
  function Return(t: Loop, r: Reader): Loop
    requires r.Returned?
  {
    if r.ok && |r.value| == CELLS then
      t.(holder := Free, lastState := r.value, lastIndex := r.stamp / 2, results := t.results + [Result(r.value, r.stamp / 2)])
    else
      t.(holder := Free, results := t.results + [Result(t.lastState, t.lastIndex)])
  }

  function LoopAt(n: nat, acts: seq<LoopAction>, k: nat): Loop
    requires k <= |acts|
  {
    if k == 0 then InitialLoop(n) else DoLoop(LoopAt(n, acts, k - 1), acts[k - 1])
  }

  // ---------------------------------------------------------------- the loop runs the protocol

  function LockActions(n: nat, acts: seq<LoopAction>): seq<Action> {
    seq(|acts|, k requires 0 <= k < |acts| => LockAction(LoopAt(n, acts, k), acts[k]))
  }

  /** Every execution of the loop is an execution of the snapshot protocol, so everything proved of
      the protocol holds of the loop. */
  lemma {:induction false} RunsProtocol(n: nat, acts: seq<LoopAction>, k: nat)
    requires k <= |acts|
    ensures LoopAt(n, acts, k).lock == StateAt(n, LockActions(n, acts), k)
  {
    hide LockAction, Do, DoLoop;
    if k > 0 {
      RunsProtocol(n, acts, k - 1);
      LockOf(LoopAt(n, acts, k - 1), acts[k - 1]);
    }
  }

  lemma LockOf(s: Loop, a: LoopAction)
    ensures DoLoop(s, a).lock == Do(s.lock, LockAction(s, a))
  {
    hide LockAction, Do, Apply, Cycle;
  }

  // ---------------------------------------------------------------- the invariant

  ghost predicate StateInLimits(x: RobotState) {
    forall i | 0 <= i < JOINT_COUNT :: DEFAULT_LIMITS[i].Allows(x[i])
  }

  ghost predicate RobotOk(robot: RobotModel) {
    Safe(robot) && forall i | 0 <= i < JOINT_COUNT :: robot[i].limits == DEFAULT_LIMITS[i]
  }

  /** The publications are the states after the updates, in order. */
  ghost predicate WorkerInv(s: Loop) {
    && WriterInv(s.lock) && RobotOk(s.robot)
    && (forall k | 0 <= k < |s.updates| :: StateInLimits(StateOf(s.updates[k])))
    && s.lock.published[0] == ZEROS
    && (forall k | 1 <= k < |s.lock.published| ::
          k <= |s.updates| && s.lock.published[k] == Flatten(StateOf(s.updates[k - 1])))
    && StageInv(s, Completed(s.lock))
  }

  /** How far the worker is, when `done` publications are complete. */
  ghost predicate StageInv(s: Loop, done: nat) {
    match s.stage
    case Ready => s.lock.writer.Resting? && |s.updates| == done == s.completed
    case Updated =>
      && s.lock.writer.Resting? && |s.updates| == done + 1 && s.completed == done
      && s.robot == s.updates[done]
    case Publishing =>
      && s.lock.writer.Storing? && |s.updates| == done + 1 && s.completed == done
      && s.lock.writer.snapshot == Flatten(StateOf(s.updates[done]))
    case Published => s.lock.writer.Resting? && |s.updates| == done == s.completed + 1
  }

  /** The reader of the monitor inside `state()` is ahead of everything returned before. */
  ghost predicate AheadOf(r: Reader, index: nat) {
    && (r.Loading? ==> r.before / 2 >= index)
    && (r.Returned? && r.ok ==> r.stamp / 2 >= index)
  }

  ghost predicate ReadersInv(s: Loop) {
    forall r | 0 <= r < |s.lock.readers| :: ReaderInv(s.lock, s.lock.readers[r])
  }

  /** Only the monitor that holds the mutex is reading, and it reads ahead. */
  ghost predicate HolderInv(s: Loop) {
    && (forall r | 0 <= r < |s.lock.readers| && s.holder != HeldBy(r) :: !InProgress(s.lock.readers[r]))
    && (s.holder.HeldBy? ==>
          && s.holder.monitor < |s.lock.readers| && !s.lock.readers[s.holder.monitor].Away?
          && AheadOf(s.lock.readers[s.holder.monitor], s.lastIndex))
  }

  /** The kept state and everything returned are publications, in order. */
  ghost predicate ResultsInv(s: Loop) {
    && s.lastIndex < |s.lock.published| && s.lastState == s.lock.published[s.lastIndex]
    && (forall q | 0 <= q < |s.results| ::
          && s.results[q].index <= s.lastIndex
          && s.results[q].value == s.lock.published[s.results[q].index])
    && (forall p, q | 0 <= p <= q < |s.results| :: s.results[p].index <= s.results[q].index)
  }

  ghost predicate MonitorInv(s: Loop) {
    ReadersInv(s) && HolderInv(s) && ResultsInv(s)
  }

  lemma InitialLoopInv(n: nat)
    ensures WorkerInv(InitialLoop(n)) && MonitorInv(InitialLoop(n))
  {
  }

  lemma SafeStates(robot: RobotModel)
    requires RobotOk(robot)
    ensures StateInLimits(StateOf(robot))
  {
  }

  lemma CommandKeepsRobot(robot: RobotModel, op: RobotOp)
    requires RobotOk(robot)
    ensures RobotOk(Apply(PD, robot, op).0)
  {
    hide Apply, PD;
    ApplySafe(PD, robot, op);
  }

  lemma StepKeepsWorker(s: Loop, a: LoopAction)
    requires WorkerInv(s)
    ensures WorkerInv(DoLoop(s, a))
  {
    match a
    case Command(op) => CommandKeepsWorker(s, op);
    case UpdateRobot => UpdateKeepsWorker(s);
    case PublishAccess => PublishKeepsWorker(s);
    case _ => OthersKeepWorker(s, a);
  }

  lemma CommandKeepsWorker(s: Loop, op: RobotOp)
    requires WorkerInv(s)
    ensures WorkerInv(DoLoop(s, Command(op)))
  {
    hide Apply, Cycle, StateOf, Flatten, RobotOk, StateInLimits;
    CommandKeepsRobot(s.robot, op);
  }

  lemma UpdateKeepsWorker(s: Loop)
    requires WorkerInv(s)
    ensures WorkerInv(DoLoop(s, UpdateRobot))
  {
    hide Apply, Cycle, StateOf, Flatten, RobotOk, StateInLimits;
    UpdateIsCommand(s.robot);
    CommandKeepsRobot(s.robot, Update(Convergence.DT));
    SafeStates(Cycle(s.robot));
  }

  lemma PublishKeepsWorker(s: Loop)
    requires WorkerInv(s)
    ensures WorkerInv(DoLoop(s, PublishAccess))
  {
    hide StateOf, Flatten, RobotOk, StateInLimits;
    WriterOrReader(s.lock, LockAction(s, PublishAccess));
  }

  lemma OthersKeepWorker(s: Loop, a: LoopAction)
    requires WorkerInv(s) && (a.CountCycle? || a.Enter? || a.Load? || a.Leave?)
    ensures WorkerInv(DoLoop(s, a))
  {
    hide StateOf, Flatten, RobotOk, StateInLimits, ReaderStep;
    WriterOrReader(s.lock, LockAction(s, a));
    hide Do;
  }

  lemma UpdateIsCommand(robot: RobotModel)
    ensures Apply(PD, robot, Update(Convergence.DT)).0 == Cycle(robot)
  {
  }

  lemma WriterOrReader(s: System, a: Action)
    requires WriterInv(s)
    ensures WriterInv(Do(s, a))
    ensures a.Call? || a.Access? || a.Idle? ==>
              Do(s, a).memory == s.memory && Do(s, a).writer == s.writer && Do(s, a).published == s.published
  {
    WriterStepKeeps(s, a);
  }

  lemma StepKeepsReaders(s: Loop, a: LoopAction)
    requires WorkerInv(s) && ReadersInv(s)
    ensures ReadersInv(DoLoop(s, a)) && |DoLoop(s, a).lock.readers| == |s.lock.readers|
  {
    assert Inv(s.lock) by { hide ReaderInv; }
    hide DoLoop, LockAction, Do, ReaderInv, WriterInv;
    StepKeepsInv(s.lock, LockAction(s, a));
    LockOf(s, a);
  }

  /** What an action does to the monitors' side of the snapshot protocol. */
  lemma LockEffect(s: Loop, a: LoopAction)
    ensures var lock := DoLoop(s, a).lock;
            && s.lock.published <= lock.published
            && (a.Enter? && s.holder.Free? && a.monitor < |s.lock.readers| && !InProgress(s.lock.readers[a.monitor]) ==>
                  lock.readers == s.lock.readers[a.monitor := Attempting(0)])
            && (a.Load? && s.holder == HeldBy(a.monitor) && a.monitor < |s.lock.readers| ==>
                  lock.readers == s.lock.readers[a.monitor := ReaderStep(s.lock.readers[a.monitor], s.lock.memory)])
            && (!(a.Enter? && s.holder.Free? && a.monitor < |s.lock.readers|) && !(a.Load? && s.holder == HeldBy(a.monitor)) ==>
                  lock.readers == s.lock.readers)
  {
    hide ReaderStep, Apply, Cycle, Flatten;
  }

  lemma LoadStaysAhead(s: Loop, r: Reader)
    requires WriterInv(s.lock) && ResultsInv(s) && AheadOf(r, s.lastIndex)
    ensures AheadOf(ReaderStep(r, s.lock.memory), s.lastIndex)
  {
  }

  lemma HolderEffect(s: Loop, a: LoopAction)
    ensures var s' := DoLoop(s, a);
            && s'.holder ==
               (if a.Enter? && s.holder.Free? && a.monitor < |s.lock.readers| then HeldBy(a.monitor)
                else if a.Leave? && s.holder == HeldBy(a.monitor) && a.monitor < |s.lock.readers|
                        && s.lock.readers[a.monitor].Returned? then Holder.Free
                else s.holder)
            && (s'.holder.HeldBy? ==> s'.lastIndex == s.lastIndex)
  {
    hide Do, LockAction, Apply, Cycle;
  }

  lemma StepKeepsHolder(s: Loop, a: LoopAction)
    requires WorkerInv(s) && ReadersInv(s) && HolderInv(s) && ResultsInv(s)
    ensures HolderInv(DoLoop(s, a))
  {
    LockEffect(s, a);
    HolderEffect(s, a);
    if s.holder.HeldBy? {
      LoadKeepsOn(s, s.lock.readers[s.holder.monitor]);
    }
    hide DoLoop, ReaderStep, AheadOf, WorkerInv, ReadersInv, ResultsInv;
    Entering(s.lastIndex);
  }

  lemma LoadKeepsOn(s: Loop, r: Reader)
    requires WorkerInv(s) && ResultsInv(s) && AheadOf(r, s.lastIndex) && !r.Away?
    ensures AheadOf(ReaderStep(r, s.lock.memory), s.lastIndex) && !ReaderStep(r, s.lock.memory).Away?
    ensures !InProgress(r) ==> !InProgress(ReaderStep(r, s.lock.memory))
  {
    LoadStaysAhead(s, r);
  }

  lemma Entering(index: nat)
    ensures AheadOf(Attempting(0), index)
  {
  }

  lemma StepKeepsResults(s: Loop, a: LoopAction)
    requires ReadersInv(s) && HolderInv(s) && ResultsInv(s)
    ensures ResultsInv(DoLoop(s, a))
  {
    LockEffect(s, a);
    hide ReaderStep, LockAction, Do, Apply, Cycle;
  }

  lemma StepKeepsMonitor(s: Loop, a: LoopAction)
    requires WorkerInv(s) && MonitorInv(s)
    ensures MonitorInv(DoLoop(s, a))
  {
    hide ReadersInv, HolderInv, ResultsInv, WorkerInv, DoLoop;
    StepKeepsReaders(s, a);
    StepKeepsHolder(s, a);
    StepKeepsResults(s, a);
  }

  lemma {:induction false} LoopInvariant(n: nat, acts: seq<LoopAction>, k: nat)
    requires k <= |acts|
    ensures WorkerInv(LoopAt(n, acts, k)) && MonitorInv(LoopAt(n, acts, k))
  {
    hide WorkerInv, MonitorInv;
    if k == 0 {
      InitialLoopInv(n);
    } else {
      LoopInvariant(n, acts, k - 1);
      StepKeepsWorker(LoopAt(n, acts, k - 1), acts[k - 1]);
      StepKeepsMonitor(LoopAt(n, acts, k - 1), acts[k - 1]);
    }
  }

  // ---------------------------------------------------------------- what monitors are guaranteed

  lemma ZerosAreSafe()
    ensures Flatten(ZERO_STATE) == ZEROS && StateInLimits(ZERO_STATE)
  {
  }

  /** The result is all zeros or exactly the robot's state after one of its updates, within limits. */
  ghost predicate IsRobotState(s: Loop, result: Result) {
    && result.index <= |s.updates|
    && var state := if result.index == 0 then ZERO_STATE else StateOf(s.updates[result.index - 1]);
       result.value == Flatten(state) && StateInLimits(state)
  }

  /** Everything `state()` ever returned is all zeros or exactly the robot's state after one of its
      updates, and inside every position and velocity limit. */
  lemma ResultsAreRobotStates(n: nat, acts: seq<LoopAction>, k: nat, q: nat)
    requires k <= |acts| && q < |LoopAt(n, acts, k).results|
    ensures IsRobotState(LoopAt(n, acts, k), LoopAt(n, acts, k).results[q])
  {
    hide LoopAt, WorkerInv, MonitorInv, IsRobotState;
    LoopInvariant(n, acts, k);
    PublicationsAreStates(LoopAt(n, acts, k), q);
  }

  lemma PublicationsAreStates(s: Loop, q: nat)
    requires WorkerInv(s) && MonitorInv(s) && q < |s.results|
    ensures IsRobotState(s, s.results[q])
  {
    ZerosAreSafe();
    hide Flatten, StateOf, StateInLimits, RobotOk, WriterInv, StageInv, ReadersInv, HolderInv;
  }

  /** In the order in which the calls held the mutex, results never go back. */
  lemma ResultsNeverGoBack(n: nat, acts: seq<LoopAction>, k: nat, p: nat, q: nat)
    requires k <= |acts| && p <= q < |LoopAt(n, acts, k).results|
    ensures LoopAt(n, acts, k).results[p].index <= LoopAt(n, acts, k).results[q].index
  {
    hide LoopAt;
    LoopInvariant(n, acts, k);
  }

  /** Monitor `m` enters as action `i` and holds the mutex until state `j`. */
  ghost predicate Inside(n: nat, acts: seq<LoopAction>, m: nat, i: nat, j: nat) {
    && i < j <= |acts| && acts[i] == Enter(m) && LoopAt(n, acts, i).holder.Free?
    && forall k | i < k <= j :: LoopAt(n, acts, k).holder == HeldBy(m)
  }

  lemma StepGrows(s: Loop, a: LoopAction)
    ensures s.completed <= DoLoop(s, a).completed
    ensures s.lock.memory.sequence <= DoLoop(s, a).lock.memory.sequence
  {
    hide ReaderStep, Apply, Cycle, Flatten;
  }

  lemma LoopNext(n: nat, acts: seq<LoopAction>, k: nat)
    requires 0 < k <= |acts|
    ensures LoopAt(n, acts, k) == DoLoop(LoopAt(n, acts, k - 1), acts[k - 1])
  {
    hide DoLoop;
  }

  lemma {:induction false} CountGrows(n: nat, acts: seq<LoopAction>, i: nat, j: nat)
    requires i <= j <= |acts|
    ensures LoopAt(n, acts, i).completed <= LoopAt(n, acts, j).completed
    ensures LoopAt(n, acts, i).lock.memory.sequence <= LoopAt(n, acts, j).lock.memory.sequence
  {
    hide DoLoop, LoopAt;
    if i < j {
      CountGrows(n, acts, i, j - 1);
      LoopNext(n, acts, j);
      StepGrows(LoopAt(n, acts, j - 1), acts[j - 1]);
    }
  }

  /** Completed cycles are completed publications. */
  lemma CountIsPublished(s: Loop)
    requires WorkerInv(s)
    ensures s.completed <= s.lock.memory.sequence / 2
  {
  }

  lemma LoadAhead(r: Reader, m: Memory, index: nat)
    requires AheadOf(r, index) && index <= m.sequence / 2
    ensures AheadOf(ReaderStep(r, m), index)
  {
  }

  /** A monitor inside `state()` reads publications no older than the cycles completed at its entry. */
  lemma {:induction false} ReadsCurrent(n: nat, acts: seq<LoopAction>, m: nat, i: nat, j: nat)
    requires Inside(n, acts, m, i, j)
    ensures m < |LoopAt(n, acts, j).lock.readers|
    ensures AheadOf(LoopAt(n, acts, j).lock.readers[m], LoopAt(n, acts, i).completed)
    decreases j
  {
    hide LoopAt, DoLoop, AheadOf, WorkerInv, MonitorInv, Inside;
    InsideStep(n, acts, m, i, j);
    var s, count := LoopAt(n, acts, j - 1), LoopAt(n, acts, i).completed;
    LoopInvariant(n, acts, j - 1);
    if j > i + 1 {
      ReadsCurrent(n, acts, m, i, j - 1);
      CountGrows(n, acts, i, j - 1);
      CountIsPublished(s);
      StaysAhead(s, acts[j - 1], m, count);
    } else {
      EntersAhead(s, m, count);
    }
  }

  lemma InsideStep(n: nat, acts: seq<LoopAction>, m: nat, i: nat, j: nat)
    requires Inside(n, acts, m, i, j)
    ensures i < j <= |acts|
    ensures LoopAt(n, acts, j) == DoLoop(LoopAt(n, acts, j - 1), acts[j - 1]) && LoopAt(n, acts, j).holder == HeldBy(m)
    ensures j == i + 1 ==> acts[j - 1] == Enter(m) && LoopAt(n, acts, j - 1).holder.Free?
    ensures j > i + 1 ==> Inside(n, acts, m, i, j - 1) && LoopAt(n, acts, j - 1).holder == HeldBy(m)
  {
    hide DoLoop;
  }

  lemma StaysAhead(s: Loop, a: LoopAction, m: nat, count: nat)
    requires MonitorInv(s) && s.holder == HeldBy(m) && m < |s.lock.readers| && AheadOf(s.lock.readers[m], count)
    requires count <= s.lock.memory.sequence / 2
    ensures m < |DoLoop(s, a).lock.readers| && AheadOf(DoLoop(s, a).lock.readers[m], count)
  {
    LockEffect(s, a);
    LoadAhead(s.lock.readers[m], s.lock.memory, count);
    hide ReaderStep, DoLoop, MonitorInv;
  }

  lemma EntersAhead(s: Loop, m: nat, count: nat)
    requires MonitorInv(s) && s.holder.Free? && DoLoop(s, Enter(m)).holder == HeldBy(m)
    ensures m < |DoLoop(s, Enter(m)).lock.readers| && AheadOf(DoLoop(s, Enter(m)).lock.readers[m], count)
  {
    LockEffect(s, Enter(m));
    hide Do;
  }

  /** Freshness: if `completedCycles()` returned `c` cycles at some moment, and a later call of
      `state()` manages to read a snapshot, it returns the state after that many updates or more. */
  lemma StateIsFresh(n: nat, acts: seq<LoopAction>, m: nat, c: nat, i: nat, j: nat)
    requires c <= i && Inside(n, acts, m, i, j) && j < |acts| && acts[j] == Leave(m)
    requires var s := LoopAt(n, acts, j);
             m < |s.lock.readers| && s.lock.readers[m].Returned? && s.lock.readers[m].ok
    ensures var results := LoopAt(n, acts, j + 1).results;
            && |results| == |LoopAt(n, acts, j).results| + 1
            && results[|results| - 1].index >= LoopAt(n, acts, c).completed
  {
    ReadsCurrent(n, acts, m, i, j);
    CountGrows(n, acts, c, i);
    LoopInvariant(n, acts, j);
    var s := LoopAt(n, acts, j);
    hide LoopAt, WorkerInv;
    LeaveReturns(s, m);
    assert LoopAt(n, acts, j + 1) == DoLoop(s, acts[j]);
  }

  lemma LeaveReturns(s: Loop, m: nat)
    requires ReadersInv(s) && m < |s.lock.readers| && s.holder == HeldBy(m)
    requires s.lock.readers[m].Returned? && s.lock.readers[m].ok
    ensures DoLoop(s, Leave(m)).results ==
            s.results + [Result(s.lock.published[s.lock.readers[m].stamp / 2], s.lock.readers[m].stamp / 2)]
  {
  }

  // ---------------------------------------------------------------- calls of `state()` end, and with what

  /** The end of a call: it frees the mutex and returns what was read, which it keeps; or, if the read
      failed, what was kept before. */
  lemma LeaveEnds(s: Loop, m: nat)
    requires ReadersInv(s) && m < |s.lock.readers| && s.holder == HeldBy(m) && s.lock.readers[m].Returned?
    ensures var s', r := DoLoop(s, Leave(m)), s.lock.readers[m];
            var result := if r.ok then Result(s.lock.published[r.stamp / 2], r.stamp / 2) else Result(s.lastState, s.lastIndex);
            s' == s.(holder := Free, results := s.results + [result], lastState := result.value, lastIndex := result.index)
  {
    assert ReaderInv(s.lock, s.lock.readers[m]);
  }

  /** Every call of `state()` ends: at any moment its next load brings its return closer, which is at most
      42 loads away, or it has its answer and can leave. */
  lemma StateCallsEnd(n: nat, acts: seq<LoopAction>, k: nat, m: nat)
    requires k <= |acts| && LoopAt(n, acts, k).holder == HeldBy(m)
    ensures var s := LoopAt(n, acts, k);
            && m < |s.lock.readers|
            && (s.lock.readers[m].Returned? ==> DoLoop(s, Leave(m)).holder.Free?)
            && (!s.lock.readers[m].Returned? ==>
                  && m < |DoLoop(s, Load(m)).lock.readers|
                  && LoadsLeft(DoLoop(s, Load(m)).lock.readers[m]) < LoadsLeft(s.lock.readers[m]) <= 42)
  {
    LoopInvariant(n, acts, k);
    var s := LoopAt(n, acts, k);
    hide LoopAt, WorkerInv, ResultsInv;
    assert ReaderInv(s.lock, s.lock.readers[m]);
    LockEffect(s, Load(m));
    if s.lock.readers[m].Returned? {
      LeaveEnds(s, m);
    } else {
      hide DoLoop;
      ReadIsBounded(s.lock, s.lock.readers[m]);
    }
  }

  /** The state after `k` loads of monitor `m` alone. */
  function LoadMany(s: Loop, m: nat, k: nat): Loop {
    if k == 0 then s else DoLoop(LoadMany(s, m, k - 1), Load(m))
  }

  lemma {:induction false} LoadsAlone(s: Loop, m: nat, k: nat)
    requires s.holder == HeldBy(m) && m < |s.lock.readers| && s.lock.readers[m] == Attempting(0)
    ensures LoadMany(s, m, k) ==
            s.(lock := s.lock.(readers := s.lock.readers[m := Loads(Attempting(0), s.lock.memory, k)]))
  {
    hide ReaderStep;
    if k == 0 {
      assert s.lock.readers[m := Attempting(0)] == s.lock.readers;
    } else {
      LoadsAlone(s, m, k - 1);
      var readers := s.lock.readers[m := Loads(Attempting(0), s.lock.memory, k - 1)];
      assert readers[m := Loads(Attempting(0), s.lock.memory, k)] == s.lock.readers[m := Loads(Attempting(0), s.lock.memory, k)];
    }
  }

  /** From `s` to `s'` one result has been returned, the latest publication, and the mutex is free. */
  ghost predicate ReturnedLatest(s: Loop, s': Loop) {
    && |s.lock.published| > 0
    && var latest := Completed(s.lock);
       && s'.results == s.results + [Result(s.lock.published[latest], latest)]
       && s'.holder.Free? && s'.lastState == s.lock.published[latest] && s'.lastIndex == latest
       && s'.robot == s.robot && s'.completed == s.completed && s'.lock.memory == s.lock.memory
  }

  /** A call of `state()` that meets nobody, between two publications, returns the latest one: it takes
      the mutex, makes fourteen loads, appends that result and frees the mutex again. */
  lemma QuietState(n: nat, acts: seq<LoopAction>, k: nat, m: nat)
    requires k <= |acts| && m < |LoopAt(n, acts, k).lock.readers|
    requires LoopAt(n, acts, k).holder.Free? && LoopAt(n, acts, k).lock.writer.Resting?
    ensures ReturnedLatest(LoopAt(n, acts, k), DoLoop(LoadMany(DoLoop(LoopAt(n, acts, k), Enter(m)), m, CELLS + 2), Leave(m)))
  {
    hide LoopAt, WorkerInv, MonitorInv, DoLoop, LoadMany, ReturnedLatest;
    LoopInvariant(n, acts, k);
    QuietlyLatest(LoopAt(n, acts, k), m);
  }

  lemma QuietlyLatest(s: Loop, m: nat)
    requires WorkerInv(s) && MonitorInv(s) && s.holder.Free? && s.lock.writer.Resting? && m < |s.lock.readers|
    ensures ReturnedLatest(s, DoLoop(LoadMany(DoLoop(s, Enter(m)), m, CELLS + 2), Leave(m)))
  {
    hide WorkerInv, MonitorInv, DoLoop, LoadMany;
    NobodyReads(s, m);
    LatestPublished(s);
    QuietCall(s, m);
  }

  lemma NobodyReads(s: Loop, m: nat)
    requires MonitorInv(s) && s.holder.Free? && m < |s.lock.readers|
    ensures !InProgress(s.lock.readers[m])
  {
    hide ReadersInv, ResultsInv;
  }

  lemma LatestPublished(s: Loop)
    requires WorkerInv(s) && s.lock.writer.Resting?
    ensures |s.lock.published| > 0 && s.lock.memory.sequence == 2 * Completed(s.lock)
    ensures s.lock.memory.cells == s.lock.published[Completed(s.lock)]
  {
    hide RobotOk, StateInLimits, StateOf, Flatten, StageInv, WriterInv;
    LatestInMemory(s.lock);
  }

  lemma QuietCall(s: Loop, m: nat)
    requires s.holder.Free? && m < |s.lock.readers| && !InProgress(s.lock.readers[m]) && s.lock.memory.sequence % 2 == 0
    ensures var cells, index := s.lock.memory.cells, s.lock.memory.sequence / 2;
            var s' := DoLoop(LoadMany(DoLoop(s, Enter(m)), m, CELLS + 2), Leave(m));
            && s'.results == s.results + [Result(cells, index)]
            && s'.holder.Free? && s'.lastState == cells && s'.lastIndex == index
            && s'.robot == s.robot && s'.completed == s.completed && s'.lock.memory == s.lock.memory
  {
    EnterAlone(s, m);
    var entered := DoLoop(s, Enter(m));
    hide LoadMany, Loads;
    LoadsAlone(entered, m, CELLS + 2);
    QuietLoads(s.lock.memory);
    var loaded := LoadMany(entered, m, CELLS + 2);
    assert loaded.lock.readers[m] == Returned(true, s.lock.memory.cells, s.lock.memory.sequence);
    hide ReaderStep, Flatten, StateOf;
  }

  lemma EnterAlone(s: Loop, m: nat)
    requires s.holder.Free? && m < |s.lock.readers| && !InProgress(s.lock.readers[m])
    ensures DoLoop(s, Enter(m)) == s.(holder := HeldBy(m), lock := s.lock.(readers := s.lock.readers[m := Attempting(0)]))
  {
  }

  lemma LatestInMemory(s: System)
    requires WriterInv(s) && s.writer.Resting?
    ensures |s.published| > 0 && s.memory.sequence == 2 * Completed(s) && s.memory.cells == s.published[Completed(s)]
  {
  }

  // ---------------------------------------------------------------- the program's side of `state()`

  /** What a monitor keeps between calls. */
  class StateReader {
    var lastState: RobotState

    constructor ()
      ensures lastState == ZERO_STATE
    {
      lastState := ZERO_STATE;
    }

    /** One call of `state()`, with the mutex held: `met` are the memories its loads meet.  It returns
        what the protocol's reader read, or, if that reader gave up, what was returned before. */
    method State(met: seq<Memory>) returns (result: RobotState)
      requires |met| >= 42
      modifies this
      ensures result == lastState
      ensures exists used: nat | used <= 42 :: var r := ReaderAfter(Attempting(0), met[..used]);
                r.Returned? && if r.ok then r.value == Flatten(lastState) else lastState == old(lastState)
    {
      hide ReaderAfter, Flatten;
      var ok, state, used := SnapshotBuffer.Read(met, lastState);
      if ok {
        lastState := state;
      }
      result := lastState;
      assert used <= 42 && ReaderAfter(Attempting(0), met[..used]).Returned?;
    }
  }
}
