# Robot controller: a verified model

This project models the six-joint robot controller in Dafny and proves what it is built to guarantee.
The controller closes a 1 kHz loop (PD law, safety layer, motors, simulated dynamics), publishes the
robot's state to monitor threads without locks, keeps timing statistics, follows an absolute schedule,
and exchanges commands and states over a simulated CAN bus.

Code that works in place is modelled as classes and loops, each proved against a specification
function; threads are modelled as state machines whose executions are arbitrary sequences of single
steps, so a statement about all action sequences is a statement about all interleavings.

| file | what it holds |
|---|---|
| `JointTypes.dfy` | states, commands, limits |
| `Kinematics.dfy` | motion under a speed limit; the simulator's case split computes exactly that motion |
| `JointDynamics.dfy` | the PD law; one joint's control phase and simulation step, and their laws |
| `RobotDynamics.dfy` | the robot as a value; every run of it is safe; stops; distances |
| `RobotMotion.dfy` | what an update does in terms of the motion alone, for every reachable state |
| `Convergence.dfy` | the default closed loop contracts exactly and settles, with an explicit bound |
| `Robot.dfy` | joints, motors, simulator and robot as classes updated in place |
| `SeqLock.dfy` | the snapshot protocol: one writer, any number of readers, one atomic access at a time |
| `SnapshotBuffer.dfy` | `publish` and `read` as loops, tied to that protocol access by access |
| `Monitor.dfy` | the worker, the protocol and the mutex-ordered `state()` calls together |
| `ControlLoop.dfy` | one whole cycle in place, tied to the worker's steps in that machine |
| `Lifecycle.dfy` | `run`, `wait`, `requestStop` and the worker thread |
| `Scheduler.dfy` | the absolute schedule, recovery from delay, the Linux clock |
| `Statistics.dfy` | cycle histories, the statistics that summarise them, and their laws |
| `Codec.dfy`, `CanLoop.dfy` | CAN frames, the bus and the communication loop |

Main results, hardest first:

* **Dynamics.** The displacement of a step is defined without any case split, as the area under the
  speed-limited velocity (`DisplacementIsIntegral` compares it with Riemann sums). The simulator's four
  branches compute it (`Travel`), two steps are one long step exactly when a stated condition on the
  position stops holds (`SplitExactly`), and the flow is monotone (`MonotoneStep`).
* **Updates.** In every reachable state each joint moves under the admissible acceleration nearest to
  the PD law, or comes to rest on a stop that lies on its way (`UpdateFollowsLaw`); it sets off towards
  its target (`HeadsForTarget`), and a stop, however fast it was reached, lets go of it again
  (`StopsRelease`).
* **Convergence.** For a target at least 30 degrees from both stops and a quadratic energy of at most
  800, no later update saturates anything, `n` updates multiply the energy by exactly 0.9995005 to the
  `n` (`ExactContraction`), and position error and velocity fall below any bound after an explicit
  number of updates (`RobotConverges`).
* **Snapshots.** A successful `read` is linearizable (`ReadIsLinearizable`), over every interleaving.
* **Monitors.** Whatever `state()` returns is a whole, safe robot state, never older than one returned
  before, and at least as new as any cycle count seen earlier (`ResultsAreRobotStates`,
  `ResultsNeverGoBack`, `StateIsFresh`).
* **Lifecycle.** At most one worker; a run starts its worker exactly when the loop is idle, and adds
  exactly its cycles; a wait joins it; at most one more cycle after a stop request; and no call that
  holds the mutex can get stuck or go on for ever.
* **Statistics, schedule, CAN.** Every counter agrees with the history of cycles; the scheduled starts
  returned do not drift; the whole content of the bus is known place by place, with one frame for every
  state that could be read, and survives encoding up to the stated resolution.

## Model

| member | source | states |
|---|---|---|
| Kinematics.Travel | src/simulation/RobotSimulator.cpp:30-120 | the branches (already at the limit, limit reached during the step, not reached, no acceleration) compute exactly the final velocity and the displacement of motion under constant acceleration and a speed limit |
| Kinematics.DisplacementIsIntegral | src/simulation/RobotSimulator.cpp:51-120 | that displacement is the integral of the speed-limited velocity: any Riemann sum over slices of width h is on one side of it and off by at most (final velocity - initial velocity) * h |
| Kinematics.LimitReached | src/simulation/RobotSimulator.cpp:74-102 | if the speed limit is reached after part of the step, the displacement is the accelerated part followed by the rest at the limit |
| Kinematics.LimitNotReached | src/simulation/RobotSimulator.cpp:74-84 | when the code's test for reaching the limit fails, the unlimited final velocity really is within the limit |
| Kinematics.Unsaturated | src/simulation/RobotSimulator.cpp:104-112 | without saturation the displacement is u*dt + a*dt*dt/2 |
| Kinematics.AtLimit | src/simulation/RobotSimulator.cpp:60-71 | a joint at its speed limit that is accelerated further into it keeps exactly the limit's speed |
| Kinematics.SplitMotion | src/simulation/RobotSimulator.cpp:30-120 | velocity and displacement of a stretch of motion compose: two stretches are one longer stretch, through every saturation case |
| Kinematics.DisplacementBounds | src/simulation/RobotSimulator.cpp:30-120 | the displacement lies between initial velocity * dt and final velocity * dt, and never exceeds the speed limit times dt |
| Kinematics.DisplacementMonotone | src/simulation/RobotSimulator.cpp:51-120 | raising the initial velocity or the acceleration never lowers the displacement |
| Kinematics.Work | src/simulation/RobotSimulator.cpp:51-120 | acceleration times displacement is the change of the potential whose slope is the speed-limited velocity |
| JointTypes.Clamp | src/simulation/RobotSimulator.cpp:28-49 | the result is in the range, is the value itself if that is in the range, and the nearer end otherwise |
| PDController.Calculate | src/control/PDController.cpp:10-38 | with a non-negative limit the request never leaves the symmetric acceleration limit |
| PDController.NearestToLaw | src/control/PDController.cpp:10-38 | the request is the admissible acceleration nearest to gain * error - gain * velocity: no admissible value lies between the two |
| JointDynamics.SplitFreeStep | src/simulation/RobotSimulator.cpp:15-150 | if the first of two steps meets no position stop, both together leave the same position, velocity and motor command as one long step |
| JointDynamics.SplitExactly | src/simulation/RobotSimulator.cpp:15-150 | exactly when two steps equal one: if and only if a stop met in the first step is also where the long step stops |
| JointDynamics.EqualSteps | src/simulation/RobotSimulator.cpp:15-150 | n equal steps equal one step of n times the length, if none but the last meets a stop |
| JointDynamics.StoppedStays | src/simulation/RobotSimulator.cpp:115-143 | a joint at rest on a limit with its motor off does not move, however long the step |
| JointDynamics.StrictlyInside | src/simulation/RobotSimulator.cpp:122-149 | a step meets no stop if and only if it ends strictly between the position limits |
| JointDynamics.MonotoneStep | src/simulation/RobotSimulator.cpp:20-150 | with equal limits, raising position, velocity or motor acceleration never lowers the resulting position, through all branches and stops |
| JointDynamics.StepDistance | src/simulation/RobotSimulator.cpp:20-150 | from inside its range a joint stays in it and moves at most the speed limit times dt, also when stopped |
| RobotDynamics.OperationsAreLocal | src/core/Robot.cpp:42-65 | each setter changes at most the joint it names and only the field it sets; a position or acceleration is taken if and only if it is within that joint's limits, a target always, an index past the last joint never |
| RobotDynamics.ApplySafe | src/core/Robot.cpp:42-95 | every operation, under any controller function, keeps every joint inside position, velocity and acceleration limits and leaves the limits alone |
| RobotDynamics.RunSafe | src/core/Robot.cpp:42-95 | the same for every sequence of operations, even if the controller is replaced by another function at every step |
| RobotDynamics.SafeFromConstruction | include/robot_controller/core/Robot.hpp:36-59 | from construction, every run of setters and updates with any arguments keeps all six joints inside their configured limits |
| RobotDynamics.RequestsAreAccepted | src/core/Robot.cpp:81-90 | in every reachable state of the default robot the safety layer accepts the PD request, so the rejection branch is never taken and the motor gets the request |
| RobotDynamics.RunDistance | src/core/Robot.cpp:67-95 | over any run without re-initialisation a joint moves at most its speed limit times the simulated time, whatever targets, accelerations and controllers |
| RobotDynamics.MillisecondDistance | include/robot_controller/control/ControlLoop.hpp:124-124 | n updates of 1 ms, after any setup and under any controllers, move no joint of the default robot by more than 0.06 * n degrees |
| RobotDynamics.RestDisplacement | src/simulation/RobotSimulator.cpp:51-120 | a joint at rest moves strictly in the direction of its acceleration, and not at all without one |
| RobotDynamics.StopStep | src/simulation/RobotSimulator.cpp:124-143 | an update of a joint resting on a stop leaves it there, with the motor off, if the target is at or beyond the stop, and otherwise moves it strictly off the stop |
| RobotDynamics.StopHolds | src/simulation/RobotSimulator.cpp:124-143 | while the target stays at or beyond the stop, any number of updates of any positive lengths leaves the joint at rest on it |
| RobotMotion.SimulationMoves | src/simulation/RobotSimulator.cpp:11-151 | from any state the simulation moves a joint under its motor's acceleration: it rests on a stop on its way with velocity and motor zero, the lower one first, and otherwise has exactly the position and velocity of that motion; without time to move nothing changes |
| RobotMotion.UpdateMoves | src/core/Robot.cpp:67-95 | under any controller every joint of any robot moves under its own request if that is within its limit and under zero acceleration otherwise, keeping its target and limits; a non-positive step only sets the motor |
| RobotMotion.RequestIsNearest | src/control/PDController.cpp:14-37 | the default request is the value in [-30, 30] nearest to target - position - velocity / 2 |
| RobotMotion.UpdateFollowsLaw | src/core/Robot.cpp:67-95 | in every reachable state of the default robot, for every target and every positive step, each joint moves under the one acceleration in [-30, 30] nearest to target - position - velocity / 2, its speed cut to 60, or ends at rest with its motor off on a stop that lies on its way |
| RobotMotion.HeadsForTarget | src/core/Robot.cpp:67-95 | in every reachable state a joint at rest strictly inside its range moves strictly towards its target, on either side, and does not move if it is there |
| RobotMotion.StopsAtRest | src/simulation/RobotSimulator.cpp:124-143 | however fast it arrives and under any controller, a joint that ends a step on a position limit has velocity zero and motor command zero |
| RobotMotion.StopsRelease | src/simulation/RobotSimulator.cpp:124-143 | a stop does not stick: after arriving at one at any speed, the next update with a target strictly inside takes the joint strictly off it |
| RobotMotion.RangesOfTheRobot | include/robot_controller/core/Robot.hpp:38-46 | in every reachable state joints 1 and 4 are within 90 degrees of zero, the others within 180, all within 60 degrees a second and 30 degrees a second squared |
| RobotMotion.SettledStays | src/core/Robot.cpp:67-95 | a joint at rest on its target inside its range with its motor off is an equilibrium for steps of any length |
| RobotMotion.NewRobotStays | include/robot_controller/core/Robot.hpp:36-59 | a new robot is at rest at zero, and any updates leave it so |
| Convergence.EnergyBoundsSquares | src/core/Robot.cpp:67-95 | the energy of position error and velocity is at least 0.7 times the sum of their squares |
| Convergence.SublevelIsClear | src/control/PDController.cpp:23-35 | with energy at most 800 the unlimited PD request is within 30, the error within 30 and the velocity within 60 |
| Convergence.LinearContraction | src/simulation/RobotSimulator.cpp:104-112 | an unsaturated PD update of 1 ms multiplies the energy by exactly 0.9995005 |
| Convergence.OneUpdate | src/core/Robot.cpp:67-95 | in the sublevel set one update of the real step (limits, safety layer, branches, stops) saturates nothing and contracts the energy exactly |
| Convergence.ExactContraction | src/core/Robot.cpp:67-95 | forward invariance: after any number n of updates the target and limits are unchanged, the energy is 0.9995005 to the n times the first, and the next update again saturates nothing |
| Convergence.Converges | src/core/Robot.cpp:67-95 | for every bound, after every number of updates from an explicit one on (independent of the starting state), position error and velocity are below it |
| Convergence.JointsAreIndependent | src/core/Robot.cpp:67-95 | n updates of the robot take each joint where n updates of that joint alone take it |
| Convergence.UpdatesAreARun | src/core/Robot.cpp:67-95 | these updates are those of a run of the robot under the PD controller |
| Convergence.RobotConverges | src/core/Robot.cpp:67-95 | every joint of the robot that starts in the sublevel set keeps its target and settles on it, within the same number of updates for all |
| RobotClasses.Joint.InitializePosition | src/core/Joint.cpp:20-30 | the in-place setter does what the value-level operation does: takes the position if it is in range, otherwise changes nothing and returns false |
| RobotClasses.Joint.SetAcceleration | src/core/Joint.cpp:42-57 | the motor takes the command if it is within the joint's limit; otherwise nothing changes and the result is false |
| RobotClasses.RobotSimulator.Advance | src/simulation/RobotSimulator.cpp:20-150 | one pass of the loop body takes joint and motor to the value-level step: integrate, then stop at a limit with velocity and motor command zero |
| RobotClasses.RobotSimulator.Update | src/simulation/RobotSimulator.cpp:11-151 | the in-place loop over joints with distinct motors is the pointwise step of every joint; a non-positive dt changes nothing |
| RobotClasses.Robot.constructor | include/robot_controller/core/Robot.hpp:36-59 | construction gives six joints with six distinct motors, all at zero, with the default limits |
| RobotClasses.Robot.State | src/core/Robot.cpp:6-16 | the loop returns position and velocity of all six joints in order |
| RobotClasses.Robot.InitializeJointPosition | src/core/Robot.cpp:42-48 | in place and on the value the operation leaves the same robot and returns the same answer |
| RobotClasses.Robot.SetJointTargetPosition | src/core/Robot.cpp:50-57 | likewise for targets |
| RobotClasses.Robot.SetJointAcceleration | src/core/Robot.cpp:59-65 | likewise for direct acceleration commands, which reach only the motor |
| RobotClasses.Robot.Control | src/core/Robot.cpp:71-90 | one pass of the control loop sets the motor to the request if the safety layer accepts it and to zero otherwise, and touches nothing else |
| RobotClasses.Robot.Update | src/core/Robot.cpp:67-95 | the two in-place loops, all control outputs first and then all simulation, equal one pure step of each joint on its own |
| SeqLock.StepKeepsInv | src/synchronization/SnapshotBuffer.cpp:3-60 | the inductive invariant of the protocol: while the writer rests the cells are the last publication, while it stores they are a prefix of the new one and a suffix of the old; what a reader has collected is part of one publication for as long as the sequence has not moved |
| SeqLock.Invariant | src/synchronization/SnapshotBuffer.cpp:3-60 | the invariant holds after every prefix of every interleaving |
| SeqLock.HistoryGrows | src/synchronization/SnapshotBuffer.cpp:3-22 | the sequence number never falls and publications are only ever appended |
| SeqLock.ReadIsLinearizable | src/synchronization/SnapshotBuffer.cpp:24-60 | over every interleaving, a successful read returns all 12 values of exactly one publication (or the initial zeros), current at an instant between call and return; its index lies between the publications completed at the call and at the return |
| SeqLock.ReadsAreOrdered | src/synchronization/SnapshotBuffer.cpp:24-60 | successful reads that do not overlap, by the same reader or two, return publications in order |
| SeqLock.RetryMeansOverlap | src/synchronization/SnapshotBuffer.cpp:33-59 | a call that gives up an attempt, or fails, overlapped a publication: with the writer at rest the first attempt succeeds |
| SeqLock.FailureMeansThreeMeetings | src/synchronization/SnapshotBuffer.cpp:26-59 | a read fails only after three attempts, in three disjoint stretches of the call, in each of which the writer was in the middle of a publication |
| SeqLock.QuietLoads | src/synchronization/SnapshotBuffer.cpp:30-56 | fourteen loads of an unchanging memory with an even sequence return what its cells hold |
| SeqLock.ReadIsBounded | src/synchronization/SnapshotBuffer.cpp:26-28 | reading is wait-free: every load brings the return closer, whatever the writer does, and a call makes at most 42 loads |
| SnapshotBuffers.FlattenInjective | src/synchronization/SnapshotBuffer.cpp:9-18 | the twelve cells determine the robot state |
| SnapshotBuffers.FlattenAt | src/synchronization/SnapshotBuffer.cpp:9-18 | cells 2i and 2i + 1 hold position and velocity of joint i |
| SnapshotBuffers.PublishRun | src/synchronization/SnapshotBuffer.cpp:3-22 | the fourteen accesses of a publication take the protocol's memory through exactly the listed intermediate memories, and publish once |
| SnapshotBuffers.ReaderFollowsLoads | src/synchronization/SnapshotBuffer.cpp:24-60 | a reader of the protocol depends only on the memories its own loads meet, in order, so what is proved of the loop `Read` over those memories holds of it |
| SnapshotBuffers.SnapshotBuffer.Publish | src/synchronization/SnapshotBuffer.cpp:3-22 | the in-place loop leaves the published state in the cells and the sequence raised by two, and after each single access the memory is the one the protocol's writer produces |
| SnapshotBuffers.SnapshotBuffer.Read | src/synchronization/SnapshotBuffer.cpp:24-60 | over any memories met load by load, the loop with its three attempts returns exactly what the protocol's reader returns after the same loads; on failure the caller's state is unchanged |
| SnapshotBuffers.SnapshotBuffer.Load | src/synchronization/SnapshotBuffer.cpp:38-47 | the candidate holds what the twelve loads of the attempt met, in cell order |
| Monitor.RunsProtocol | src/control/ControlLoop.cpp:307-371 | every execution of worker and monitors is an execution of the snapshot protocol |
| Monitor.LoopInvariant | src/control/ControlLoop.cpp:307-371 | over every interleaving: publications are the robot's states after its updates, in order and within limits; only the mutex holder reads; the kept state is a publication and all results are publications in order |
| Monitor.ResultsAreRobotStates | src/control/ControlLoop.cpp:543-555 | every result of `state()` is all zeros or exactly the robot's state after one of its updates, and is inside every position and velocity limit |
| Monitor.ResultsNeverGoBack | src/control/ControlLoop.cpp:543-555 | in mutex order the update a result belongs to never goes back, across successful and failed reads |
| Monitor.ReadsCurrent | src/control/ControlLoop.cpp:543-555 | a read that succeeds inside `state()` is of a publication no older than the cycles completed when the mutex was locked |
| Monitor.StateIsFresh | src/control/ControlLoop.cpp:543-567 | if the cycle count was n at some moment and a later call of `state()` reads a snapshot, its result is the state after at least n updates |
| Monitor.LeaveEnds | src/control/ControlLoop.cpp:547-554 | the end of a call frees the mutex and appends one result: the publication that was read, which is kept, or the one kept before if the read failed; nothing else changes |
| Monitor.StateCallsEnd | src/control/ControlLoop.cpp:543-555 | over every interleaving, whoever is inside `state()` either has its answer and can leave, or comes closer to it with its next load, of which at most 42 are left |
| Monitor.QuietState | src/control/ControlLoop.cpp:543-555 | a call that meets nobody, in any reachable state between two publications, returns the latest publication |
| Monitor.StateReader.State | src/control/ControlLoop.cpp:543-555 | the method returns what the protocol's reader read, and keeps and returns the last state when that reader gave up |
| ControlCycle.ControlLoop.Update | src/control/ControlLoop.cpp:262-374 | one cycle applies a received command to the first joint only, updates the robot once by 1 ms, publishes exactly the new state, hands the first joint's state to the CAN side, takes the cycle into every statistic and counts it once |
| ControlCycle.StateOfAt | src/core/Robot.cpp:10-13 | entry i of the published state is the state of joint i |
| ControlCycle.CommandReachesFirstJoint | src/control/ControlLoop.cpp:297-307 | a received command replaces the first joint's target and reaches nothing else: every other joint makes the step it would have made without it, and the robot stays within its limits |
| ControlCycle.FrameSetsTarget | src/control/ControlLoop.cpp:299-305 | from the bus to the joint: a target that was encoded, received and decoded is the first joint's target after the cycle, up to the 0.01 resolution of the frame |
| ControlCycle.PublishesRun | src/control/ControlLoop.cpp:323-324 | the worker's publication steps in the interleaved machine are the protocol's publication of the updated robot's state |
| ControlCycle.WorkerCycleIsUpdate | src/control/ControlLoop.cpp:262-374 | the worker's steps of one cycle, run without interference, do to robot, memory, publications and count exactly what the in-place cycle does |
| Lifecycle.Invariant | src/control/ControlLoop.cpp:376-433 | over every interleaving of calls and workers: the mutex is held by exactly the caller inside it, only the handle's worker is alive, and the lifecycle state agrees with handle, worker and the caller's position |
| Lifecycle.OneWorker | src/control/ControlLoop.cpp:376-433 | at most one worker is alive; whenever the mutex is free the state is Idle if and only if no worker remains to be joined |
| Lifecycle.RunIsRefused | src/control/ControlLoop.cpp:380-384 | a run that gets the mutex before the previous worker was joined leaves without any effect |
| Lifecycle.RunStartsItsWorker | src/control/ControlLoop.cpp:376-414 | over every interleaving, a call of run(n) that took the mutex with the loop Idle and n > 0 leaves it with exactly one more worker, asked for n cycles and held by the handle; it starts none, and leaves handle and idleness alone, if and only if the loop was not Idle or n <= 0 |
| Lifecycle.WaitJoins | src/control/ControlLoop.cpp:422-433 | over every interleaving, a call of wait leaves the mutex with no worker alive, none to be joined, and the loop Idle |
| Lifecycle.RunCompletes | src/control/ControlLoop.cpp:376-414 | over every interleaving, a run(n) that took the mutex with the loop Idle has, when its worker exits, completed exactly n cycles, and the count has grown by n, if nobody requested a stop and no further run was started |
| Lifecycle.QuietRun | src/control/ControlLoop.cpp:376-414 | without interference a call of run gives exactly the state with the flag cleared, life Running and the new worker in the handle, or exactly the state before it |
| Lifecycle.QuietWorker | src/control/ControlLoop.cpp:396-413 | a worker that nobody interferes with exits after all its cycles, having counted each once and set Finished |
| Lifecycle.QuietWait | src/control/ControlLoop.cpp:422-433 | without interference wait empties the handle of an exited worker and sets Idle, and changes nothing else |
| Lifecycle.RunThenWait | src/control/ControlLoop.cpp:376-433 | run(n), its worker's steps and wait leave an idle loop idle again, with exactly n more completed cycles and nothing to join |
| Lifecycle.RunAddsItsCycles | src/control/ControlLoop.cpp:392-413 | if no stop is requested after a run of n has cleared the flag, its worker exits having completed exactly n cycles, and the completed count has grown by exactly n |
| Lifecycle.StopAllowsOneMore | src/control/ControlLoop.cpp:400-409 | while a stop request stands at most one more cycle completes, and only if one was in progress when it was made |
| Lifecycle.StopStandsUntilCleared | src/control/ControlLoop.cpp:416-420 | a requested stop stands until a later run clears the flag |
| Lifecycle.HolderIsNotStuck | src/control/ControlLoop.cpp:422-433 | no deadlock: whoever holds the mutex can move, or waits for a worker that can |
| Lifecycle.CallsEnd | src/control/ControlLoop.cpp:376-433 | the steps that the holder, or the worker it joins, can still make before the mutex is free are bounded by a rank, whatever all other threads do; so `run` and `wait` return if those steps are taken |
| Scheduling.PortableControlScheduler.WaitForNextCycle | src/scheduler/PortableControlScheduler.cpp:32-43 | returns the time the schedule stood at before the call and moves the schedule on by exactly one period, however late it returns |
| Scheduling.Backlog | src/scheduler/PortableControlScheduler.cpp:45-75 | never negative, and a cycle has backlog if and only if its delay is the period plus that backlog |
| Scheduling.NoDrift | src/scheduler/PortableControlScheduler.cpp:12-43 | the k-th value that waiting returns after a reset to a time (or after construction) is that time plus k periods, whatever the delays |
| Scheduling.DelayRecurrence | src/scheduler/PortableControlScheduler.cpp:32-43 | with ideal wake-ups a cycle is late by what the one before was late by plus its execution less one period, or not at all |
| Scheduling.Recovery | src/scheduler/PortableControlScheduler.cpp:32-43 | with executions of at most e a delay D has shrunk to at most max(0, D - k * (period - e)) after k cycles, and to exactly that if every execution takes e |
| Scheduling.AddDuration | src/scheduler/LinuxControlScheduler.cpp:123-150 | nanoseconds are conserved for every duration; the result is normalised if and only if the duration's remainder does not undercut the nanoseconds it is added to, in particular for every non-negative duration |
| Scheduling.NormalisedIsUnique | src/scheduler/LinuxControlScheduler.cpp:123-150 | conservation and normalisation together determine the result |
| Scheduling.NegativeDurationUndercuts | src/scheduler/LinuxControlScheduler.cpp:139-147 | a concrete negative duration for which the result is not normalised |
| Scheduling.LinuxControlScheduler.WaitForNextCycle | src/scheduler/LinuxControlScheduler.cpp:82-121 | the wake-up time is as far from the Linux clock's start as the scheduled start is from the portable clock's, to the nanosecond, and normalised when that is not negative; it returns the time the schedule stood at and moves it on by one period |
| ControlLoopTiming.Statistics.UpdateProcessorStatistics | src/control/ControlLoop.cpp:18-33 | the counter is the number of changes in the sequence of known processors; unknown ones are skipped |
| ControlLoopTiming.Statistics.UpdatePeriodStatistics | src/control/ControlLoop.cpp:35-60 | minimum, maximum and total are those of the periods of the whole history |
| ControlLoopTiming.Statistics.UpdateDelayStatistics | src/control/ControlLoop.cpp:62-104 | delayed and backlog counts, the largest backlog, and the longest and the current run of delayed cycles are those of the whole history |
| ControlLoopTiming.Statistics.UpdateControlStatistics | src/control/ControlLoop.cpp:106-121 | the maximum is the largest control time of the history |
| ControlLoopTiming.Statistics.UpdateSnapshotStatistics | src/control/ControlLoop.cpp:123-138 | the maximum is the largest publication time of the history |
| ControlLoopTiming.Statistics.UpdateInterCycleStatistics | src/control/ControlLoop.cpp:140-160 | the maximum is the largest gap from an end to the next start in the history |
| ControlLoopTiming.Statistics.UpdateSchedulingStatistics | src/control/ControlLoop.cpp:162-190 | each bucket counts exactly the history's cycles with a delay in its range; the maximum is the largest delay |
| ControlLoopTiming.Statistics.UpdateDeadlineStatistics | src/control/ControlLoop.cpp:192-209 | the minimum is the smallest deadline margin of the history |
| ControlLoopTiming.Statistics.UpdateExecutionStatistics | src/control/ControlLoop.cpp:211-229 | the maximum is the largest execution time of the history |
| ControlLoopTiming.Statistics.UpdateMissStatistics | src/control/ControlLoop.cpp:231-260 | the four counters count exactly the misses of the history, by cause |
| ControlLoopTiming.Statistics.Record | src/control/ControlLoop.cpp:282-373 | after one cycle, in the source's order, every field summarises the history extended by that cycle |
| CycleHistory.RunOneMore | src/control/ControlLoop.cpp:67-103 | how the longest and the last run of delayed cycles change with one more cycle, for runs defined over the whole history |
| ControlLoopTiming.TotalPeriod | src/control/ControlLoop.cpp:35-60 | the total period telescopes to last start minus first start and lies between min * (n-1) and max * (n-1) |
| ControlLoopTiming.GapsAndPeriods | src/control/ControlLoop.cpp:140-160 | for every clock that never goes back, max gap <= max period <= max gap + max execution time |
| ControlLoopTiming.MissesAgree | src/control/ControlLoop.cpp:231-260 | misses are the sum of scheduling, execution and combined misses; a miss counted in the last branch really overran its period; some miss occurred if and only if the smallest margin is negative |
| ControlLoopTiming.BucketsAddUp | src/control/ControlLoop.cpp:162-190 | the five histogram buckets sum to the measured cycles |
| ControlLoopTiming.BacklogIsExcessDelay | src/control/ControlLoop.cpp:79-98 | max backlog = max(0, max scheduling delay - scheduler period), though the two are updated by different functions; cycles with backlog are delayed cycles |
| ControlLoopTiming.DelayedCyclesMiss | src/control/ControlLoop.cpp:62-104 | with a 1 ms scheduler and cycles that take any time at all, delayed cycles never outnumber deadline misses |
| ControlLoopTiming.MissesInNanoseconds | src/control/ControlLoop.cpp:231-260 | each miss counter is the number of cycles with the stated clock readings, in plain nanoseconds: ending more than 1 000 000 after the scheduled start is a miss, ending exactly then is not |
| ControlLoopTiming.DelaysInNanoseconds | src/control/ControlLoop.cpp:62-190 | the histogram buckets, delayed cycles and cycles with backlog are the numbers of cycles whose delay is in the stated range of nanoseconds |
| ControlLoopTiming.ExtremesInReadings | src/control/ControlLoop.cpp:106-229 | the maxima of control, publication and execution time and of the delay, and the smallest margin, are bounds that some cycle attains, in the clock readings themselves |
| ControlLoopTiming.PeriodsInReadings | src/control/ControlLoop.cpp:35-160 | likewise the longest and shortest period and the longest gap, between consecutive cycles |
| ControlLoopTiming.LongestDelayInReadings | src/control/ControlLoop.cpp:67-103 | no run of consecutive cycles starting 1 ms late or later is longer than the statistics say, and one is as long |
| CycleHistory.ProcessorsOneMore | src/control/ControlLoop.cpp:20-32 | a cycle adds its processor to the known ones if it is 0 or more, and otherwise nothing |
| ControlLoopTiming.ChangesAreCounted | src/control/ControlLoop.cpp:25-29 | the processor changes are the places at which the sequence of known processors changes |
| Codec.PackMeaning | src/communication/JointStateCodec.cpp:21-55 | the four bytes are the little-endian two's complement of the value |
| Codec.UnpackPack | src/communication/JointStateCodec.cpp:60-97 | unpacking packed bytes gives back every int32 |
| Codec.PackUnpack | src/communication/JointStateCodec.cpp:60-97 | packing unpacked bytes gives back every byte quadruple |
| Codec.CentiRounds | src/communication/JointCommandCodec.cpp:13-15 | conversion to centidegrees and back keeps the sign, never grows the magnitude, loses less than 0.01, and is exact if and only if the value is a multiple of 0.01 |
| Codec.EncodeCommand | src/communication/JointCommandCodec.cpp:5-33 | writing byte by byte gives the command's frame |
| Codec.ReadCommand | src/communication/JointCommandCodec.cpp:35-59 | succeeds exactly on frames with the command's id and length, and leaves the caller's command alone otherwise |
| Codec.CommandRoundTrip | src/communication/JointCommandCodec.cpp:5-59 | decoding an encoded command gives its target up to that rounding, for every target whose conversion is defined |
| Codec.CommandLayout | src/communication/JointCommandCodec.cpp:5-43 | a command is a frame with id 0x100, length 4, the truncated centidegrees in two's complement in the first four bytes and zeros after them; exactly frames with that id and length decode |
| Codec.CommandBytesMatter | src/communication/JointCommandCodec.cpp:35-59 | decoding loses nothing: frames that decode to the same command agree in id, length and all four data bytes |
| Codec.EncodeState | src/communication/JointStateCodec.cpp:5-58 | writing byte by byte gives the state's frame |
| Codec.ReadState | src/communication/JointStateCodec.cpp:60-97 | succeeds exactly on frames with the state's id and length, and leaves the caller's state alone otherwise |
| Codec.StateRoundTrip | src/communication/JointStateCodec.cpp:5-97 | position and velocity both come back up to rounding, neither mixed with the other |
| Codec.StateLayout | src/communication/JointStateCodec.cpp:5-68 | a state is a frame with id 0x200 and length 8, the position in the first four bytes and the velocity in the last four; exactly frames with that id and length decode |
| Codec.StateBytesMatter | src/communication/JointStateCodec.cpp:60-97 | frames that decode to the same state are the same frame |
| Codec.FramesAreDistinct | src/communication/JointCommandCodec.cpp:39-43 | no frame is both a command and a state |
| CanLoop.RobotStatesAreEncodable | include/robot_controller/core/Robot.hpp:38-46 | every state within a joint's limits can be encoded, so the loop may encode what the robot publishes |
| CanLoop.SimulatedCan.Receive | src/communication/SimulatedCan.cpp:3-14 | takes the oldest frame off the queue; on an empty queue it fails and leaves the caller's frame alone |
| CanLoop.SimulatedCan.Transmit | src/communication/SimulatedCan.cpp:16-25 | appends the frame behind all others |
| CanLoop.CanCommunication.Run | src/communication/CanCommunication.cpp:42-68 | over any turns (other threads' frames, state reads that succeed or fail), the loop leaves the queue and the published commands of those turns taken one after the other |
| CanLoop.CanCommunication.TransmitState | src/communication/CanCommunication.cpp:70-81 | transmits the encoded state if one could be read, and nothing otherwise |
| CanLoop.FirstInFirstOut | src/communication/SimulatedCan.cpp:3-25 | conservation: received frames followed by queued frames are the initial queue followed by everything that arrived, in order, and the published commands are the decoded command frames among the received ones |
| CanLoop.LoopbackCarriesNoCommand | src/communication/CanCommunication.cpp:70-81 | the loop's own transmissions, looped back, never decode as commands |
| CanLoop.PublishedInOrder | src/communication/CanCommunication.cpp:42-81 | published commands followed by those still queued are exactly the commands queued at first or sent by others, in order |
| CanLoop.ReceivesOneATurn | src/communication/CanCommunication.cpp:47-60 | at least min(turns, initial queue length) frames have been received, and never more than one a turn |
| CanLoop.ReceivesWheneverItCan | src/communication/CanCommunication.cpp:47-60 | a turn receives exactly the oldest waiting frame whenever there is one, also one that has only just been sent |
| CanLoop.EveryStateIsSent | src/communication/CanCommunication.cpp:42-81 | the whole content of the bus, place by place: received and queued frames are the initial ones and then, turn by turn, what others sent and one frame for each state that could be read, which decodes to that state up to rounding; nothing else |
| CanLoop.InitialCommandsArePublished | src/communication/CanCommunication.cpp:42-68 | all commands among L initially queued frames are published, first and in order, within L turns |
| CanLoop.QueueIsBounded | src/communication/CanCommunication.cpp:42-81 | the queue never exceeds max(L, 1) plus what others transmitted |

## Left out

- Floating point: quantities are reals, so rounding, NaN, infinities and the finiteness tests of the safety layer are not modelled; exactness on multiples of 0.01 is a statement about exact arithmetic, for doubles 0.29 encodes to 28.
- Clock units: times are integer nanoseconds; the source keeps the statistics as doubles in milliseconds.
- Integer widths: counters and the 64-bit sequence number are unbounded, so fewer than 2^63 publications during one read attempt are assumed.
- Speed limits are taken to be non-negative, since clamping to a reversed range is undefined; the laws that need more of a configuration (a proper position range, limits that admit zero) say so, and the default robot meets them all.
- Threads: Dafny has none. The snapshot protocol, the monitors and the lifecycle are therefore state machines on values, interleaved at single accesses of shared state; a single writer is assumed, as the source says. The memory a load meets is a parameter of the in-place `Read`.
- Lifecycle: `thread_.join()`, the lock and the worker's accesses are single steps; a whole cycle is one step of the worker there, since `Monitor.dfy` and `ControlLoop.dfy` model its inside. The stop token of the joining thread, the destructor, and exceptions from a scheduler, which end the process, are left out. That calls return assumes, as any thread program does, that enabled steps are eventually taken.
- The CAN command and state buffers use relaxed accesses, which an interleaving model would not represent faithfully: reading them succeeds or fails arbitrarily, and nothing is claimed about torn position and velocity pairs on the CAN side.
- ControlCycle.ControlLoop.Update: the clock readings, the processor and the outcome of reading the command buffer are parameters, and the statistics of a cycle are recorded together after the robot was updated and published, in the source's order among themselves; the state handed to the CAN side is a result.
- CanLoop.CanCommunication.Run: the loop runs for a finite number of turns; its start and stop flag and the sleep between turns are not modelled.
- Scheduling.Recovery: wake-ups are ideal there; sleeping, spinning, timers, priorities and affinity of the operating system, the retry after an interrupted sleep and the Windows scheduler are not modelled.
- Convergence from saturated starts and freedom from overshoot are not claimed; the loop is underdamped.
- Printing, the program's entry point, the scheduler factory, getters and the wrapper types for units would add only easy members.
