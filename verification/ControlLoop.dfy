/** One cycle of the control loop as the program runs it, on the robot, the snapshot buffer and the
    statistics together; and the same cycle as a run of the worker in the interleaved model. */
module ControlCycle {
  import opened JointTypes
  import opened Kinematics
  import opened JointDynamics
  import opened RobotDynamics
  import opened RobotClasses
  import opened SeqLock
  import opened SnapshotBuffers
  import opened CycleHistory
  import opened ControlLoopTiming
  import Codec
  import Convergence
  import Monitor

  /** The robot after one cycle: a command that could be read moves the target of the first joint. */
  function AfterCycle(robot: RobotModel, command: Codec.Option<JointCommand>): RobotModel {
    Monitor.Cycle(if command.Some? then Apply(PD, robot, SetJointTargetPosition(0, command.value.targetPosition)).0 else robot)
  }

  /** A command reaches only the target of the first joint, where it replaces the one before; every
      other joint makes the step it would have made without it; and nothing leaves the limits. */
  lemma CommandReachesFirstJoint(robot: RobotModel, command: Codec.Option<JointCommand>)
    ensures var after := AfterCycle(robot, command);
            && after[0].command == (if command.Some? then command.value else robot[0].command)
            && (forall i | 1 <= i < JOINT_COUNT :: after[i] == JointStep(PD, robot[i], Convergence.DT))
            && (Safe(robot) ==> Safe(after))
  {
    var ready := if command.Some? then Apply(PD, robot, SetJointTargetPosition(0, command.value.targetPosition)).0 else robot;
    StepKeepsCommand(ready[0], Convergence.DT);
    if Safe(robot) {
      assert Safe(ready);
      ApplySafe(PD, ready, RobotOp.Update(Convergence.DT));
    }
    hide JointStep, Safe;
  }

  lemma StepKeepsCommand(j: JointModel, dt: real)
    ensures JointStep(PD, j, dt).command == j.command
  {
    hide FreePosition, FinalVelocity, PD;
  }

  /** From the bus to the joint: a target that was encoded, received and read is the first joint's
      target after the cycle, to within the resolution of the frame. */
  lemma FrameSetsTarget(robot: RobotModel, command: JointCommand)
    requires Codec.Encodable(command.targetPosition)
    ensures var received := Codec.DecodeCommand(Codec.CommandFrame(command));
            Codec.Rounded(AfterCycle(robot, received)[0].command.targetPosition, command.targetPosition)
  {
    hide AfterCycle, Codec.Rounded, Codec.DecodeCommand, Codec.CommandFrame;
    Codec.CommandRoundTrip(command);
    CommandReachesFirstJoint(robot, Codec.DecodeCommand(Codec.CommandFrame(command)));
  }

  class ControlLoop {
    const robot: Robot
    const snapshot: SnapshotBuffer
    const statistics: Statistics
    var completedCycles: nat

    constructor (robot: Robot, snapshot: SnapshotBuffer, statistics: Statistics)
      ensures this.robot == robot && this.snapshot == snapshot && this.statistics == statistics
      ensures completedCycles == 0
    {
      this.robot := robot;
      this.snapshot := snapshot;
      this.statistics := statistics;
      completedCycles := 0;
    }

    /** One cycle.  `command` is what reading the command buffer gave, `c` holds the clock readings.
        The robot is updated once, its new state and nothing else is published, the statistics take in
        the cycle, and the cycle is counted. */
    method Update(command: Codec.Option<JointCommand>, c: Cycle, ghost h: seq<Cycle>)
      returns (executionTime: int, canState: JointState)
      requires robot.Valid() && snapshot.Valid() && statistics.Summarises(h)
      modifies this, robot.joints, Motors(robot.joints), snapshot, snapshot.positions, snapshot.velocities, statistics
      ensures robot.Models() == AfterCycle(old(robot.Models()), command)
      ensures snapshot.Valid() && snapshot.View() == Memory(old(snapshot.sequence) + 2, Flatten(StateOf(robot.Models())))
      ensures statistics.Summarises(h + [c]) && executionTime == c.Execution()
      ensures canState == robot.Models()[0].state
      ensures completedCycles == old(completedCycles) + 1
    {
      hide StateOf, Flatten, AfterCycle, statistics.Summarises, snapshot.View, robot.Models;
      var state := Control(command);
      canState := state[0];
      ghost var after := robot.Models();
      StateOfAt(after, 0);
      ghost var _ := snapshot.Publish(state);
      assert robot.Models() == after;
      executionTime := statistics.Record(c, h);
      assert robot.Models() == after;
      completedCycles := completedCycles + 1;
    }

    /** The robot's part of the cycle. */
    method Control(command: Codec.Option<JointCommand>) returns (state: RobotState)
      requires robot.Valid()
      modifies robot.joints, Motors(robot.joints)
      ensures robot.Models() == AfterCycle(old(robot.Models()), command)
      ensures state == StateOf(robot.Models())
    {
      hide StateOf, UpdateAll, Apply;
      if command.Some? {
        var _ := robot.SetJointTargetPosition(0, command.value.targetPosition);
      }
      robot.Update(Convergence.DT);
      state := robot.State();
    }
  }

  lemma StateOfAt(robot: RobotModel, i: nat)
    requires i < JOINT_COUNT
    ensures StateOf(robot)[i] == robot[i].state
  {
  }

  // ---------------------------------------------------------------- the cycle in the interleaved model

  /** The worker's own accesses from state `s`, `k` of them. */
  function Publishes(s: Monitor.Loop, k: nat): Monitor.Loop {
    if k == 0 then s else Monitor.DoLoop(Publishes(s, k - 1), Monitor.PublishAccess)
  }

  /** The worker's actions for one cycle. */
  function WorkerCycle(s: Monitor.Loop, command: Codec.Option<JointCommand>): Monitor.Loop {
    var ready := if command.Some? then Monitor.DoLoop(s, Monitor.Command(SetJointTargetPosition(0, command.value.targetPosition))) else s;
    Monitor.DoLoop(Publishes(Monitor.DoLoop(ready, Monitor.UpdateRobot), CELLS + 2), Monitor.CountCycle)
  }

  lemma {:induction false} PublishesRun(s: Monitor.Loop, k: nat)
    requires s.stage.Updated? && s.lock.writer.Resting? && k <= CELLS + 2
    ensures var x, s' := Flatten(StateOf(s.robot)), Publishes(s, k);
            s' == s.(lock := DoAll(s.lock, PublishActions(x)[..k]),
                     stage := if k == 0 then Monitor.Updated else if k < CELLS + 2 then Monitor.Publishing else Monitor.Published)
  {
    hide Flatten, StateOf, PublishActions;
    var x := Flatten(StateOf(s.robot));
    if k > 0 {
      PublishesRun(s, k - 1);
      PublishRun(s.lock, x, k - 1);
      PublishRun(s.lock, x, k);
      PublishActionAt(x, k - 1);
    }
  }

  /** Run without interference, the worker's actions do to robot, memory and count what the method
      `Update` does: the interleaved model is about that method. */
  lemma WorkerCycleIsUpdate(s: Monitor.Loop, command: Codec.Option<JointCommand>)
    requires s.stage.Ready? && s.lock.writer.Resting?
    ensures var s' := WorkerCycle(s, command);
            && s'.stage.Ready? && s'.robot == AfterCycle(s.robot, command)
            && s'.lock.memory == Memory(s.lock.memory.sequence + 2, Flatten(StateOf(s'.robot)))
            && s'.lock.published == s.lock.published + [Flatten(StateOf(s'.robot))]
            && s'.completed == s.completed + 1
            && s'.lock.readers == s.lock.readers && s'.results == s.results
  {
    hide Flatten, StateOf, PublishActions, UpdateAll, Publishes;
    var ready := if command.Some? then Monitor.DoLoop(s, Monitor.Command(SetJointTargetPosition(0, command.value.targetPosition))) else s;
    var updated := Monitor.DoLoop(ready, Monitor.UpdateRobot);
    var x := Flatten(StateOf(updated.robot));
    PublishesRun(updated, CELLS + 2);
    PublishRun(updated.lock, x, CELLS + 2);
    DuringEnd(updated.lock.memory, x);
  }
}
