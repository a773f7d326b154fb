/** What one update does to each joint, said in the terms of the motion alone: the acceleration the
    controller asks for, the motion under it, and the stops.  Nothing here names the steps of which
    an update is made. */
module RobotMotion {
  import opened JointTypes
  import opened Kinematics
  import opened JointDynamics
  import opened PDController
  import opened RobotDynamics

  predicate AtRest(j: JointModel, position: real) {
    j.state == JointState(position, 0.0) && j.motor == 0.0
  }

  /** From `j` to `j'` the joint has moved for a time `dt` under the acceleration `a`: it rests on a
      stop that lies on its way, and has otherwise the position and the velocity of that motion. */
  ghost predicate Moved(j: JointModel, a: real, dt: real, j': JointModel) {
    var lo, hi, vmax := j.limits.minPosition, j.limits.maxPosition, j.limits.maxVelocity;
    var u := Clamp(j.state.velocity, -vmax, vmax);
    var free := j.state.position + Displacement(u, a, vmax, dt);
    && j'.limits == j.limits && j'.command == j.command
    && (free <= lo ==> AtRest(j', lo))
    && (lo < free && hi <= free ==> AtRest(j', hi))
    && (lo < free < hi ==> j'.motor == a && j'.state == JointState(free, Clamp(u + a * dt, -vmax, vmax)))
  }

  /** The simulation moves a joint under whatever its motor was told, from any state; without time to
      move it changes nothing. */
  lemma SimulationMoves(j: JointModel, dt: real)
    requires 0.0 <= j.limits.maxAcceleration
    ensures if dt > 0.0 then Moved(j, j.motor, dt, Simulate(j, dt)) else Simulate(j, dt) == j
  {
    hide Displacement;
  }

  lemma ControlSetsMotor(c: Controller, j: JointModel)
    requires 0.0 <= j.limits.maxAcceleration
    ensures var request, amax := c(j.command, j.state), j.limits.maxAcceleration;
            ControlPhase(c, j) == j.(motor := if -amax <= request <= amax then request else 0.0)
  {
  }

  lemma MotorIsReplaced(j: JointModel, a: real, dt: real, j': JointModel)
    requires Moved(j.(motor := a), a, dt, j')
    ensures Moved(j, a, dt, j')
  {
    hide Displacement, Clamp;
  }

  /** Under any controller, every joint moves under its request if that is within its limit, and
      under no acceleration otherwise.  Without time to move only the motor changes. */
  lemma UpdateMoves(c: Controller, robot: RobotModel, dt: real, i: nat)
    requires i < JOINT_COUNT && 0.0 <= robot[i].limits.maxAcceleration
    ensures var j, j' := robot[i], UpdateAll(c, robot, dt)[i];
            var request, amax := c(j.command, j.state), j.limits.maxAcceleration;
            var a := if -amax <= request <= amax then request else 0.0;
            if dt > 0.0 then Moved(j, a, dt, j') else j' == j.(motor := a)
  {
    hide Simulate, ControlPhase, Moved;
    ControlSetsMotor(c, robot[i]);
    var told := ControlPhase(c, robot[i]);
    SimulationMoves(told, dt);
    if dt > 0.0 { MotorIsReplaced(robot[i], told.motor, dt, UpdateAll(c, robot, dt)[i]); }
  }

  /** No value in [-max, max] is nearer to `law` than `a`. */
  ghost predicate Nearest(a: real, law: real, max: real) {
    -max <= a <= max && forall b | -max <= b <= max :: Distance(a, law) <= Distance(b, law)
  }

  lemma NearestIsUnique(a: real, b: real, law: real, max: real)
    requires Nearest(a, law, max) && Nearest(b, law, max)
    ensures a == b
  {
    var m := 0.5 * (a + b);
    assert Distance(a, law) <= Distance(m, law) && Distance(b, law) <= Distance(m, law);
  }

  lemma RequestIsNearest(j: JointModel)
    ensures Nearest(PD(j.command, j.state), j.command.targetPosition - j.state.position - 0.5 * j.state.velocity, 30.0)
  {
    var law := j.command.targetPosition - j.state.position - 0.5 * j.state.velocity;
    forall b | -30.0 <= b <= 30.0
      ensures Distance(PD(j.command, j.state), law) <= Distance(b, law)
    {
      NearestToLaw(DEFAULT_CONFIG, j.command, j.state, b);
    }
  }

  /** `Moved`, for a joint of the default robot: its speed is within 60, so nothing is cut off at first. */
  ghost predicate MovedByDefault(j: JointModel, a: real, dt: real, j': JointModel) {
    var lo, hi, v := j.limits.minPosition, j.limits.maxPosition, j.state.velocity;
    var free := j.state.position + Displacement(v, a, 60.0, dt);
    && j'.limits == j.limits && j'.command == j.command
    && (free <= lo ==> AtRest(j', lo)) && (free >= hi ==> AtRest(j', hi))
    && (lo < free < hi ==>
          && j'.motor == a && j'.state.position == free
          && j'.state.velocity == Clamp(v + a * dt, -60.0, 60.0))
  }

  lemma DefaultStart(j: JointModel, a: real, dt: real, j': JointModel)
    requires Moved(j, a, dt, j') && j.limits.maxVelocity == 60.0 && j.limits.minPosition < j.limits.maxPosition
    requires -60.0 <= j.state.velocity <= 60.0
    ensures MovedByDefault(j, a, dt, j')
  {
    assert Clamp(j.state.velocity, -60.0, 60.0) == j.state.velocity;
    hide Displacement, Clamp;
  }

  /** `j` became `j'` in a time `dt` by moving under `a`, the acceleration in [-30, 30] that is nearest
      to target - position - velocity / 2. */
  ghost predicate FollowsLaw(j: JointModel, a: real, dt: real, j': JointModel) {
    && Nearest(a, j.command.targetPosition - j.state.position - 0.5 * j.state.velocity, 30.0)
    && MovedByDefault(j, a, dt, j')
  }

  lemma JointFollowsLaw(robot: RobotModel, dt: real, i: nat) returns (a: real)
    requires i < JOINT_COUNT && dt > 0.0
    requires robot[i].limits == DEFAULT_LIMITS[i] && robot[i].InLimits()
    ensures FollowsLaw(robot[i], a, dt, UpdateAll(PD, robot, dt)[i])
  {
    var j := robot[i];
    a := PD(j.command, j.state);
    RequestIsNearest(j);
    assert -30.0 <= a <= 30.0 && -60.0 <= j.state.velocity <= 60.0;
    assert j.limits.maxVelocity == 60.0 && j.limits.maxAcceleration == 30.0 && j.limits.minPosition < j.limits.maxPosition;
    hide PD, UpdateAll, Nearest, Moved, MovedByDefault;
    UpdateMoves(PD, robot, dt, i);
    DefaultStart(j, a, dt, UpdateAll(PD, robot, dt)[i]);
  }

  /** Every reachable state of the default robot, every target and every step: each joint moves under
      the one acceleration in [-30, 30] that is nearest to target - position - velocity / 2, with its
      speed limited to 60, and comes to rest on a stop that lies on its way. */
  lemma UpdateFollowsLaw(c: nat -> Controller, ops: seq<RobotOp>, dt: real, i: nat) returns (a: real)
    requires i < JOINT_COUNT && dt > 0.0
    ensures FollowsLaw(Run(c, NewRobot(), ops)[i], a, dt, UpdateAll(PD, Run(c, NewRobot(), ops), dt)[i])
  {
    SafeFromConstruction(c, ops);
    hide Run, FollowsLaw, UpdateAll;
    a := JointFollowsLaw(Run(c, NewRobot(), ops), dt, i);
  }

  predicate RestsInside(j: JointModel) {
    j.state.velocity == 0.0 && j.limits.minPosition < j.state.position < j.limits.maxPosition
  }

  /** From `j` to `j'` the position has come nearer to the target's side, or is kept on the target. */
  predicate SetsOff(j: JointModel, j': JointModel) {
    && (j.command.targetPosition > j.state.position ==> j'.state.position > j.state.position)
    && (j.command.targetPosition < j.state.position ==> j'.state.position < j.state.position)
    && (j.command.targetPosition == j.state.position ==> j'.state == j.state)
  }

  /** A joint at rest inside its range sets off towards its target, on whichever side that is, and
      stays exactly where it is if it is there already. */
  lemma HeadsForTarget(c: nat -> Controller, ops: seq<RobotOp>, dt: real, i: nat)
    requires i < JOINT_COUNT && dt > 0.0 && RestsInside(Run(c, NewRobot(), ops)[i])
    ensures SetsOff(Run(c, NewRobot(), ops)[i], UpdateAll(PD, Run(c, NewRobot(), ops), dt)[i])
  {
    hide Run, UpdateAll, FollowsLaw, RestsInside, SetsOff;
    var a := UpdateFollowsLaw(c, ops, dt, i);
    LawSetsOff(Run(c, NewRobot(), ops)[i], a, dt, UpdateAll(PD, Run(c, NewRobot(), ops), dt)[i]);
  }

  lemma LawSetsOff(j: JointModel, a: real, dt: real, j': JointModel)
    requires FollowsLaw(j, a, dt, j') && dt > 0.0 && RestsInside(j)
    ensures SetsOff(j, j')
  {
    hide Nearest, MovedByDefault;
    NearestHasSign(a, j.command.targetPosition - j.state.position);
    FromRest(j, a, dt, j');
  }

  lemma FromRest(j: JointModel, a: real, dt: real, j': JointModel)
    requires MovedByDefault(j, a, dt, j') && dt > 0.0
    requires j.state.velocity == 0.0 && j.limits.minPosition < j.state.position < j.limits.maxPosition
    ensures a > 0.0 ==> j'.state.position > j.state.position
    ensures a < 0.0 ==> j'.state.position < j.state.position
    ensures a == 0.0 ==> j'.state == j.state
  {
    hide Displacement;
    RestDisplacement(a, 60.0, dt);
    if a == 0.0 { NoGain(a, dt); }
  }

  lemma NearestHasSign(a: real, law: real)
    requires Nearest(a, law, 30.0)
    ensures (law > 0.0 ==> a > 0.0) && (law < 0.0 ==> a < 0.0) && (law == 0.0 ==> a == 0.0)
  {
    var b := Clamp(law, -30.0, 30.0);
    assert Distance(a, law) <= Distance(b, law);
  }

  lemma NoGain(a: real, dt: real)
    requires a == 0.0
    ensures a * dt == 0.0
  {
  }

  /** However a joint arrives at a position limit, and under whatever controller, it rests there with
      its motor off. */
  lemma StopsAtRest(c: Controller, robot: RobotModel, dt: real, i: nat)
    requires i < JOINT_COUNT && robot[i].limits.WellFormed() && dt > 0.0
    ensures var j, j' := robot[i], UpdateAll(c, robot, dt)[i];
            j'.state.position == j.limits.minPosition || j'.state.position == j.limits.maxPosition ==>
              j'.state.velocity == 0.0 && j'.motor == 0.0
  {
    hide UpdateAll, Displacement;
    UpdateMoves(c, robot, dt, i);
  }

  /** A stop does not stick: a joint that has just arrived at one, at any speed and under any
      controller, leaves it in the next update for a target strictly inside its range. */
  lemma StopsRelease(c: Controller, robot: RobotModel, dt: real, target: real, dt': real, i: nat)
    requires i < JOINT_COUNT && dt > 0.0 && dt' > 0.0
    requires robot[i].limits.WellFormed() && 0.0 < robot[i].limits.maxVelocity && 30.0 <= robot[i].limits.maxAcceleration
    requires robot[i].limits.minPosition < target < robot[i].limits.maxPosition
    ensures var arrived := UpdateAll(c, robot, dt);
            var j := arrived[i];
            var j' := UpdateAll(PD, Apply(PD, arrived, SetJointTargetPosition(i, target)).0, dt')[i];
            && (j.state.position == robot[i].limits.maxPosition ==> j'.state.position < j.state.position)
            && (j.state.position == robot[i].limits.minPosition ==> j'.state.position > j.state.position)
  {
    var arrived := UpdateAll(c, robot, dt);
    StopsAtRest(c, robot, dt, i);
    UpdateMoves(c, robot, dt, i);
    var told := SetTargetPosition(arrived[i], target);
    assert UpdateAll(PD, Apply(PD, arrived, SetJointTargetPosition(i, target)).0, dt')[i] == JointStep(PD, told, dt');
    hide UpdateAll, Displacement, JointStep;
    if OnStop(told) { StopStep(told, dt'); }
  }

  /** The ranges of the six joints, in every reachable state and under any controllers: joints 1 and 4
      stay within 90 degrees of zero, the others within 180; none is faster than 60 degrees a second or
      told to accelerate by more than 30. */
  lemma RangesOfTheRobot(c: nat -> Controller, ops: seq<RobotOp>, i: nat)
    requires i < JOINT_COUNT
    ensures var j := Run(c, NewRobot(), ops)[i];
            var range := if i == 1 || i == 4 then 90.0 else 180.0;
            && j.limits == Limits(-range, range, 60.0, 30.0)
            && -range <= j.state.position <= range
            && -60.0 <= j.state.velocity <= 60.0 && -30.0 <= j.motor <= 30.0
  {
    SafeFromConstruction(c, ops);
    hide Run;
  }

  /** A joint that rests on its target, strictly inside its range, with its motor off. */
  predicate Settled(j: JointModel) {
    RestsInside(j) && j.command.targetPosition == j.state.position && j.motor == 0.0
  }

  /** Being settled is an equilibrium of the closed loop, for steps of any length. */
  lemma SettledStays(j: JointModel, dt: real)
    requires Settled(j) && 0.0 <= j.limits.maxAcceleration
    ensures JointStep(PD, j, dt) == j
  {
    assert PD(j.command, j.state) == 0.0;
    ControlSetsMotor(PD, j);
    assert ControlPhase(PD, j) == j;
    hide PD, ControlPhase, Simulate, Displacement;
    SimulationMoves(j, dt);
    if dt > 0.0 {
      Coast(0.0, j.limits.maxVelocity, dt);
      NoGain(0.0, dt);
    }
  }

  function Updating(dts: seq<real>): (ops: seq<RobotOp>)
    ensures |ops| == |dts|
  {
    seq(|dts|, k requires 0 <= k < |dts| => RobotOp.Update(dts[k]))
  }

  /** A new robot is at rest at zero, with its targets there and its motors off, and stays so under any
      updates until it is told something else. */
  lemma {:induction false} NewRobotStays(dts: seq<real>, i: nat)
    requires i < JOINT_COUNT
    ensures var j := Run(_ => PD, NewRobot(), Updating(dts))[i];
            Settled(j) && j.state == JointState(0.0, 0.0) && j == NewRobot()[i]
  {
    hide PD;
    if dts != [] {
      var n := |dts| - 1;
      var before := Updating(dts[..n]);
      NewRobotStays(dts[..n], i);
      assert Updating(dts) == before + [RobotOp.Update(dts[n])];
      RunExtends(_ => PD, NewRobot(), before, RobotOp.Update(dts[n]));
      hide Run, JointStep, Updating;
      SettledStays(NewRobot()[i], dts[n]);
    }
  }
}
