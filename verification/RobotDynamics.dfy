/** The robot as a value: six joints under one controller, the operations a caller has, and what
    holds of every run of them. */
module RobotDynamics {
  import opened JointTypes
  import opened Kinematics
  import opened JointDynamics
  import opened PDController

  type RobotModel = r: seq<JointModel> | |r| == JOINT_COUNT
    witness seq(JOINT_COUNT, _ => JointModel(STILL, JointCommand(0.0), Limits(0.0, 0.0, 0.0, 0.0), 0.0))

  const WIDE := Limits(-180.0, 180.0, 60.0, 30.0)
  const NARROW := Limits(-90.0, 90.0, 60.0, 30.0)
  const DEFAULT_LIMITS: seq<JointLimits> := [WIDE, NARROW, WIDE, WIDE, NARROW, WIDE]
  const DEFAULT_CONFIG := PDControllerConfig(1.0, 0.5, 30.0)
  const PD: Controller := (command, actual) => Calculate(DEFAULT_CONFIG, command, actual)

  function NewJoint(limits: JointLimits): JointModel {
    JointModel(STILL, JointCommand(0.0), limits, 0.0)
  }

  function NewRobot(): RobotModel {
    seq(JOINT_COUNT, i requires 0 <= i < JOINT_COUNT => NewJoint(DEFAULT_LIMITS[i]))
  }

  datatype RobotOp =
    | InitializeJointPosition(index: nat, position: real)
    | SetJointTargetPosition(index: nat, target: real)
    | SetJointAcceleration(index: nat, acceleration: real)
    | Update(dt: real)

  function UpdateAll(c: Controller, robot: RobotModel, dt: real): RobotModel {
    seq(JOINT_COUNT, i requires 0 <= i < JOINT_COUNT => JointStep(c, robot[i], dt))
  }

  /** What each operation leaves and returns; an index past the last joint changes nothing. */
  function Apply(c: Controller, robot: RobotModel, op: RobotOp): (RobotModel, bool) {
    match op
    case InitializeJointPosition(i, position) =>
      if i >= JOINT_COUNT then (robot, false)
      else var (j, ok) := JointDynamics.InitializePosition(robot[i], position); (robot[i := j], ok)
    case SetJointTargetPosition(i, target) =>
      if i >= JOINT_COUNT then (robot, false)
      else (robot[i := SetTargetPosition(robot[i], target)], true)
    case SetJointAcceleration(i, a) =>
      if i >= JOINT_COUNT then (robot, false)
      else var (j, ok) := SetAcceleration(robot[i], a); (robot[i := j], ok)
    case Update(dt) => (UpdateAll(c, robot, dt), true)
  }

  function StateOf(robot: RobotModel): RobotState {
    seq(JOINT_COUNT, i requires 0 <= i < JOINT_COUNT => robot[i].state)
  }

  /** A run in which the k-th operation meets the controller `c(k)`: the controller may change
      arbitrarily from call to call, so this covers every controller, also one with memory. */
  function Run(c: nat -> Controller, robot: RobotModel, ops: seq<RobotOp>): RobotModel {
    if ops == [] then robot
    else Apply(c(|ops| - 1), Run(c, robot, ops[..|ops| - 1]), ops[|ops| - 1]).0
  }

  /** What a caller can rely on: an operation reaches only the joint it names; a position or an
      acceleration is taken exactly when it is within that joint's limits; a target always. */
  lemma OperationsAreLocal(c: Controller, robot: RobotModel, op: RobotOp)
    requires !op.Update?
    ensures var (after, ok) := Apply(c, robot, op);
            && (forall k | 0 <= k < JOINT_COUNT && k != op.index :: after[k] == robot[k])
            && (!ok ==> after == robot)
            && (op.index >= JOINT_COUNT ==> !ok)
            && (op.index < JOINT_COUNT ==>
                  var j, j', limits := robot[op.index], after[op.index], robot[op.index].limits;
                  match op
                  case InitializeJointPosition(_, p) =>
                    && (ok <==> limits.minPosition <= p <= limits.maxPosition)
                    && (ok ==> j'.state.position == p && j == j'.(state := j.state))
                    && j'.state.velocity == j.state.velocity
                  case SetJointTargetPosition(_, target) =>
                    ok && j'.command.targetPosition == target && j == j'.(command := j.command)
                  case SetJointAcceleration(_, a) =>
                    && (ok <==> limits.AllowsAcceleration(a) && Validate(limits, a))
                    && (ok ==> j'.motor == a && j == j'.(motor := j.motor))
                  case Update(_) => true)
  {
  }

  lemma RunExtends(c: nat -> Controller, robot: RobotModel, ops: seq<RobotOp>, op: RobotOp)
    ensures Run(c, robot, []) == robot
    ensures Run(c, robot, ops + [op]) == Apply(c(|ops|), Run(c, robot, ops), op).0
  {
    hide Apply;
    assert (ops + [op])[..|ops|] == ops;
  }

  // ---------------------------------------------------------------- safety over all runs

  ghost predicate Safe(robot: RobotModel) {
    forall i | 0 <= i < JOINT_COUNT :: robot[i].limits.WellFormed() && robot[i].InLimits()
  }

  lemma StepSafe(c: Controller, j: JointModel, dt: real)
    requires j.limits.WellFormed() && j.InLimits()
    ensures JointStep(c, j, dt).InLimits() && JointStep(c, j, dt).limits == j.limits
  {
    hide FreePosition, FinalVelocity;
  }

  /** Every operation, under every controller, keeps every joint inside all of its limits. */
  lemma ApplySafe(c: Controller, robot: RobotModel, op: RobotOp)
    requires Safe(robot)
    ensures Safe(Apply(c, robot, op).0)
    ensures forall i | 0 <= i < JOINT_COUNT :: Apply(c, robot, op).0[i].limits == robot[i].limits
  {
    if op.Update? {
      forall i | 0 <= i < JOINT_COUNT
        ensures JointStep(c, robot[i], op.dt).InLimits() && JointStep(c, robot[i], op.dt).limits == robot[i].limits
      {
        StepSafe(c, robot[i], op.dt);
      }
    }
  }

  lemma {:induction false} RunSafe(c: nat -> Controller, robot: RobotModel, ops: seq<RobotOp>)
    requires Safe(robot)
    ensures Safe(Run(c, robot, ops))
    ensures forall i | 0 <= i < JOINT_COUNT :: Run(c, robot, ops)[i].limits == robot[i].limits
  {
    if ops != [] {
      RunSafe(c, robot, ops[..|ops| - 1]);
      ApplySafe(c(|ops| - 1), Run(c, robot, ops[..|ops| - 1]), ops[|ops| - 1]);
    }
  }

  /** From construction, any sequence of operations under any controllers stays within the limits. */
  lemma SafeFromConstruction(c: nat -> Controller, ops: seq<RobotOp>)
    ensures var robot := Run(c, NewRobot(), ops);
            forall i | 0 <= i < JOINT_COUNT :: robot[i].limits == DEFAULT_LIMITS[i] && robot[i].InLimits()
  {
    RunSafe(c, NewRobot(), ops);
  }

  lemma RequestAccepted(j: JointModel)
    requires 30.0 <= j.limits.maxAcceleration
    ensures Validate(j.limits, PD(j.command, j.state)) && ControlPhase(PD, j).motor == PD(j.command, j.state)
  {
  }

  /** Under the default configuration the safety layer never rejects: the motor gets the request. */
  lemma RequestsAreAccepted(c: nat -> Controller, ops: seq<RobotOp>, i: nat)
    requires i < JOINT_COUNT
    ensures var j := Run(c, NewRobot(), ops)[i];
            Validate(j.limits, PD(j.command, j.state)) && ControlPhase(PD, j).motor == PD(j.command, j.state)
  {
    hide ControlPhase, Validate, PD;
    SafeFromConstruction(c, ops);
    RequestAccepted(Run(c, NewRobot(), ops)[i]);
  }

  // ---------------------------------------------------------------- distance over runs

  /** The simulated time of a run: non-positive steps do not count. */
  function Elapsed(ops: seq<RobotOp>): real {
    if ops == [] then 0.0 else Elapsed(ops[..|ops| - 1]) + OpTime(ops[|ops| - 1])
  }

  function OpTime(op: RobotOp): real {
    if op.Update? && op.dt > 0.0 then op.dt else 0.0
  }

  /** Getting from `x` to `y` takes at most time `t` at speed `v`. */
  predicate Within(x: real, y: real, v: real, t: real) {
    Distance(x, y) <= v * t
  }

  lemma WithinChain(x: real, y: real, z: real, v: real, s: real, t: real)
    requires Within(x, y, v, s) && Within(y, z, v, t)
    ensures Within(x, z, v, s + t)
  {
    Distribute(v, s, t);
  }

  /** Whatever the targets, the accelerations and the controllers, a joint that is not
      re-initialised moves at most its speed limit times the simulated time. */
  lemma {:induction false} RunDistance(c: nat -> Controller, robot: RobotModel, ops: seq<RobotOp>, i: nat)
    requires Safe(robot) && i < JOINT_COUNT
    requires forall k | 0 <= k < |ops| :: !ops[k].InitializeJointPosition?
    ensures Within(robot[i].state.position, Run(c, robot, ops)[i].state.position,
                   robot[i].limits.maxVelocity, Elapsed(ops))
  {
    hide Apply, Safe, OpTime;
    var x, v := robot[i].state.position, robot[i].limits.maxVelocity;
    if ops == [] {
      assert Within(x, x, v, 0.0);
    } else {
      hide Within;
      var n := |ops| - 1;
      var mid := Run(c, robot, ops[..n]);
      RunDistance(c, robot, ops[..n], i);
      RunSafe(c, robot, ops[..n]);
      OpDistance(c(n), mid, ops[n], i);
      WithinChain(x, mid[i].state.position, Run(c, robot, ops)[i].state.position, v, Elapsed(ops[..n]), OpTime(ops[n]));
    }
  }

  lemma OpDistance(c: Controller, robot: RobotModel, op: RobotOp, i: nat)
    requires Safe(robot) && i < JOINT_COUNT && !op.InitializeJointPosition?
    ensures Within(robot[i].state.position, Apply(c, robot, op).0[i].state.position,
                   robot[i].limits.maxVelocity, OpTime(op))
  {
    hide FreePosition, FinalVelocity;
    if op.Update? && op.dt > 0.0 { StepDistance(ControlPhase(c, robot[i]), op.dt); }
  }

  /** In particular `n` updates of 1 ms move no joint of the robot further than 0.06 degrees each. */
  lemma {:induction false} MillisecondDistance(c: nat -> Controller, setup: seq<RobotOp>, n: nat, i: nat)
    requires i < JOINT_COUNT
    ensures var robot := Run(c, NewRobot(), setup);
            var updates := seq(n, _ => Update(0.001));
            Distance(robot[i].state.position, Run(c, robot, updates)[i].state.position) <= 0.06 * n as real
  {
    var robot, updates := Run(c, NewRobot(), setup), seq(n, _ => Update(0.001));
    RunSafe(c, NewRobot(), setup);
    RunDistance(c, robot, updates, i);
    ElapsedMilliseconds(n);
    assert robot[i].limits == DEFAULT_LIMITS[i];
  }

  lemma {:induction false} ElapsedMilliseconds(n: nat)
    ensures Elapsed(seq(n, _ => Update(0.001))) == 0.001 * n as real
  {
    if n > 0 {
      ElapsedMilliseconds(n - 1);
      assert seq(n, _ => Update(0.001))[..n - 1] == seq(n - 1, _ => Update(0.001));
    }
  }

  // ---------------------------------------------------------------- position stops

  /** At rest on a stop, whatever its motor was last told. */
  predicate OnStop(j: JointModel) {
    && j.state.velocity == 0.0
    && (j.state.position == j.limits.minPosition || j.state.position == j.limits.maxPosition)
  }

  /** The target is at or beyond the stop the joint rests on. */
  predicate Pressed(j: JointModel) {
    || (j.state.position == j.limits.minPosition && j.command.targetPosition <= j.limits.minPosition)
    || (j.state.position == j.limits.maxPosition && j.command.targetPosition >= j.limits.maxPosition)
  }

  function Updates(j: JointModel, dts: seq<real>): JointModel {
    if dts == [] then j else JointStep(PD, Updates(j, dts[..|dts| - 1]), dts[|dts| - 1])
  }

  lemma RestDisplacement(a: real, vmax: real, dt: real)
    requires 0.0 < vmax && 0.0 < dt
    ensures a > 0.0 ==> Displacement(0.0, a, vmax, dt) > 0.0
    ensures a < 0.0 ==> Displacement(0.0, a, vmax, dt) < 0.0
    ensures a == 0.0 ==> Displacement(0.0, a, vmax, dt) == 0.0
  {
    if a == 0.0 {
      Coast(0.0, vmax, dt);
    } else {
      hide Displacement;
      var y := a * dt;
      PositiveArea(y, vmax);
      assert Potential(0.0, vmax) == 0.0;
      Work(0.0, a, vmax, dt, y);
      Signs(a, Displacement(0.0, a, vmax, dt));
    }
  }

  lemma PositiveArea(y: real, vmax: real)
    requires 0.0 < vmax && y != 0.0
    ensures Potential(y, vmax) > 0.0
  {
    if y > vmax {
      AboveHalfSquare(y, vmax);
    } else if y < -vmax {
      AboveHalfSquare(y, -vmax);
    } else {
      calc {
        Potential(y, vmax);
        0.5 * (y * y);
        > 0.0;
      }
    }
  }

  lemma AboveHalfSquare(y: real, c: real)
    requires 0.0 < c <= y || y <= c < 0.0
    ensures c * y - 0.5 * (c * c) > 0.0
  {
    if y > 0.0 { Positive(c, y - 0.5 * c); } else { Positive(-c, 0.5 * c - y); }
    assert c * y - 0.5 * (c * c) == c * (y - 0.5 * c);
  }

  lemma Signs(a: real, d: real)
    requires a * d > 0.0
    ensures (a > 0.0 && d > 0.0) || (a < 0.0 && d < 0.0)
  {
  }

  /** One update of a joint that rests on a stop: it stays, with the motor off, if the target presses
      it into the stop, and otherwise it is strictly inside its range afterwards or has crossed it. */
  lemma StopStep(j: JointModel, dt: real)
    requires j.limits.WellFormed() && 0.0 < j.limits.maxVelocity && 30.0 <= j.limits.maxAcceleration
    requires OnStop(j) && dt > 0.0
    ensures var j' := JointStep(PD, j, dt);
            if Pressed(j) then j' == j.(motor := 0.0)
            else if j.state.position == j.limits.maxPosition then j'.state.position < j.limits.maxPosition
            else j'.state.position > j.limits.minPosition
  {
    hide Displacement, FinalVelocity;
    var a := PD(j.command, j.state);
    RestDisplacement(a, j.limits.maxVelocity, dt);
    assert ControlPhase(PD, j) == j.(motor := a);
    assert FreePosition(j.(motor := a), dt) == j.state.position + Displacement(0.0, a, j.limits.maxVelocity, dt);
  }

  /** A stop holds for as long as the target stays beyond it: after any number of updates the joint is
      where it was, at rest, with its motor off. */
  lemma {:induction false} StopHolds(j: JointModel, dts: seq<real>)
    requires j.limits.WellFormed() && 0.0 < j.limits.maxVelocity && 30.0 <= j.limits.maxAcceleration
    requires OnStop(j) && Pressed(j)
    requires forall k | 0 <= k < |dts| :: dts[k] > 0.0
    ensures Updates(j, dts) == if dts == [] then j else j.(motor := 0.0)
  {
    if dts != [] {
      StopHolds(j, dts[..|dts| - 1]);
      StopStep(Updates(j, dts[..|dts| - 1]), dts[|dts| - 1]);
    }
  }
}
