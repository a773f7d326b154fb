/** The controller: desired and actual state to an acceleration request, limited symmetrically. */
module PDController {
  import opened JointTypes

  datatype PDControllerConfig = PDControllerConfig(positionGain: real, velocityGain: real, maxAcceleration: real)

  function Calculate(config: PDControllerConfig, command: JointCommand, actual: JointState): (acceleration: real)
    ensures 0.0 <= config.maxAcceleration ==>
              -config.maxAcceleration <= acceleration <= config.maxAcceleration
  {
    var error := command.targetPosition - actual.position;
    var raw := config.positionGain * error - config.velocityGain * actual.velocity;
    var cappedAbove := if raw > config.maxAcceleration then config.maxAcceleration else raw;
    if cappedAbove < -config.maxAcceleration then -config.maxAcceleration else cappedAbove
  }

  /** The request is the admissible acceleration nearest to the unlimited control law: no admissible
      `a` lies between the two. */
  lemma NearestToLaw(config: PDControllerConfig, command: JointCommand, actual: JointState, a: real)
    requires -config.maxAcceleration <= a <= config.maxAcceleration
    ensures var r := Calculate(config, command, actual);
            var law := config.positionGain * (command.targetPosition - actual.position) - config.velocityGain * actual.velocity;
            && -config.maxAcceleration <= r <= config.maxAcceleration
            && (law <= r ==> a <= law || r <= a) && (r <= law ==> law <= a || a <= r)
  {
  }
}

/** One joint as a value: the operations the robot performs on it, and the laws of its motion. */
module JointDynamics {
  import opened JointTypes
  import opened Kinematics

  /** Everything a joint holds, with the command its motor holds. */
  datatype JointModel = JointModel(state: JointState, command: JointCommand, limits: JointLimits, motor: real)
  {
    /** The joint is inside its position, velocity and acceleration limits. */
    predicate InLimits() {
      limits.Allows(state) && limits.AllowsAcceleration(motor)
    }
  }

  /** What a controller is to the robot: any function of command and actual state. */
  type Controller = (JointCommand, JointState) -> real

  function InitializePosition(j: JointModel, position: real): (JointModel, bool) {
    if position < j.limits.minPosition || position > j.limits.maxPosition then (j, false)
    else (j.(state := j.state.(position := position)), true)
  }

  function SetTargetPosition(j: JointModel, target: real): JointModel {
    j.(command := JointCommand(target))
  }

  function SetAcceleration(j: JointModel, a: real): (JointModel, bool) {
    if a > j.limits.maxAcceleration || a < -j.limits.maxAcceleration then (j, false)
    else (j.(motor := a), true)
  }

  /** The safety layer's test; over the reals every value is finite. */
  predicate Validate(limits: JointLimits, requested: real) {
    requested <= limits.maxAcceleration && requested >= -limits.maxAcceleration
  }

  /** The control half of an update: the request if it is safe, otherwise zero. */
  function ControlPhase(c: Controller, j: JointModel): JointModel {
    var requested := c(j.command, j.state);
    SetAcceleration(j, if Validate(j.limits, requested) then requested else 0.0).0
  }

  function StopAt(j: JointModel, position: real): JointModel {
    SetAcceleration(j.(state := JointState(position, 0.0)), 0.0).0
  }

  /** Where the joint would be after `dt` if there were no position stops. */
  function FreePosition(j: JointModel, dt: real): real {
    j.state.position + Displacement(StartVelocity(j), j.motor, j.limits.maxVelocity, dt)
  }

  function StartVelocity(j: JointModel): real {
    Clamp(j.state.velocity, -j.limits.maxVelocity, j.limits.maxVelocity)
  }

  predicate HitsLowerStop(j: JointModel, dt: real) {
    dt > 0.0 && FreePosition(j, dt) <= j.limits.minPosition
  }

  predicate HitsUpperStop(j: JointModel, dt: real) {
    dt > 0.0 && !HitsLowerStop(j, dt) && FreePosition(j, dt) >= j.limits.maxPosition
  }

  predicate HitsStop(j: JointModel, dt: real) {
    HitsLowerStop(j, dt) || HitsUpperStop(j, dt)
  }

  /** The simulation half of an update. */
  function Simulate(j: JointModel, dt: real): JointModel {
    if dt <= 0.0 then j
    else if HitsLowerStop(j, dt) then StopAt(j, j.limits.minPosition)
    else if HitsUpperStop(j, dt) then StopAt(j, j.limits.maxPosition)
    else j.(state := JointState(FreePosition(j, dt),
                                FinalVelocity(StartVelocity(j), j.motor, j.limits.maxVelocity, dt)))
  }

  function JointStep(c: Controller, j: JointModel, dt: real): JointModel {
    Simulate(ControlPhase(c, j), dt)
  }

  // ---------------------------------------------------------------- step splitting

  /** A stopped joint whose motor is off does not move. */
  lemma StoppedStays(j: JointModel, dt: real)
    requires j.limits.minPosition <= j.limits.maxPosition && 0.0 <= j.limits.maxAcceleration
    requires j.state.position == j.limits.minPosition || j.state.position == j.limits.maxPosition
    requires j.state.velocity == 0.0 && j.motor == 0.0
    ensures Simulate(j, dt) == j
  {
    Coast(0.0, j.limits.maxVelocity, dt);
  }

  /** When the first of two steps meets no stop, the two steps are one: same position, velocity
      and motor command, through every saturation branch and even if the second step stops. */
  lemma SplitFreeStep(j: JointModel, s: real, t: real)
    requires 0.0 <= s && 0.0 <= t && !HitsStop(j, s)
    ensures Simulate(Simulate(j, s), t) == Simulate(j, s + t)
  {
    hide Displacement, FinalVelocity;
    if s > 0.0 && t > 0.0 {
      SplitMotion(StartVelocity(j), j.motor, j.limits.maxVelocity, s, t);
      assert FreePosition(Simulate(j, s), t) == FreePosition(j, s + t);
    }
  }

  /** Exactly when two steps are one: a stop met in the first step must also end the long step. */
  lemma SplitExactly(j: JointModel, s: real, t: real)
    requires 0.0 <= s && 0.0 <= t
    requires j.limits.minPosition < j.limits.maxPosition && 0.0 <= j.limits.maxAcceleration
    ensures Simulate(Simulate(j, s), t) == Simulate(j, s + t) <==>
            (HitsLowerStop(j, s) ==> HitsLowerStop(j, s + t)) && (HitsUpperStop(j, s) ==> HitsUpperStop(j, s + t))
  {
    hide FreePosition, FinalVelocity;
    if HitsStop(j, s) {
      StoppedStays(Simulate(j, s), t);
    } else {
      SplitFreeStep(j, s, t);
    }
  }

  function Repeat(j: JointModel, dt: real, n: nat): JointModel {
    if n == 0 then j else Simulate(Repeat(j, dt, n - 1), dt)
  }

  /** Integration is exact: any number of equal steps is one long step, if none but the last stops. */
  lemma {:induction false} EqualSteps(j: JointModel, dt: real, n: nat)
    requires dt > 0.0
    requires forall k: nat :: k + 1 < n ==> !HitsStop(Repeat(j, dt, k), dt)
    ensures Repeat(j, dt, n) == Simulate(j, Span(n, dt))
  {
    hide Span, FreePosition, FinalVelocity;
    SpanNext(n, dt);
    if n > 0 {
      SpanNext(n - 1, dt);
      EqualSteps(j, dt, n - 1);
      if n > 1 {
        SpanNext(n - 2, dt);
        LongStepFree(j, dt, n - 2, Span(n - 1, dt));
      }
      hide HitsStop, Simulate;
      NoStopInZeroTime(j);
      SplitFreeStep(j, Span(n - 1, dt), dt);
    }
  }

  lemma NoStopInZeroTime(j: JointModel)
    ensures !HitsStop(j, 0.0)
  {
  }

  lemma {:induction false} RepeatKeepsLimits(j: JointModel, dt: real, k: nat)
    ensures Repeat(j, dt, k).limits == j.limits
  {
    hide HitsLowerStop, HitsUpperStop, FreePosition, FinalVelocity;
    if k > 0 { RepeatKeepsLimits(j, dt, k - 1); }
  }

  lemma LongStepFree(j: JointModel, dt: real, k: nat, long: real)
    requires dt > 0.0 && long > 0.0 && !HitsStop(Repeat(j, dt, k), dt)
    requires Repeat(j, dt, k + 1) == Simulate(j, long)
    ensures !HitsStop(j, long)
  {
    hide HitsStop, Simulate;
    StrictlyInside(Repeat(j, dt, k), dt);
    StrictlyInside(j, long);
    RepeatKeepsLimits(j, dt, k);
  }

  /** A step meets a stop exactly when it ends on a position limit or beyond. */
  lemma StrictlyInside(j: JointModel, dt: real)
    requires dt > 0.0
    ensures !HitsStop(j, dt) <==>
              j.limits.minPosition < Simulate(j, dt).state.position < j.limits.maxPosition
  {
    hide FreePosition, FinalVelocity;
  }

  // ---------------------------------------------------------------- monotonicity and distance

  /** Raising the position, the velocity or the acceleration never lowers the resulting position. */
  lemma MonotoneStep(j: JointModel, j': JointModel, dt: real)
    requires j.limits == j'.limits && j.limits.minPosition <= j.limits.maxPosition
    requires j.state.position <= j'.state.position && j.state.velocity <= j'.state.velocity && j.motor <= j'.motor
    ensures Simulate(j, dt).state.position <= Simulate(j', dt).state.position
  {
    if dt > 0.0 {
      assert FreePosition(j, dt) <= FreePosition(j', dt) by {
        hide Displacement;
        DisplacementMonotone(StartVelocity(j), j.motor, StartVelocity(j'), j'.motor, j.limits.maxVelocity, dt);
      }
      hide FreePosition, FinalVelocity;
    }
  }

  function Distance(x: real, y: real): real {
    if x <= y then y - x else x - y
  }

  /** From inside its range a joint moves at most at the speed limit, also into a stop. */
  lemma StepDistance(j: JointModel, dt: real)
    requires 0.0 <= dt && j.limits.minPosition <= j.state.position <= j.limits.maxPosition
    ensures Distance(j.state.position, Simulate(j, dt).state.position) <= j.limits.maxVelocity * dt
    ensures j.limits.minPosition <= Simulate(j, dt).state.position <= j.limits.maxPosition
  {
    hide Distance, FreePosition, Simulate;
    FreeDistance(j, dt);
    StopsAreCloser(j, dt, j.limits.maxVelocity * dt);
  }

  lemma FreeDistance(j: JointModel, dt: real)
    requires 0.0 <= dt
    ensures Distance(j.state.position, FreePosition(j, dt)) <= j.limits.maxVelocity * dt
  {
    hide Displacement, FinalVelocity;
    DisplacementBounds(StartVelocity(j), j.motor, j.limits.maxVelocity, dt);
  }

  lemma StopsAreCloser(j: JointModel, dt: real, reach: real)
    requires Distance(j.state.position, FreePosition(j, dt)) <= reach
    requires j.limits.minPosition <= j.state.position <= j.limits.maxPosition
    ensures Distance(j.state.position, Simulate(j, dt).state.position) <= reach
    ensures j.limits.minPosition <= Simulate(j, dt).state.position <= j.limits.maxPosition
  {
    hide FreePosition, FinalVelocity;
  }
}
