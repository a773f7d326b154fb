/** The value types shared by the controller: what a joint does, what it is asked to do,
    and the limits it was configured with.  Every physical quantity is a `real`. */
module JointTypes {

  const JOINT_COUNT: nat := 6

  /** What a joint is currently doing, in degrees and degrees per second. */
  datatype JointState = JointState(position: real, velocity: real)

  /** What a joint is asked to do. */
  datatype JointCommand = JointCommand(targetPosition: real)

  /** The limits a joint is constructed with. */
  datatype Limits = Limits(minPosition: real, maxPosition: real, maxVelocity: real, maxAcceleration: real)
  {
    /** A usable configuration: a proper position range that contains the initial position 0,
        and an acceleration limit that admits at least 0. */
    predicate WellFormed() {
      minPosition < maxPosition && minPosition <= 0.0 <= maxPosition && 0.0 <= maxAcceleration
    }

    predicate Allows(s: JointState) {
      minPosition <= s.position <= maxPosition && -maxVelocity <= s.velocity <= maxVelocity
    }

    predicate AllowsAcceleration(a: real) {
      -maxAcceleration <= a <= maxAcceleration
    }
  }

  /** A speed limit is a magnitude: limiting a value to [-v, v] is only defined for 0 <= v. */
  type JointLimits = l: Limits | 0.0 <= l.maxVelocity
    witness Limits(0.0, 0.0, 0.0, 0.0)

  const STILL := JointState(0.0, 0.0)

  /** A snapshot of all six joints. */
  type RobotState = s: seq<JointState> | |s| == JOINT_COUNT
    witness seq(JOINT_COUNT, _ => STILL)

  const ZERO_STATE: RobotState := [STILL, STILL, STILL, STILL, STILL, STILL]

  function Clamp(x: real, lo: real, hi: real): (r: real)
    requires lo <= hi
    ensures lo <= r <= hi
    ensures lo <= x <= hi ==> r == x
    ensures x < lo ==> r == lo
    ensures hi < x ==> r == hi
  {
    if x < lo then lo else if hi < x then hi else x
  }
}
