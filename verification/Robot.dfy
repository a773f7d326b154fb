/** The robot as the program runs it: joints and motors updated in place, loop by loop.
    Every method is tied to the value-level definition it implements. */
module RobotClasses {
  import opened JointTypes
  import opened Kinematics
  import opened JointDynamics
  import opened PDController
  import opened RobotDynamics

  class SimulatedMotor {
    var acceleration: real

    constructor ()
      ensures acceleration == 0.0
    {
      acceleration := 0.0;
    }

    method SetAcceleration(a: real)
      modifies this
      ensures acceleration == a
    {
      acceleration := a;
    }
  }

  class Joint {
    var position: real
    var command: JointCommand
    var velocity: real
    const limits: JointLimits
    const motor: SimulatedMotor

    /** What the joint and its motor hold. */
    ghost function Model(): JointModel
      reads this, motor
    {
      JointModel(JointState(position, velocity), command, limits, motor.acceleration)
    }

    constructor (limits: JointLimits, motor: SimulatedMotor)
      ensures this.limits == limits && this.motor == motor
      ensures position == 0.0 && velocity == 0.0 && command == JointCommand(0.0)
    {
      this.position, this.command, this.velocity := 0.0, JointCommand(0.0), 0.0;
      this.limits, this.motor := limits, motor;
    }

    method InitializePosition(p: real) returns (ok: bool)
      modifies this
      ensures (Model(), ok) == JointDynamics.InitializePosition(old(Model()), p)
    {
      if p < limits.minPosition || p > limits.maxPosition {
        return false;
      }
      position := p;
      return true;
    }

    method SetTargetPosition(target: real)
      modifies this
      ensures Model() == JointDynamics.SetTargetPosition(old(Model()), target)
    {
      command := JointCommand(target);
    }

    method SetAcceleration(a: real) returns (ok: bool)
      modifies motor
      ensures (Model(), ok) == JointDynamics.SetAcceleration(old(Model()), a)
    {
      if a > limits.maxAcceleration || a < -limits.maxAcceleration {
        return false;
      }
      motor.SetAcceleration(a);
      return true;
    }

    method Simulate(newVelocity: real, newPosition: real)
      modifies this
      ensures Model() == old(Model()).(state := JointState(newPosition, newVelocity))
    {
      velocity := newVelocity;
      position := newPosition;
    }
  }

  /** No two joints share a place or a motor. */
  ghost predicate Separate(joints: seq<Joint>) {
    forall i, j | 0 <= i < j < |joints| :: joints[i] != joints[j] && joints[i].motor != joints[j].motor
  }

  ghost function Motors(joints: seq<Joint>): set<SimulatedMotor> {
    set j | j in joints :: j.motor
  }

  class RobotSimulator {
    const joints: seq<Joint>

    constructor (joints: seq<Joint>)
      ensures this.joints == joints
    {
      this.joints := joints;
    }

    /** Advances every joint in turn: each ends where one pure step takes it, whatever the order. */
    method Update(dt: real)
      requires Separate(joints)
      modifies joints, Motors(joints)
      ensures forall i | 0 <= i < |joints| :: joints[i].Model() == JointDynamics.Simulate(old(joints[i].Model()), dt)
    {
      if dt <= 0.0 {
        return;
      }
      for n := 0 to |joints|
        invariant forall i | 0 <= i < n :: joints[i].Model() == JointDynamics.Simulate(old(joints[i].Model()), dt)
        invariant forall i | n <= i < |joints| :: joints[i].Model() == old(joints[i].Model())
      {
        Advance(joints[n], dt);
      }
    }

    /** One joint's step: integrate under the speed limit, then apply the position stops. */
    static method Advance(joint: Joint, dt: real)
      requires dt > 0.0
      modifies joint, joint.motor
      ensures joint.Model() == JointDynamics.Simulate(old(joint.Model()), dt)
    {
      hide Displacement, FinalVelocity;
      var initialPosition := joint.position;
      var maxVelocity := joint.limits.maxVelocity;
      var initialVelocity := Clamp(joint.velocity, -maxVelocity, maxVelocity);
      var finalVelocity, displacement := Travel(initialVelocity, joint.motor.acceleration, maxVelocity, dt);
      var newPosition := initialPosition + displacement;
      assert newPosition == FreePosition(joint.Model(), dt);
      if newPosition <= joint.limits.minPosition {
        joint.Simulate(0.0, joint.limits.minPosition);
        var _ := joint.SetAcceleration(0.0);
      } else if newPosition >= joint.limits.maxPosition {
        joint.Simulate(0.0, joint.limits.maxPosition);
        var _ := joint.SetAcceleration(0.0);
      } else {
        joint.Simulate(finalVelocity, newPosition);
      }
    }
  }

  class Robot {
    const joints: seq<Joint>
    const simulator: RobotSimulator
    const config: PDControllerConfig

    ghost predicate Valid() {
      && |joints| == JOINT_COUNT && Separate(joints)
      && simulator.joints == joints && config == DEFAULT_CONFIG
    }

    ghost function Models(): RobotModel
      requires Valid()
      reads joints, Motors(joints)
    {
      seq(JOINT_COUNT, i requires 0 <= i < JOINT_COUNT reads joints, Motors(joints) => joints[i].Model())
    }

    constructor ()
      ensures Valid() && fresh(joints) && fresh(Motors(joints))
      ensures Models() == NewRobot()
    {
      var all: seq<Joint> := [];
      for n := 0 to JOINT_COUNT
        invariant |all| == n && fresh(all) && fresh(Motors(all)) && Separate(all)
        invariant forall i | 0 <= i < n :: all[i].Model() == NewJoint(DEFAULT_LIMITS[i])
      {
        var motor := new SimulatedMotor();
        var joint := new Joint(DEFAULT_LIMITS[n], motor);
        assert Motors(all + [joint]) == Motors(all) + {motor};
        all := all + [joint];
      }
      joints := all;
      simulator := new RobotSimulator(all);
      config := DEFAULT_CONFIG;
    }

    method State() returns (state: RobotState)
      requires Valid()
      ensures state == StateOf(Models())
    {
      state := ZERO_STATE;
      for n := 0 to |joints|
        invariant forall i | 0 <= i < n :: state[i] == joints[i].Model().state
      {
        state := state[n := JointState(joints[n].position, joints[n].velocity)];
      }
    }

    method InitializeJointPosition(index: nat, position: real) returns (ok: bool)
      requires Valid()
      modifies joints
      ensures (Models(), ok) == Apply(PD, old(Models()), RobotOp.InitializeJointPosition(index, position))
    {
      if index >= |joints| {
        return false;
      }
      ok := joints[index].InitializePosition(position);
      assert Models() == old(Models())[index := joints[index].Model()];
    }

    method SetJointTargetPosition(index: nat, target: real) returns (ok: bool)
      requires Valid()
      modifies joints
      ensures (Models(), ok) == Apply(PD, old(Models()), RobotOp.SetJointTargetPosition(index, target))
    {
      if index >= |joints| {
        return false;
      }
      joints[index].SetTargetPosition(target);
      assert Models() == old(Models())[index := joints[index].Model()];
      ok := true;
    }

    method SetJointAcceleration(index: nat, a: real) returns (ok: bool)
      requires Valid()
      modifies Motors(joints)
      ensures (Models(), ok) == Apply(PD, old(Models()), RobotOp.SetJointAcceleration(index, a))
    {
      if index >= |joints| {
        return false;
      }
      ok := joints[index].SetAcceleration(a);
      assert Models() == old(Models())[index := joints[index].Model()];
    }

    /** The control phase of every joint, then the simulation of every joint, is one pure step of
        each joint on its own. */
    method Update(dt: real)
      requires Valid()
      modifies joints, Motors(joints)
      ensures Models() == UpdateAll(PD, old(Models()), dt)
    {
      for n := 0 to |joints|
        invariant forall i | 0 <= i < n :: joints[i].Model() == ControlPhase(PD, old(joints[i].Model()))
        invariant forall i | n <= i < |joints| :: joints[i].Model() == old(joints[i].Model())
      {
        Control(joints[n]);
      }
      simulator.Update(dt);
    }

    /** One joint's control phase: the controller's request if the safety layer accepts it. */
    method Control(joint: Joint)
      requires config == DEFAULT_CONFIG
      modifies joint.motor
      ensures joint.Model() == ControlPhase(PD, old(joint.Model()))
    {
      var actual := JointState(joint.position, joint.velocity);
      var requested := Calculate(config, joint.command, actual);
      if Validate(joint.limits, requested) {
        var _ := joint.SetAcceleration(requested);
      } else {
        var _ := joint.SetAcceleration(0.0);
      }
    }
  }
}
