/** The default closed loop at its fixed 1 ms step: no saturation, exact contraction, convergence. */
module Convergence {
  import opened JointTypes
  import opened Kinematics
  import opened JointDynamics
  import opened PDController
  import opened RobotDynamics

  /** The control period, in seconds. */
  const DT := 0.001

  /** The factor by which one step multiplies the energy: 1 - DT/2 + DT*DT/2. */
  const RATE := 0.9995005

  /** A quadratic form in the position error and the velocity. */
  function Energy(e: real, v: real): real {
    e * e + 0.5 * (1.0 - DT) * (e * v) + (1.0 - 0.25 * DT) * (v * v)
  }

  function ErrorOf(j: JointModel): real {
    j.state.position - j.command.targetPosition
  }

  function JointEnergy(j: JointModel): real {
    Energy(ErrorOf(j), j.state.velocity)
  }

  /** A joint of the default kind whose target is at least 30 degrees away from both stops. */
  predicate Tracking(j: JointModel) {
    && j.limits.minPosition + 30.0 <= j.command.targetPosition <= j.limits.maxPosition - 30.0
    && 60.0 <= j.limits.maxVelocity && 30.0 <= j.limits.maxAcceleration
  }

  function RawRequest(j: JointModel): real {
    -ErrorOf(j) - 0.5 * j.state.velocity
  }

  /** The next update saturates nothing: not the request, not the velocity, not the position. */
  predicate SmoothUpdate(j: JointModel) {
    && PD(j.command, j.state) == RawRequest(j) && ControlPhase(PD, j).motor == RawRequest(j)
    && -j.limits.maxVelocity < j.state.velocity + RawRequest(j) * DT < j.limits.maxVelocity
    && !HitsStop(ControlPhase(PD, j), DT)
  }

  function Pow(r: real, n: nat): real {
    if n == 0 then 1.0 else r * Pow(r, n - 1)
  }

  function After(j: JointModel, n: nat): JointModel {
    if n == 0 then j else JointStep(PD, After(j, n - 1), DT)
  }

  // ---------------------------------------------------------------- quadratic forms

  lemma NonNegativeForm(p: real, q: real, r: real, e: real, v: real)
    requires p > 0.0 && 4.0 * p * r >= q * q
    ensures p * (e * e) + q * (e * v) + r * (v * v) >= 0.0
  {
    var form := p * (e * e) + q * (e * v) + r * (v * v);
    var s := 2.0 * p * e + q * v;
    assert 4.0 * p * form == s * s + (4.0 * p * r - q * q) * (v * v);
    assert s * s >= 0.0 && v * v >= 0.0;
    Signed(4.0 * p * r - q * q, v * v);
    if form < 0.0 { assert 4.0 * p * form < 0.0; }
  }

  lemma Signed(x: real, y: real)
    requires x >= 0.0 && y >= 0.0
    ensures x * y >= 0.0
  {
  }

  lemma SquareBelow(x: real, c: real)
    requires c >= 0.0
    ensures x * x < c * c ==> -c < x < c
    ensures x * x <= c * c ==> -c <= x <= c
  {
    SquareMonotone(x, c);
    SquareMonotone(-x, c);
    assert (-x) * (-x) == x * x;
  }

  lemma SquareMonotone(x: real, c: real)
    requires c >= 0.0
    ensures x >= c ==> x * x >= c * c
    ensures x > c ==> x * x > c * c
  {
    if x > c {
      calc {
        x * x;
        > { Positive(x - c, x); }
        c * x;
        >= { Products(c, x, c); }
        c * c;
      }
    }
  }

  lemma EnergyBoundsSquares(e: real, v: real)
    ensures Energy(e, v) >= 0.7 * (e * e + v * v)
    ensures Energy(e, v) >= 0.7 * (e * e) && Energy(e, v) >= 0.7 * (v * v) && Energy(e, v) >= 0.0
  {
    NonNegativeForm(0.3, 0.4995, 0.29975, e, v);
    assert e * e >= 0.0 && v * v >= 0.0;
  }

  /** The sublevel set of the energy lies clear of every saturation. */
  lemma SublevelIsClear(e: real, v: real)
    requires Energy(e, v) <= 800.0
    ensures -30.0 <= -e - 0.5 * v <= 30.0
    ensures -30.0 < e < 30.0
    ensures -60.0 < v < 60.0
  {
    EnergyBoundsSquares(e, v);
    SquareBelow(v, 60.0);
    NonNegativeForm(0.07, 0.4995, 0.99975, e, v);
    SquareBelow(e, 30.0);
    var a := -e - 0.5 * v;
    NonNegativeForm(0.125, -0.4380625, 0.87471875, e, v);
    assert a * a == e * e + e * v + 0.25 * (v * v);
    SquareBelow(a, 30.0);
  }

  // ---------------------------------------------------------------- one update

  /** The unsaturated update multiplies the energy by exactly RATE. */
  lemma LinearContraction(e: real, v: real)
    ensures var a := -e - 0.5 * v;
            Energy(e + v * DT + 0.5 * a * DT * DT, v + a * DT) == RATE * Energy(e, v)
  {
  }

  lemma OneUpdate(j: JointModel)
    requires Tracking(j) && JointEnergy(j) <= 800.0
    ensures SmoothUpdate(j)
    ensures var j' := JointStep(PD, j, DT);
            && j'.limits == j.limits && j'.command == j.command
            && JointEnergy(j') == RATE * JointEnergy(j)
            && JointEnergy(j') <= 800.0
  {
    hide Displacement, Energy;
    var e, v, a := ErrorOf(j), j.state.velocity, RawRequest(j);
    SublevelIsClear(e, v);
    assert ControlPhase(PD, j) == j.(motor := a);
    LinearContraction(e, v);
    var e', v' := e + v * DT + 0.5 * a * DT * DT, v + a * DT;
    assert 0.0 <= Energy(e, v) by { EnergyBoundsSquares(e, v); }
    SublevelIsClear(e', v');
    Unsaturated(v, a, j.limits.maxVelocity, DT);
    assert FreePosition(j.(motor := a), DT) == j.command.targetPosition + e';
  }

  // ---------------------------------------------------------------- every run

  /** Forward invariance and exact contraction over any number of updates. */
  lemma {:induction false} ExactContraction(j: JointModel, n: nat)
    requires Tracking(j) && JointEnergy(j) <= 800.0
    ensures var k := After(j, n);
            && Tracking(k) && k.command == j.command && k.limits == j.limits
            && JointEnergy(k) == Pow(RATE, n) * JointEnergy(j)
            && JointEnergy(k) <= 800.0
            && SmoothUpdate(k)
  {
    hide JointEnergy, SmoothUpdate, JointStep;
    if n > 0 {
      ExactContraction(j, n - 1);
      OneUpdate(After(j, n - 1));
      assert RATE * (Pow(RATE, n - 1) * JointEnergy(j)) == Pow(RATE, n) * JointEnergy(j);
    }
    OneUpdate(After(j, n));
  }

  /** Bernoulli's inequality for the decay. */
  lemma {:induction false} Decay(n: nat)
    ensures 0.0 <= Pow(RATE, n) && Pow(RATE, n) * (1.0 + n as real * (1.0 - RATE)) <= 1.0
  {
    if n > 0 {
      Decay(n - 1);
      var p, c, m := Pow(RATE, n - 1), 1.0 - RATE, (n - 1) as real;
      assert RATE * (1.0 + (m + 1.0) * c) <= 1.0 + m * c;
      Products(RATE * (1.0 + (m + 1.0) * c), 1.0 + m * c, p);
      assert n as real == m + 1.0;
    }
  }

  /** The number of updates after which every such joint is within `eps`: it grows with the
      inverse square of `eps`, and 0.7 * (1 - RATE) * SETTLING exceeds 800. */
  const SETTLING := 2288003.0

  function SettlingUpdates(eps: real): nat
    requires eps > 0.0
  {
    var x := 1.0 / eps;
    assert x * x >= 0.0;
    (SETTLING * (x * x)).Floor + 1
  }

  lemma EnoughUpdates(eps: real, n: nat, q: real, w: real)
    requires eps > 0.0 && n >= SettlingUpdates(eps)
    requires q == 0.7 * (eps * eps) && w == 1.0 + n as real * (1.0 - RATE)
    ensures 800.0 < q * w
  {
    var x := 1.0 / eps;
    var bound, m := SETTLING * (x * x), n as real;
    assert m > bound by { assert n >= bound.Floor + 1; }
    var ee := eps * eps;
    assert ee * (x * x) == 1.0 by {
      assert eps * x == 1.0;
      assert ee * (x * x) == (eps * x) * (eps * x);
    }
    hide SettlingUpdates;
    calc {
      800.0;
      <= 0.7 * (1.0 - RATE) * SETTLING * (ee * (x * x));
      0.7 * (1.0 - RATE) * (ee * bound);
      <= { Positive(eps, eps); Positive(m - bound, ee); }
      0.7 * (1.0 - RATE) * (ee * m);
      < { Positive(eps, eps); }
      0.7 * ee + 0.7 * (1.0 - RATE) * (ee * m);
      q * w;
    }
  }

  /** Convergence with an explicit bound that does not depend on the starting state. */
  lemma Converges(j: JointModel, eps: real, n: nat)
    requires Tracking(j) && JointEnergy(j) <= 800.0
    requires eps > 0.0 && n >= SettlingUpdates(eps)
    ensures var k := After(j, n); -eps < ErrorOf(k) < eps && -eps < k.state.velocity < eps
  {
    hide Energy, JointStep, SmoothUpdate, SettlingUpdates;
    var k, q, w := After(j, n), 0.7 * (eps * eps), 1.0 + n as real * (1.0 - RATE);
    ExactContraction(j, n);
    Decay(n);
    EnoughUpdates(eps, n, q, w);
    EnergyBoundsSquares(ErrorOf(j), j.state.velocity);
    var p, start, now := Pow(RATE, n), JointEnergy(j), JointEnergy(k);
    assert p * w <= 1.0;
    Faded(p, w, start, now, q);
    EnergyBoundsSquares(ErrorOf(k), k.state.velocity);
    SquareBelow(ErrorOf(k), eps);
    SquareBelow(k.state.velocity, eps);
  }

  lemma Faded(p: real, w: real, start: real, now: real, q: real)
    requires p * w <= 1.0 && 0.0 <= start <= 800.0 && now == p * start && 800.0 < q * w && 1.0 <= w
    ensures now < q
  {
    calc {
      now * w;
      (p * w) * start;
      <= { Capped(p * w, start); }
      start;
      <= 800.0;
      < q * w;
    }
    if q <= now { Products(q, now, w); }
  }

  lemma Capped(q: real, energy: real)
    requires q <= 1.0 && 0.0 <= energy
    ensures q * energy <= energy
  {
  }

  // ---------------------------------------------------------------- the whole robot

  function UpdateMany(robot: RobotModel, n: nat): RobotModel {
    if n == 0 then robot else UpdateAll(PD, UpdateMany(robot, n - 1), DT)
  }

  /** The updates of this section are those of a run under the PD controller. */
  lemma {:induction false} UpdatesAreARun(robot: RobotModel, n: nat)
    ensures Run(_ => PD, robot, seq(n, _ => RobotOp.Update(DT))) == UpdateMany(robot, n)
  {
    hide UpdateAll;
    if n > 0 {
      UpdatesAreARun(robot, n - 1);
      assert seq(n, _ => RobotOp.Update(DT))[..n - 1] == seq(n - 1, _ => RobotOp.Update(DT));
    }
  }

  lemma {:induction false} JointsAreIndependent(robot: RobotModel, n: nat, i: nat)
    requires i < JOINT_COUNT
    ensures UpdateMany(robot, n)[i] == After(robot[i], n)
  {
    hide JointStep;
    if n > 0 { JointsAreIndependent(robot, n - 1, i); }
  }

  /** Every joint of a robot that starts in the sublevel set settles, all of them uniformly. */
  lemma RobotConverges(robot: RobotModel, eps: real, n: nat, i: nat)
    requires i < JOINT_COUNT && Tracking(robot[i]) && JointEnergy(robot[i]) <= 800.0
    requires eps > 0.0 && n >= SettlingUpdates(eps)
    ensures var k := UpdateMany(robot, n)[i];
            && k.command == robot[i].command
            && -eps < k.state.position - k.command.targetPosition < eps && -eps < k.state.velocity < eps
  {
    JointsAreIndependent(robot, n, i);
    Converges(robot[i], eps, n);
    ExactContraction(robot[i], n);
  }
}
