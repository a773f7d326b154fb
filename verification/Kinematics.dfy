/** The motion of one joint over one time step: constant acceleration under a speed limit.

    The program computes the displacement by a case split on the acceleration and on when the
    speed limit is reached.  The definition here has no such split: the speed-limited velocity is
    the slope of a convex potential, so the mean velocity over a step is the slope of a chord of
    that potential.  `Travel` is the program's case split, proved to compute exactly that. */
module Kinematics {
  import opened JointTypes

  /** The potential whose slope at `x` is `x` limited to [-vmax, vmax]. */
  function Potential(x: real, vmax: real): real
    requires 0.0 <= vmax
  {
    var c := Clamp(x, -vmax, vmax);
    c * x - 0.5 * (c * c)
  }

  /** The mean of the speed-limited velocity while the unlimited velocity goes from `x` to `y`. */
  function MeanVelocity(x: real, y: real, vmax: real): real
    requires 0.0 <= vmax
  {
    if x == y then Clamp(x, -vmax, vmax)
    else (Potential(y, vmax) - Potential(x, vmax)) / (y - x)
  }

  function FinalVelocity(u: real, a: real, vmax: real, dt: real): (w: real)
    requires 0.0 <= vmax
    ensures -vmax <= w <= vmax
  {
    Clamp(u + a * dt, -vmax, vmax)
  }

  function Displacement(u: real, a: real, vmax: real, dt: real): real
    requires 0.0 <= vmax
  {
    MeanVelocity(u, u + a * dt, vmax) * dt
  }

  // ---------------------------------------------------------------- arithmetic

  lemma QuotientBounds(n: real, d: real, c: real)
    requires d > 0.0
    ensures n >= c * d ==> n / d >= c
    ensures n <= c * d ==> n / d <= c
    ensures n / d * d == n
  {
  }

  lemma Quotients(n: real, d: real)
    requires d != 0.0
    ensures n / d * d == n
    ensures (-n) / (-d) == n / d
  {
    var q := (-n) / (-d);
    assert q * d == n;
    CancelFactor(d, q, n / d);
  }

  lemma CancelFactor(a: real, x: real, y: real)
    requires a != 0.0 && a * x == a * y
    ensures x == y
  {
  }

  lemma Products(p: real, q: real, r: real)
    requires 0.0 <= r && p <= q
    ensures p * r <= q * r
  {
  }

  lemma Positive(x: real, y: real)
    requires x > 0.0 && y > 0.0
    ensures x * y > 0.0
  {
  }

  lemma SameSign(a: real, s: real, t: real)
    requires 0.0 <= s && 0.0 <= t
    ensures a >= 0.0 ==> a * s >= 0.0 && a * t >= 0.0
    ensures a <= 0.0 ==> a * s <= 0.0 && a * t <= 0.0
  {
  }

  // ---------------------------------------------------------------- the potential

  /** The potential lies above each of its tangents. */
  lemma Tangent(x: real, y: real, vmax: real)
    requires 0.0 <= vmax
    ensures Potential(y, vmax) >= Potential(x, vmax) + Clamp(x, -vmax, vmax) * (y - x)
  {
    var c, k := Clamp(x, -vmax, vmax), Clamp(y, -vmax, vmax);
    SignsAgree(k - c, y - k);
    CompleteSquare(c, k, x, y);
  }

  lemma SignsAgree(p: real, q: real)
    requires (p >= 0.0 && q >= 0.0) || (p <= 0.0 && q <= 0.0) || q == 0.0
    ensures p * q >= 0.0
  {
  }

  lemma CompleteSquare(c: real, k: real, x: real, y: real)
    requires (k - c) * (y - k) >= 0.0
    ensures k * y - 0.5 * (k * k) >= c * x - 0.5 * (c * c) + c * (y - x)
  {
    assert (k * y - 0.5 * (k * k)) - (c * y - 0.5 * (c * c)) == (k - c) * (y - k) + 0.5 * ((k - c) * (k - c));
    assert c * (y - x) == c * y - c * x;
    assert (k - c) * (k - c) >= 0.0;
  }

  /** The area under the limited velocity, seen from either end. */
  lemma MeanArea(x: real, y: real, vmax: real)
    requires 0.0 <= vmax
    ensures MeanVelocity(x, y, vmax) * (y - x) == Potential(y, vmax) - Potential(x, vmax)
  {
    if x != y {
      Quotients(Potential(y, vmax) - Potential(x, vmax), y - x);
    }
  }

  lemma MeanSymmetric(x: real, y: real, vmax: real)
    requires 0.0 <= vmax
    ensures MeanVelocity(x, y, vmax) == MeanVelocity(y, x, vmax)
  {
    if x != y {
      Quotients(Potential(y, vmax) - Potential(x, vmax), y - x);
    }
  }

  lemma MeanBetween(x: real, y: real, vmax: real)
    requires 0.0 <= vmax && x <= y
    ensures Clamp(x, -vmax, vmax) <= MeanVelocity(x, y, vmax) <= Clamp(y, -vmax, vmax)
  {
    if x < y {
      Tangent(x, y, vmax);
      Tangent(y, x, vmax);
      QuotientBounds(Potential(y, vmax) - Potential(x, vmax), y - x, Clamp(x, -vmax, vmax));
      QuotientBounds(Potential(y, vmax) - Potential(x, vmax), y - x, Clamp(y, -vmax, vmax));
    }
  }

  /** Chords that share an end and lie side by side: the chord over both lies between them. */
  lemma WeightedMean(m: real, l: real, r: real, dl: real, dr: real)
    requires dl > 0.0 && dr > 0.0 && l <= r && m * (dl + dr) == l * dl + r * dr
    ensures l <= m <= r
  {
    assert (m - l) * (dl + dr) == (r - l) * dr >= 0.0;
    assert (r - m) * (dl + dr) == (r - l) * dl >= 0.0;
  }

  lemma ChordsInOrder(x: real, y: real, z: real, vmax: real)
    requires 0.0 <= vmax && x < y < z
    ensures MeanVelocity(x, y, vmax) <= MeanVelocity(x, z, vmax) <= MeanVelocity(y, z, vmax)
  {
    MeanBetween(x, y, vmax);
    MeanBetween(y, z, vmax);
    MeanArea(x, y, vmax);
    MeanArea(y, z, vmax);
    MeanArea(x, z, vmax);
    WeightedMean(MeanVelocity(x, z, vmax), MeanVelocity(x, y, vmax), MeanVelocity(y, z, vmax), y - x, z - y);
  }

  lemma MeanMonotoneInOneEnd(x: real, y: real, y': real, vmax: real)
    requires 0.0 <= vmax && y <= y'
    ensures MeanVelocity(x, y, vmax) <= MeanVelocity(x, y', vmax)
  {
    if y < y' {
      MeanSymmetric(x, y, vmax);
      MeanSymmetric(x, y', vmax);
      if x < y {
        ChordsInOrder(x, y, y', vmax);
      } else if y' < x {
        ChordsInOrder(y, y', x, vmax);
      } else {
        MeanBetween(y, x, vmax);
        MeanBetween(x, y', vmax);
      }
    }
  }

  lemma MeanMonotone(x: real, y: real, x': real, y': real, vmax: real)
    requires 0.0 <= vmax && x <= x' && y <= y'
    ensures MeanVelocity(x, y, vmax) <= MeanVelocity(x', y', vmax)
  {
    MeanMonotoneInOneEnd(x, y, y', vmax);
    MeanSymmetric(x, y', vmax);
    MeanSymmetric(x', y', vmax);
    MeanMonotoneInOneEnd(y', x, x', vmax);
  }

  // ---------------------------------------------------------------- laws of one step

  /** Acceleration times displacement is the change of potential. */
  lemma Work(u: real, a: real, vmax: real, dt: real, y: real)
    requires 0.0 <= vmax && y == u + a * dt
    ensures a * Displacement(u, a, vmax, dt) == Potential(y, vmax) - Potential(u, vmax)
  {
    MeanArea(u, u + a * dt, vmax);
    var m := MeanVelocity(u, u + a * dt, vmax);
    assert m * (u + a * dt - u) == a * (m * dt);
  }

  /** `d` lies between `u * t` and `w * t`, and within the speed limit times `t`. */
  ghost predicate Between(d: real, u: real, w: real, vmax: real, t: real) {
    && (if u <= w then u * t <= d <= w * t else w * t <= d <= u * t)
    && -(vmax * t) <= d <= vmax * t
  }

  /** The displacement lies between the initial and the final velocity, each times the time. */
  lemma DisplacementBounds(u: real, a: real, vmax: real, dt: real)
    requires 0.0 <= dt && -vmax <= u <= vmax
    ensures Between(Displacement(u, a, vmax, dt), u, FinalVelocity(u, a, vmax, dt), vmax, dt)
  {
    hide Between, MeanVelocity, Clamp;
    BoundsTowards(u, u + a * dt, vmax, dt, Displacement(u, a, vmax, dt));
  }

  lemma BoundsTowards(u: real, y: real, vmax: real, t: real, d: real)
    requires 0.0 <= t && -vmax <= u <= vmax && d == MeanVelocity(u, y, vmax) * t
    ensures Between(d, u, Clamp(y, -vmax, vmax), vmax, t)
  {
    hide Between, MeanVelocity, Clamp;
    MeanBetweenEnds(u, y, vmax);
    BetweenTimes(u, MeanVelocity(u, y, vmax), Clamp(y, -vmax, vmax), vmax, t, d);
  }

  lemma BetweenTimes(u: real, m: real, w: real, vmax: real, t: real, d: real)
    requires -vmax <= u <= vmax && -vmax <= w <= vmax && 0.0 <= t && d == m * t
    requires if u <= w then u <= m <= w else w <= m <= u
    ensures Between(d, u, w, vmax, t)
  {
    Squeeze(if u <= w then u else w, m, if u <= w then w else u, t);
    Squeeze(-vmax, m, vmax, t);
  }

  lemma MeanBetweenEnds(u: real, y: real, vmax: real)
    requires -vmax <= u <= vmax
    ensures var w, m := Clamp(y, -vmax, vmax), MeanVelocity(u, y, vmax);
            if u <= w then u <= m <= w else w <= m <= u
  {
    MeanSymmetric(u, y, vmax);
    if u <= y { MeanBetween(u, y, vmax); } else { MeanBetween(y, u, vmax); }
  }

  lemma Squeeze(lo: real, m: real, hi: real, t: real)
    requires lo <= m <= hi && 0.0 <= t
    ensures lo * t <= m * t <= hi * t && (lo == -hi ==> lo * t == -(hi * t))
  {
  }

  lemma DisplacementMonotone(u: real, a: real, u': real, a': real, vmax: real, dt: real)
    requires 0.0 <= vmax && 0.0 <= dt && u <= u' && a <= a'
    ensures Displacement(u, a, vmax, dt) <= Displacement(u', a', vmax, dt)
  {
    hide MeanVelocity;
    Products(a, a', dt);
    FartherTowards(u, a * dt, u', a' * dt, vmax, dt);
  }

  lemma FartherTowards(u: real, gain: real, u': real, gain': real, vmax: real, t: real)
    requires 0.0 <= vmax && 0.0 <= t && u <= u' && gain <= gain'
    ensures MeanVelocity(u, u + gain, vmax) * t <= MeanVelocity(u', u' + gain', vmax) * t
  {
    hide MeanVelocity;
    MeanMonotone(u, u + gain, u', u' + gain', vmax);
    Products(MeanVelocity(u, u + gain, vmax), MeanVelocity(u', u' + gain', vmax), t);
  }

  /** Beyond the limit the potential is linear, so velocity lost to the limit changes no area. */
  lemma PotentialAfterLimit(x: real, z: real, vmax: real)
    requires 0.0 <= vmax
    requires x > vmax ==> z >= 0.0
    requires x < -vmax ==> z <= 0.0
    ensures var w := Clamp(x, -vmax, vmax);
            Potential(x + z, vmax) - Potential(x, vmax) == Potential(w + z, vmax) - Potential(w, vmax)
  {
    var w := Clamp(x, -vmax, vmax);
    if x > vmax {
      assert Potential(w + z, vmax) == vmax * (w + z) - 0.5 * vmax * vmax;
      assert Potential(w, vmax) == vmax * w - 0.5 * vmax * vmax;
    } else if x < -vmax {
      assert Potential(w + z, vmax) == -vmax * (w + z) - 0.5 * vmax * vmax;
      assert Potential(w, vmax) == -vmax * w - 0.5 * vmax * vmax;
    }
  }

  /** Two consecutive stretches of motion are one longer stretch. */
  lemma SplitMotion(u: real, a: real, vmax: real, s: real, t: real)
    requires -vmax <= u <= vmax && 0.0 <= s && 0.0 <= t
    ensures var w := FinalVelocity(u, a, vmax, s);
            && FinalVelocity(u, a, vmax, s + t) == FinalVelocity(w, a, vmax, t)
            && Displacement(u, a, vmax, s + t) == Displacement(u, a, vmax, s) + Displacement(w, a, vmax, t)
  {
    var w := FinalVelocity(u, a, vmax, s);
    SameSign(a, s, t);
    Distribute(a, s, t);
    if a == 0.0 {
      Coast(u, vmax, s);
      Coast(w, vmax, t);
      Coast(u, vmax, s + t);
      Distribute(u, s, t);
    } else {
      SplitWork(u, a, vmax, s, t);
    }
  }

  lemma Distribute(a: real, s: real, t: real)
    ensures a * (s + t) == a * s + a * t
  {
  }

  lemma Coast(u: real, vmax: real, t: real)
    requires -vmax <= u <= vmax
    ensures FinalVelocity(u, 0.0, vmax, t) == u && Displacement(u, 0.0, vmax, t) == u * t
  {
  }

  lemma SplitWork(u: real, a: real, vmax: real, s: real, t: real)
    requires -vmax <= u <= vmax && 0.0 <= s && 0.0 <= t && a != 0.0
    ensures var w := FinalVelocity(u, a, vmax, s);
            Displacement(u, a, vmax, s + t) == Displacement(u, a, vmax, s) + Displacement(w, a, vmax, t)
  {
    hide Displacement, Potential;
    var w := FinalVelocity(u, a, vmax, s);
    var d1, d2, d := Displacement(u, a, vmax, s), Displacement(w, a, vmax, t), Displacement(u, a, vmax, s + t);
    SameSign(a, s, t);
    Distribute(a, s, t);
    var x, z := u + a * s, a * t;
    Work(u, a, vmax, s, x);
    Work(w, a, vmax, t, w + z);
    Work(u, a, vmax, s + t, x + z);
    PotentialAfterLimit(x, z, vmax);
    assert a * d == a * d1 + a * d2;
    Distribute(a, d1, d2);
    CancelFactor(a, d, d1 + d2);
  }

  // ---------------------------------------------------------------- displacement as an integral

  function Span(n: nat, dt: real): real {
    n as real * dt
  }

  lemma SpanNext(n: nat, dt: real)
    requires 0.0 < dt
    ensures Span(0, dt) == 0.0 && Span(n + 1, dt) == Span(n, dt) + dt && Span(n, dt) >= 0.0
  {
  }

  /** The speed-limited velocity sampled at the start of each of `n` slices of width `h`. */
  function RiemannSum(u: real, a: real, vmax: real, h: real, n: nat): real
    requires 0.0 <= vmax
  {
    if n == 0 then 0.0
    else RiemannSum(u, a, vmax, h, n - 1) + FinalVelocity(u, a, vmax, Span(n - 1, h)) * h
  }

  /** `sum` approximates the displacement after `t` from the right side, to within the change of
      velocity times `h`. */
  ghost predicate Approximates(sum: real, u: real, a: real, vmax: real, h: real, t: real)
    requires 0.0 <= vmax
  {
    var error := Displacement(u, a, vmax, t) - sum;
    var bound := (FinalVelocity(u, a, vmax, t) - u) * h;
    if a >= 0.0 then 0.0 <= error <= bound else bound <= error <= 0.0
  }

  /** The displacement is the integral of the speed-limited velocity: it differs from a Riemann sum
      by at most the change of velocity times the width of a slice. */
  lemma {:induction false} DisplacementIsIntegral(u: real, a: real, vmax: real, h: real, n: nat)
    requires -vmax <= u <= vmax && 0.0 < h
    ensures Approximates(RiemannSum(u, a, vmax, h, n), u, a, vmax, h, Span(n, h))
  {
    hide Span, Approximates, FinalVelocity;
    SpanNext(n, h);
    if n == 0 {
      AtOnce(u, a, vmax, h);
    } else {
      SpanNext(n - 1, h);
      DisplacementIsIntegral(u, a, vmax, h, n - 1);
      NextSlice(RiemannSum(u, a, vmax, h, n - 1), u, a, vmax, h, Span(n - 1, h), RiemannSum(u, a, vmax, h, n), Span(n, h));
    }
  }

  lemma NextSlice(sum: real, u: real, a: real, vmax: real, h: real, t: real, sum': real, t': real)
    requires -vmax <= u <= vmax && 0.0 < h && 0.0 <= t && Approximates(sum, u, a, vmax, h, t)
    requires sum' == sum + FinalVelocity(u, a, vmax, t) * h && t' == t + h
    ensures Approximates(sum', u, a, vmax, h, t')
  {
    hide Displacement, FinalVelocity;
    var v, w := FinalVelocity(u, a, vmax, t), FinalVelocity(u, a, vmax, t + h);
    SplitMotion(u, a, vmax, t, h);
    DisplacementBounds(v, a, vmax, h);
    VelocityKeepsDirection(v, a, vmax, h);
    AddSlice(Displacement(u, a, vmax, t) - sum, Displacement(v, a, vmax, h), u, v, w, h);
  }

  lemma AddSlice(error: real, d: real, u: real, v: real, w: real, h: real)
    ensures 0.0 <= error <= (v - u) * h && v * h <= d <= w * h ==> 0.0 <= error + d - v * h <= (w - u) * h
    ensures (v - u) * h <= error <= 0.0 && w * h <= d <= v * h ==> (w - u) * h <= error + d - v * h <= 0.0
  {
    assert (w - u) * h == (v - u) * h + (w * h - v * h);
  }

  lemma AtOnce(u: real, a: real, vmax: real, h: real)
    requires -vmax <= u <= vmax
    ensures Approximates(0.0, u, a, vmax, h, 0.0)
  {
  }

  lemma VelocityKeepsDirection(v: real, a: real, vmax: real, h: real)
    requires -vmax <= v <= vmax && 0.0 < h
    ensures if a >= 0.0 then v <= FinalVelocity(v, a, vmax, h) else FinalVelocity(v, a, vmax, h) <= v
  {
    SameSign(a, h, h);
  }

  // ---------------------------------------------------------------- the program's case split

  /** Without saturation the displacement is the textbook formula. */
  lemma Unsaturated(u: real, a: real, vmax: real, dt: real)
    requires -vmax <= u <= vmax && -vmax <= u + a * dt <= vmax
    ensures Displacement(u, a, vmax, dt) == u * dt + 0.5 * a * dt * dt
  {
    if a * dt == 0.0 {
      assert 0.5 * a * dt * dt == 0.5 * (a * dt) * dt == 0.0;
    } else {
      var y, m := u + a * dt, u + 0.5 * (a * dt);
      MeanArea(u, y, vmax);
      assert m * (y - u) == 0.5 * y * y - 0.5 * u * u;
      CancelFactor(y - u, m, MeanVelocity(u, y, vmax));
      assert 0.5 * a * dt * dt == 0.5 * (a * dt) * dt;
    }
  }

  /** Moving at the limit, and pushed further into it, the joint keeps the limit's speed. */
  lemma AtLimit(u: real, a: real, vmax: real, dt: real)
    requires 0.0 <= vmax && 0.0 <= dt
    requires (a > 0.0 && u == vmax) || (a < 0.0 && u == -vmax)
    ensures Displacement(u, a, vmax, dt) == u * dt
  {
    hide MeanVelocity;
    SameSign(a, dt, dt);
    MeanAtLimit(u, u + a * dt, vmax);
  }

  lemma MeanAtLimit(u: real, y: real, vmax: real)
    requires 0.0 <= vmax && (y >= u == vmax || y <= u == -vmax)
    ensures MeanVelocity(u, y, vmax) == u
  {
    MeanSymmetric(u, y, vmax);
    hide MeanVelocity;
    if y >= u { MeanBetween(u, y, vmax); }
    if y <= u { MeanBetween(y, u, vmax); }
  }

  lemma LimitReached(u: real, a: real, vmax: real, dt: real, time: real)
    requires -vmax <= u <= vmax && 0.0 < time < dt && a != 0.0
    requires time * a == (if a > 0.0 then vmax else -vmax) - u
    ensures Displacement(u, a, vmax, dt) ==
            u * time + 0.5 * a * time * time + (if a > 0.0 then vmax else -vmax) * (dt - time)
  {
    hide Displacement;
    var limit := if a > 0.0 then vmax else -vmax;
    assert FinalVelocity(u, a, vmax, time) == limit;
    SplitMotion(u, a, vmax, time, dt - time);
    Unsaturated(u, a, vmax, time);
    AtLimit(limit, a, vmax, dt - time);
  }

  lemma LimitNotReached(u: real, a: real, vmax: real, dt: real, time: real)
    requires -vmax <= u <= vmax && dt > 0.0 && a != 0.0
    requires time * a == (if a > 0.0 then vmax else -vmax) - u
    requires (a > 0.0 && u < vmax) || (a < 0.0 && u > -vmax)
    requires !(time > 0.0 && time < dt &&
               ((a > 0.0 && u + a * dt > vmax) || (a < 0.0 && u + a * dt < -vmax)))
    ensures -vmax <= u + a * dt <= vmax
  {
    SameSign(a, dt, dt);
    if a > 0.0 {
      assert time > 0.0;
      if time >= dt { Products(dt, time, a); }
    } else {
      assert time > 0.0;
      if time >= dt { Products(dt, time, -a); }
    }
  }

  /** The simulator's computation of the velocity and the distance of one step, branch by branch. */
  method Travel(u: real, a: real, vmax: real, dt: real) returns (finalVelocity: real, displacement: real)
    requires -vmax <= u <= vmax && dt > 0.0
    ensures finalVelocity == FinalVelocity(u, a, vmax, dt)
    ensures displacement == Displacement(u, a, vmax, dt)
  {
    hide Displacement;
    var unconstrainedVelocity := u + a * dt;
    finalVelocity := Clamp(unconstrainedVelocity, -vmax, vmax);
    displacement := 0.0;
    if dt > 0.0 && a != 0.0 {
      var targetVelocity := if a > 0.0 then vmax else -vmax;
      var alreadyAtVelocityLimit := (a > 0.0 && u >= vmax) || (a < 0.0 && u <= -vmax);
      if alreadyAtVelocityLimit {
        displacement := targetVelocity * dt;
        AtLimit(u, a, vmax, dt);
      } else {
        var timeToLimit := (targetVelocity - u) / a;
        assert timeToLimit * a == targetVelocity - u;
        var reachesLimitDuringStep :=
          timeToLimit > 0.0 && timeToLimit < dt &&
          ((a > 0.0 && unconstrainedVelocity > vmax) || (a < 0.0 && unconstrainedVelocity < -vmax));
        if reachesLimitDuringStep {
          var acceleratingDistance := u * timeToLimit + 0.5 * a * timeToLimit * timeToLimit;
          var remainingTime := dt - timeToLimit;
          var constantSpeedDistance := targetVelocity * remainingTime;
          displacement := acceleratingDistance + constantSpeedDistance;
          LimitReached(u, a, vmax, dt, timeToLimit);
        } else {
          displacement := u * dt + 0.5 * a * dt * dt;
          LimitNotReached(u, a, vmax, dt, timeToLimit);
          Unsaturated(u, a, vmax, dt);
        }
      }
    } else {
      displacement := finalVelocity * dt;
      Coast(u, vmax, dt);
    }
  }
}
