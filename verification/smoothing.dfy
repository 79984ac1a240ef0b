/** The smoothing law the camera uses to chase its zoom and rotation
    targets: a lerp toward the target, clamped so it never overshoots, that
    snaps onto the target once it is close enough. */
module Smoothing {
  import opened Geometry

  /** MathHelper.Lerp. */
  function Lerp(a: real, b: real, t: real): real {
    a + (b - a) * t
  }

  /** MathHelper.Clamp: the upper bound is applied first, then the lower. */
  function Clamp(value: real, min: real, max: real): (r: real)
    ensures min <= max ==> min <= r <= max
    ensures min <= value <= max ==> r == value
    ensures r == value || r == min || r == max
    ensures value > max && min <= max ==> r == max
    ensures value < min ==> r == min
  {
    var capped := if value > max then max else value;
    if capped < min then min else capped
  }

  /** True when x lies in the closed interval between p and q, in either order. */
  predicate Between(x: real, p: real, q: real) {
    Min(p, q) <= x <= Max(p, q)
  }

  /** One smoothing step from `from` toward `target`. */
  function Interpolate(from: real, target: real, speed: real, snapNear: real): (r: real)
    ensures Between(r, from, target)
    ensures Abs(target - r) <= Abs(target - from)
    ensures from == target ==> r == target
    ensures Abs(target - from) < snapNear ==> r == target
    ensures r != target ==> Abs(target - r) >= snapNear
    ensures 0.0 <= speed <= 1.0 && r != target ==> target - r == (1.0 - speed) * (target - from)
    ensures 0.0 <= speed <= 1.0 && Abs((1.0 - speed) * (target - from)) >= snapNear ==> r == Lerp(from, target, speed)
  {
    var result := Lerp(from, target, speed);
    LerpBetween(from, target, speed);
    var clamped := if from < target then Clamp(result, from, target) else Clamp(result, target, from);
    if Abs(target - clamped) < snapNear then target else clamped
  }

  /** A lerp with a factor in [0, 1] stays between its ends and leaves the
      fraction 1 - t of the distance still to go. */
  lemma LerpBetween(a: real, b: real, t: real)
    ensures 0.0 <= t <= 1.0 ==> Between(Lerp(a, b, t), a, b)
    ensures b - Lerp(a, b, t) == (1.0 - t) * (b - a)
  {
    assert (b - a) * t == t * (b - a);
    if 0.0 <= t <= 1.0 {
      BetweenEndpoints(a, b, t);
    }
  }

  /** A speed of one or more lands on the target in a single step. */
  lemma FastStepLands(from: real, target: real, speed: real, snapNear: real)
    requires speed >= 1.0
    ensures Interpolate(from, target, speed, snapNear) == target
  {
    if from < target {
      MulNonneg(target - from, speed - 1.0);
      assert Lerp(from, target, speed) >= target;
    } else if from > target {
      MulNonneg(from - target, speed - 1.0);
      assert Lerp(from, target, speed) <= target;
    }
  }

  /** Each step that does not land on the target closes the distance by at
      least speed * snapNear. */
  lemma InterpolateProgress(from: real, target: real, speed: real, snapNear: real)
    requires 0.0 < speed
    ensures var r := Interpolate(from, target, speed, snapNear);
      r != target ==> Abs(target - r) <= Abs(target - from) - speed * snapNear
  {
    var r := Interpolate(from, target, speed, snapNear);
    if speed >= 1.0 {
      FastStepLands(from, target, speed, snapNear);
    } else if r != target {
      var d := Abs(target - from);
      var e := Abs(target - r);
      assert target - r == (1.0 - speed) * (target - from);
      if target - from >= 0.0 {
        MulNonneg(1.0 - speed, target - from);
      } else {
        MulNonneg(1.0 - speed, from - target);
      }
      assert e == (1.0 - speed) * d;
      assert d >= e >= snapNear;
      MulNonneg(speed, d - snapNear);
    }
  }

  /** n smoothing steps, one per tick. */
  function Chase(from: real, target: real, speed: real, snapNear: real, n: nat): real
    decreases n
  {
    if n == 0 then from else Chase(Interpolate(from, target, speed, snapNear), target, speed, snapNear, n - 1)
  }

  /** Convergence: with a positive speed and snap distance the chase reaches
      the target exactly after n ticks once n * speed * snapNear covers the
      starting distance, and stays there. */
  lemma {:induction false} ChaseReaches(from: real, target: real, speed: real, snapNear: real, n: nat)
    requires 0.0 < speed && 0.0 < snapNear
    requires Abs(target - from) <= (n as real) * speed * snapNear
    ensures Chase(from, target, speed, snapNear, n) == target
    decreases n
  {
    if n > 0 {
      var next := Interpolate(from, target, speed, snapNear);
      InterpolateProgress(from, target, speed, snapNear);
      assert Abs(target - next) <= ((n - 1) as real) * speed * snapNear by {
        if next != target {
          assert ((n - 1) as real) * speed * snapNear == (n as real) * speed * snapNear - speed * snapNear;
        } else {
          assert 0.0 <= ((n - 1) as real) * (speed * snapNear);
        }
      }
      ChaseReaches(next, target, speed, snapNear, n - 1);
    }
  }

  /** Every point of a chase lies between its start and the target. */
  lemma {:induction false} ChaseStaysBetween(from: real, target: real, speed: real, snapNear: real, n: nat)
    ensures Between(Chase(from, target, speed, snapNear, n), from, target)
    decreases n
  {
    if n > 0 {
      var next := Interpolate(from, target, speed, snapNear);
      ChaseStaysBetween(next, target, speed, snapNear, n - 1);
    }
  }
}
