/** The shapes around the robot: Polygon and its subclass Circle. */
module Zones {
  import opened Counting
  import opened Kinematics
  import opened Plane
  import opened RayCrossing
  import opened Wrappers

  datatype ActionType = DoNothing | Stop | Slowdown | Approach

  /** The vertices of a Polygon, or the radius of a Circle. */
  datatype Shape = Vertices(poly: seq<Point>) | Disc(radius: real)

  /** The simulation of an APPROACH shape ends. */
  predicate SimulationEnds(action: ActionType, timeBeforeCollision: real, simulationTimeStep: real) {
    action.Approach? ==> timeBeforeCollision < 0.0 || simulationTimeStep > 0.0
  }

  /** The configuration and current outline of one shape. */
  datatype Zone = Zone(
    enabled: bool, action: ActionType, maxPoints: int, slowdownRatio: real,
    timeBeforeCollision: real, simulationTimeStep: real, shape: Shape)
  {
    predicate Runnable() { SimulationEnds(action, timeBeforeCollision, simulationTimeStep) }
  }

  predicate Covers(shape: Shape, p: Point) {
    match shape
    case Vertices(poly) => Inside(poly, p)
    case Disc(radius) => LengthSq(p.x, p.y) < Times(radius, radius)
  }

  function CoveredBy(shape: Shape): Point -> bool { p => Covers(shape, p) }

  /** Whether the shape, carried along with the robot to pose, covers an obstacle. */
  function CoveredFrom(trig: Trig, shape: Shape, pose: Pose): Point -> bool {
    p => Covers(shape, ToFrame(trig, pose, p))
  }

  // ---- What getCollisionTime decides ----

  predicate StaticHit(z: Zone, points: seq<Point>) {
    CountIf(points, CoveredBy(z.shape)) >= z.maxPoints
  }

  function StepTime(z: Zone, k: nat): real { Times(k as real, z.simulationTimeStep) }

  /** More than maxPoints obstacles are covered after k + 1 projections. */
  predicate Collides(trig: Trig, z: Zone, points: seq<Point>, vel: Velocity, k: nat) {
    CountIf(points, CoveredFrom(trig, z.shape, After(trig, z.simulationTimeStep, vel, k + 1).pose)) > z.maxPoints
  }

  predicate StepHit(trig: Trig, z: Zone, points: seq<Point>, vel: Velocity, k: nat) {
    0.0 <= StepTime(z, k) <= z.timeBeforeCollision && Collides(trig, z, points, vel, k)
  }

  ghost predicate FirstHit(trig: Trig, z: Zone, points: seq<Point>, vel: Velocity, k: nat) {
    StepHit(trig, z, points, vel, k) && forall j: nat :: j < k ==> !StepHit(trig, z, points, vel, j)
  }

  /** Zero on a static hit, the time of the first simulated hit otherwise, and -1 without any. */
  ghost predicate IsCollisionTime(trig: Trig, z: Zone, points: seq<Point>, vel: Velocity, t: real) {
    if StaticHit(z, points) then t == 0.0
    else (exists k: nat :: FirstHit(trig, z, points, vel, k) && t == StepTime(z, k))
         || (t == -1.0 && forall k: nat :: !StepHit(trig, z, points, vel, k))
  }

  lemma {:induction false} FirstHitExists(trig: Trig, z: Zone, points: seq<Point>, vel: Velocity, k: nat)
    requires StepHit(trig, z, points, vel, k)
    ensures exists j: nat :: j <= k && FirstHit(trig, z, points, vel, j)
  {
    if j: nat :| j < k && StepHit(trig, z, points, vel, j) {
      FirstHitExists(trig, z, points, vel, j);
    } else {
      assert FirstHit(trig, z, points, vel, k);
    }
  }

  lemma CollisionTimeExists(trig: Trig, z: Zone, points: seq<Point>, vel: Velocity)
    ensures exists t :: IsCollisionTime(trig, z, points, vel, t)
  {
    if StaticHit(z, points) {
      assert IsCollisionTime(trig, z, points, vel, 0.0);
    } else if k: nat :| StepHit(trig, z, points, vel, k) {
      FirstHitExists(trig, z, points, vel, k);
      var j: nat :| FirstHit(trig, z, points, vel, j);
      assert IsCollisionTime(trig, z, points, vel, StepTime(z, j));
    } else {
      assert IsCollisionTime(trig, z, points, vel, -1.0);
    }
  }

  /** The time is determined: two first hits are the same step. */
  lemma CollisionTimeUnique(trig: Trig, z: Zone, points: seq<Point>, vel: Velocity, t: real, u: real)
    requires IsCollisionTime(trig, z, points, vel, t) && IsCollisionTime(trig, z, points, vel, u)
    ensures t == u
  {
    if !StaticHit(z, points) && exists k: nat :: StepHit(trig, z, points, vel, k) {
      var k: nat :| FirstHit(trig, z, points, vel, k) && t == StepTime(z, k);
      var j: nat :| FirstHit(trig, z, points, vel, j) && u == StepTime(z, j);
      assert j == k;
    }
  }

  ghost function CollisionTime(trig: Trig, z: Zone, points: seq<Point>, vel: Velocity): (t: real)
    ensures IsCollisionTime(trig, z, points, vel, t)
  {
    CollisionTimeExists(trig, z, points, vel);
    var t :| IsCollisionTime(trig, z, points, vel, t);
    t
  }

  // ---- More obstacles are never seen later ----

  lemma CollidesMonotone(trig: Trig, z: Zone, points: seq<Point>, more: seq<Point>, vel: Velocity)
    requires multiset(points) <= multiset(more)
    ensures StaticHit(z, points) ==> StaticHit(z, more)
    ensures forall k: nat :: StepHit(trig, z, points, vel, k) ==> StepHit(trig, z, more, vel, k)
  {
    CountIfMonotone(points, more, CoveredBy(z.shape));
    forall k: nat ensures StepHit(trig, z, points, vel, k) ==> StepHit(trig, z, more, vel, k) {
      CountIfMonotone(points, more, CoveredFrom(trig, z.shape, After(trig, z.simulationTimeStep, vel, k + 1).pose));
    }
  }

  /** Read -1 as "never": obstacles that are added can only bring the collision forward. */
  lemma CollisionTimeMonotone(trig: Trig, z: Zone, points: seq<Point>, more: seq<Point>, vel: Velocity)
    requires multiset(points) <= multiset(more)
    requires z.timeBeforeCollision < 0.0 || z.simulationTimeStep > 0.0
    ensures CollisionTime(trig, z, points, vel) >= 0.0
            ==> 0.0 <= CollisionTime(trig, z, more, vel) <= CollisionTime(trig, z, points, vel)
  {
    hide CountIf, Covers, StepTime, Collides;
    CollidesMonotone(trig, z, points, more, vel);
    CollisionTimeRange(trig, z, points, vel);
    CollisionTimeRange(trig, z, more, vel);
    var t := CollisionTime(trig, z, points, vel);
    if t >= 0.0 && !StaticHit(z, more) {
      var k: nat :| FirstHit(trig, z, points, vel, k) && t == StepTime(z, k);
      assert StepHit(trig, z, more, vel, k);
      var j: nat :| FirstHit(trig, z, more, vel, j) && CollisionTime(trig, z, more, vel) == StepTime(z, j);
      assert j <= k;
      StepTimeOrder(z, 0, k);
      StepTimeOrder(z, j, k);
      StepTimeOrder(z, 0, j);
    }
  }

  lemma StepTimeOrder(z: Zone, j: nat, k: nat)
    requires j <= k
    ensures z.simulationTimeStep >= 0.0 ==> StepTime(z, j) <= StepTime(z, k)
    ensures StepTime(z, 0) == 0.0
  {
    if z.simulationTimeStep >= 0.0 {
      ScaleBound(j as real, k as real, z.simulationTimeStep);
    }
  }

  /** A collision time is -1 or lies between zero and the horizon. */
  lemma CollisionTimeRange(trig: Trig, z: Zone, points: seq<Point>, vel: Velocity)
    requires z.timeBeforeCollision < 0.0 || z.simulationTimeStep > 0.0
    ensures var t := CollisionTime(trig, z, points, vel);
      t == -1.0 || t == 0.0 || 0.0 <= t <= z.timeBeforeCollision
  {
    var t := CollisionTime(trig, z, points, vel);
    if !StaticHit(z, points) && t != -1.0 {
      var k: nat :| FirstHit(trig, z, points, vel, k) && t == StepTime(z, k);
      StepTimeOrder(z, 0, k);
    }
  }

  // ---- The objects ----

  class Polygon {
    const actionType: ActionType
    const maxPoints: int
    const slowdownRatio: real
    const timeBeforeCollision: real
    const simulationTimeStep: real
    var enabled: bool
    var shape: Shape
    /** What the footprint subscriber currently delivers; None without a subscription. */
    var footprint: Option<seq<Point>>

    constructor (enabled: bool, actionType: ActionType, maxPoints: int, slowdownRatio: real,
                 timeBeforeCollision: real, simulationTimeStep: real, shape: Shape, footprint: Option<seq<Point>>)
      ensures Value() == Zone(enabled, actionType, maxPoints, slowdownRatio, timeBeforeCollision, simulationTimeStep, shape)
      ensures this.footprint == footprint
    {
      this.enabled, this.actionType, this.maxPoints := enabled, actionType, maxPoints;
      this.slowdownRatio, this.timeBeforeCollision := slowdownRatio, timeBeforeCollision;
      this.simulationTimeStep, this.shape, this.footprint := simulationTimeStep, shape, footprint;
    }

    function Value(): Zone
      reads this
    {
      Zone(enabled, actionType, maxPoints, slowdownRatio, timeBeforeCollision, simulationTimeStep, shape)
    }

    predicate Runnable() { SimulationEnds(actionType, timeBeforeCollision, simulationTimeStep) }

    /** The zone as the APPROACH branch sees it, after updatePolygon. */
    function Refreshed(): Zone
      reads this
    {
      if actionType.Approach? && footprint.Some? then Value().(shape := Vertices(footprint.value)) else Value()
    }

    method UpdatePolygon()
      modifies this`shape
      ensures shape == if footprint.Some? then Vertices(footprint.value) else old(shape)
    {
      if footprint.Some? {
        shape := Vertices(footprint.value);
      }
    }

    method GetPointsInside(points: seq<Point>) returns (num: int)
      ensures num == CountIf(points, CoveredBy(shape))
    {
      num := 0;
      for i := 0 to |points|
        invariant num == CountIf(points[..i], CoveredBy(shape))
      {
        CountIfSnoc(points, i, CoveredBy(shape));
        var inside: bool;
        match shape {
          case Vertices(poly) =>
            inside := IsPointInside(poly, points[i]);
          case Disc(radius) =>
            inside := LengthSq(points[i].x, points[i].y) < Times(radius, radius);
        }
        if inside {
          num := num + 1;
        }
      }
      assert points[..|points|] == points;
    }

    /** A fresh copy of the points, moved to the frame at pose, and counted. */
    method CountFrom(trig: Trig, collisionPoints: seq<Point>, pose: Pose) returns (num: int)
      ensures num == CountIf(collisionPoints, CoveredFrom(trig, shape, pose))
    {
      var transformed := new Point[|collisionPoints|](i requires 0 <= i < |collisionPoints| => collisionPoints[i]);
      assert transformed[..] == collisionPoints;
      TransformPoints(trig, pose, transformed);
      num := GetPointsInside(transformed[..]);
      CountIfMapped(collisionPoints, transformed[..], CoveredFrom(trig, shape, pose), CoveredBy(shape));
    }

    method GetCollisionTime(trig: Trig, collisionPoints: seq<Point>, velocity: Velocity) returns (t: real)
      requires timeBeforeCollision < 0.0 || simulationTimeStep > 0.0
      ensures IsCollisionTime(trig, Value(), collisionPoints, velocity, t)
    {
      hide CountIf, Covers, Projected, StepTime, StepsLeft;
      var pose, vel := Pose(0.0, 0.0, 0.0), velocity;
      var count := GetPointsInside(collisionPoints);
      if count >= maxPoints {
        return 0.0;
      }
      ghost var z := Value();
      var time := 0.0;
      ghost var k: nat := 0;
      StepTimeOrder(z, 0, 0);
      while time <= timeBeforeCollision
        invariant time == StepTime(z, k)
        invariant Motion(pose, vel) == After(trig, simulationTimeStep, velocity, k)
        invariant forall j: nat :: j < k ==> !StepHit(trig, z, collisionPoints, velocity, j)
        invariant 0.0 <= time
        decreases if simulationTimeStep > 0.0 then StepsLeft(z, timeBeforeCollision - time) else 0.0
      {
        assert simulationTimeStep > 0.0;
        pose, vel := ProjectState(trig, simulationTimeStep, pose, vel);
        count := CountFrom(trig, collisionPoints, pose);
        if count > maxPoints {
          assert FirstHit(trig, z, collisionPoints, velocity, k);
          return time;
        }
        NextStep(z, k, timeBeforeCollision - time);
        time := time + simulationTimeStep;
        k := k + 1;
      }
      forall j: nat ensures !StepHit(trig, z, collisionPoints, velocity, j) {
        if j >= k && timeBeforeCollision >= 0.0 {
          StepTimeOrder(z, k, j);
        }
      }
      return -1.0;
    }
  }

  /** The part of the horizon that is left, in steps: it falls by one in each iteration. */
  function StepsLeft(z: Zone, remaining: real): real
    requires z.simulationTimeStep > 0.0
  {
    remaining / z.simulationTimeStep
  }

  lemma NextStep(z: Zone, k: nat, remaining: real)
    requires z.simulationTimeStep > 0.0
    ensures StepTime(z, k + 1) == StepTime(z, k) + z.simulationTimeStep
    ensures StepsLeft(z, remaining - z.simulationTimeStep) == StepsLeft(z, remaining) - 1.0
    ensures remaining >= 0.0 ==> StepsLeft(z, remaining) >= 0.0
  {
    var d := z.simulationTimeStep;
    OneMore(k + 1, d);
    var q := remaining / d;
    assert q * d == remaining;
    QuotientUnique(q - 1.0, remaining - d, d);
  }
}
