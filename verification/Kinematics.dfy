/** The robot motion of the collision monitor's simulation. Cosine and sine are a pair of functions of
    which only the Pythagorean identity is used. */
module Kinematics {
  import opened Plane

  datatype Trig = Trig(cos: real -> real, sin: real -> real) {
    ghost predicate Pythagorean() {
      forall a :: cos(a) * cos(a) + sin(a) * sin(a) == 1.0
    }

    predicate AtZero() { cos(0.0) == 1.0 && sin(0.0) == 0.0 }

    /** The addition formulas. */
    ghost predicate Additive() {
      forall a, b :: cos(a + b) == cos(a) * cos(b) - sin(a) * sin(b) && sin(a + b) == cos(a) * sin(b) + sin(a) * cos(b)
    }
  }

  datatype Velocity = Velocity(x: real, y: real, tw: real) {
    /** The squared magnitude that operator< compares, turning in place included. */
    function NormSq(): real { Sq(x) + Sq(y) + Sq(tw) }

    predicate Less(second: Velocity) { NormSq() < second.NormSq() }

    function Scaled(mul: real): Velocity { Velocity(Times(x, mul), Times(y, mul), Times(tw, mul)) }

    predicate IsZero() { x == 0.0 && y == 0.0 && tw == 0.0 }
  }

  datatype Pose = Pose(x: real, y: real, theta: real)

  /** What projectState updates: the simulated pose and velocity. */
  datatype Motion = Motion(pose: Pose, vel: Velocity)

  function Turned(trig: Trig, angle: real, v: Velocity): Velocity {
    Velocity(TurnX(v.x, v.y, trig.cos(angle), trig.sin(angle)), TurnY(v.x, v.y, trig.cos(angle), trig.sin(angle)), v.tw)
  }

  function Projected(trig: Trig, dt: real, m: Motion): Motion {
    Motion(Pose(m.pose.x + Times(m.vel.x, dt), m.pose.y + Times(m.vel.y, dt), m.pose.theta + Times(m.vel.tw, dt)),
           Turned(trig, Times(m.vel.tw, dt), m.vel))
  }

  /** The simulated motion after n steps from the robot's own frame. */
  function After(trig: Trig, dt: real, vel: Velocity, n: nat): Motion {
    if n == 0 then Motion(Pose(0.0, 0.0, 0.0), vel) else Projected(trig, dt, After(trig, dt, vel, n - 1))
  }

  /** A point of the initial frame, in the coordinates of the frame at pose. */
  function ToFrame(trig: Trig, pose: Pose, p: Point): Point {
    var c, s := trig.cos(pose.theta), trig.sin(pose.theta);
    Point(BackX(p.x - pose.x, p.y - pose.y, c, s), BackY(p.x - pose.x, p.y - pose.y, c, s))
  }

  /** p = R p' + pose. */
  function FromFrame(trig: Trig, pose: Pose, p: Point): Point {
    var c, s := trig.cos(pose.theta), trig.sin(pose.theta);
    Point(TurnX(p.x, p.y, c, s) + pose.x, TurnY(p.x, p.y, c, s) + pose.y)
  }

  function AllToFrame(trig: Trig, pose: Pose, points: seq<Point>): seq<Point> {
    seq(|points|, k requires 0 <= k < |points| => ToFrame(trig, pose, points[k]))
  }

  method ProjectState(trig: Trig, dt: real, pose: Pose, velocity: Velocity) returns (pose': Pose, velocity': Velocity)
    ensures Motion(pose', velocity') == Projected(trig, dt, Motion(pose, velocity))
  {
    pose', velocity' := pose, velocity;
    var theta := Times(velocity.tw, dt);
    var cosTheta, sinTheta := trig.cos(theta), trig.sin(theta);
    pose' := pose'.(x := pose'.x + Times(velocity'.x, dt));
    pose' := pose'.(y := pose'.y + Times(velocity'.y, dt));
    pose' := pose'.(theta := pose'.theta + theta);
    var updX := TurnX(velocity'.x, velocity'.y, cosTheta, sinTheta);
    var updY := TurnY(velocity'.x, velocity'.y, cosTheta, sinTheta);
    velocity' := velocity'.(x := updX, y := updY);
  }

  method TransformPoints(trig: Trig, pose: Pose, points: array<Point>)
    modifies points
    ensures points[..] == AllToFrame(trig, pose, old(points[..]))
  {
    var cosTheta, sinTheta := trig.cos(pose.theta), trig.sin(pose.theta);
    for i := 0 to points.Length
      invariant forall k :: 0 <= k < i ==> points[k] == ToFrame(trig, pose, old(points[k]))
      invariant forall k :: i <= k < points.Length ==> points[k] == old(points[k])
    {
      var mulX, mulY := points[i].x - pose.x, points[i].y - pose.y;
      points[i] := Point(BackX(mulX, mulY, cosTheta, sinTheta), BackY(mulX, mulY, cosTheta, sinTheta));
    }
  }

  // ---- The change of frame is rigid and undone by p = R p' + pose ----

  function DistSq(p: Point, q: Point): real { LengthSq(p.x - q.x, p.y - q.y) }

  lemma BackIsLinear(x: real, y: real, u: real, v: real, c: real, s: real)
    ensures BackX(x, y, c, s) - BackX(u, v, c, s) == BackX(x - u, y - v, c, s)
    ensures BackY(x, y, c, s) - BackY(u, v, c, s) == BackY(x - u, y - v, c, s)
  {
  }

  /** transformPoints keeps every pairwise distance. */
  lemma FrameKeepsDistances(trig: Trig, pose: Pose, p: Point, q: Point)
    requires trig.Pythagorean()
    ensures DistSq(ToFrame(trig, pose, p), ToFrame(trig, pose, q)) == DistSq(p, q)
  {
    var c, s := trig.cos(pose.theta), trig.sin(pose.theta);
    BackIsLinear(p.x - pose.x, p.y - pose.y, q.x - pose.x, q.y - pose.y, c, s);
    assert (p.x - pose.x) - (q.x - pose.x) == p.x - q.x && (p.y - pose.y) - (q.y - pose.y) == p.y - q.y;
    TurnKeepsLength(p.x - q.x, p.y - q.y, c, s);
  }

  lemma FrameRoundTrip(trig: Trig, pose: Pose, p: Point)
    requires trig.Pythagorean()
    ensures FromFrame(trig, pose, ToFrame(trig, pose, p)) == p
  {
    TurnUndone(p.x - pose.x, p.y - pose.y, trig.cos(pose.theta), trig.sin(pose.theta));
  }

  /** The point d ahead and l to the left of a robot at the pose has the coordinates (d, l) in its frame. */
  lemma SeenFromPose(trig: Trig, pose: Pose, d: real, l: real)
    requires trig.Pythagorean()
    ensures var c, s := trig.cos(pose.theta), trig.sin(pose.theta);
      ToFrame(trig, pose, Point(pose.x + (d * c - l * s), pose.y + (d * s + l * c))) == Point(d, l)
  {
    var c, s := trig.cos(pose.theta), trig.sin(pose.theta);
    TurnUndone(d, l, c, s);
    assert TurnX(d, l, c, s) == d * c - l * s && TurnY(d, l, c, s) == d * s + l * c;
  }

  // ---- Where the simulated robot goes ----

  /** A velocity without turning is kept, and moves the robot along itself. */
  lemma {:induction false} StraightMotion(trig: Trig, dt: real, vel: Velocity, n: nat)
    requires trig.AtZero() && vel.tw == 0.0
    ensures After(trig, dt, vel, n).vel == vel
    ensures After(trig, dt, vel, n).pose == Pose(Times(n as real, Times(vel.x, dt)), Times(n as real, Times(vel.y, dt)), 0.0)
  {
    if n > 0 {
      StraightMotion(trig, dt, vel, n - 1);
      OneMore(n, Times(vel.x, dt));
      OneMore(n, Times(vel.y, dt));
      TimesUnit(dt);
      TurnByUnit(vel.x, vel.y);
      hide TurnX, TurnY;
    }
  }

  lemma {:induction false} VelocityFollowsHeading(trig: Trig, dt: real, vel: Velocity, n: nat)
    requires trig.AtZero() && trig.Additive()
    ensures After(trig, dt, vel, n).vel == Turned(trig, After(trig, dt, vel, n).pose.theta, vel)
  {
    hide Turned, Times, Trig.Additive;
    if n == 0 {
      TurnedByZero(trig, vel);
    } else {
      VelocityFollowsHeading(trig, dt, vel, n - 1);
      var m := After(trig, dt, vel, n - 1);
      TurnedTwice(trig, m.pose.theta, Times(m.vel.tw, dt), vel);
    }
  }

  lemma TurnedByZero(trig: Trig, v: Velocity)
    requires trig.AtZero()
    ensures Turned(trig, 0.0, v) == v
  {
    TurnByUnit(v.x, v.y);
  }

  lemma TurnedTwice(trig: Trig, a: real, b: real, v: Velocity)
    requires trig.Additive()
    ensures Turned(trig, b, Turned(trig, a, v)) == Turned(trig, a + b, v)
  {
    TurnOfSum(trig, a, b);
    TurnTurn(v.x, v.y, trig.cos(a), trig.sin(a), trig.cos(b), trig.sin(b));
    hide TurnX, TurnY, Trig.Additive;
  }

  /** At every step the velocity is the commanded one turned by the simulated heading, and the next step
      moves the robot by dt times that velocity. */
  lemma MotionFollowsHeading(trig: Trig, dt: real, vel: Velocity, n: nat)
    requires trig.AtZero() && trig.Additive()
    ensures var m, next := After(trig, dt, vel, n), After(trig, dt, vel, n + 1);
      var c, s := trig.cos(m.pose.theta), trig.sin(m.pose.theta);
      && m.vel == Velocity(TurnX(vel.x, vel.y, c, s), TurnY(vel.x, vel.y, c, s), vel.tw)
      && next.pose.x - m.pose.x == Times(TurnX(vel.x, vel.y, c, s), dt)
      && next.pose.y - m.pose.y == Times(TurnY(vel.x, vel.y, c, s), dt)
  {
    hide Times, TurnX, TurnY, Trig.Additive;
    VelocityFollowsHeading(trig, dt, vel, n);
  }

  lemma TurnOfSum(trig: Trig, a: real, b: real)
    requires trig.Additive()
    ensures TurnX(trig.cos(a), trig.sin(a), trig.cos(b), trig.sin(b)) == trig.cos(a + b)
    ensures TurnY(trig.cos(a), trig.sin(a), trig.cos(b), trig.sin(b)) == trig.sin(a + b)
  {
  }

  // ---- What every simulation step keeps ----

  lemma {:induction false} SpeedConserved(trig: Trig, dt: real, vel: Velocity, n: nat)
    requires trig.Pythagorean()
    ensures var v := After(trig, dt, vel, n).vel; LengthSq(v.x, v.y) == LengthSq(vel.x, vel.y)
  {
    if n > 0 {
      SpeedConserved(trig, dt, vel, n - 1);
      var v := After(trig, dt, vel, n - 1).vel;
      TurnKeepsLength(v.x, v.y, trig.cos(Times(v.tw, dt)), trig.sin(Times(v.tw, dt)));
    }
  }

  lemma OneMore(n: nat, a: real)
    requires n > 0
    ensures n as real * a == (n - 1) as real * a + a
  {
    assert n as real == (n - 1) as real + 1.0;
  }

  /** The turn rate is constant, so the simulated heading is n * tw * dt. */
  lemma {:induction false} HeadingIsLinear(trig: Trig, dt: real, vel: Velocity, n: nat)
    ensures After(trig, dt, vel, n).vel.tw == vel.tw
    ensures After(trig, dt, vel, n).pose.theta == n as real * Times(vel.tw, dt)
  {
    if n > 0 {
      HeadingIsLinear(trig, dt, vel, n - 1);
      OneMore(n, Times(vel.tw, dt));
    }
  }

  lemma StepLength(vx: real, vy: real, dt: real, speed: real)
    requires LengthSq(vx, vy) == speed * speed
    ensures LengthSq(Times(vx, dt), Times(vy, dt)) == Times(dt, speed) * Times(dt, speed)
  {
    assert (vx * dt) * (vx * dt) + (vy * dt) * (vy * dt) == (vx * vx + vy * vy) * (dt * dt);
    assert (dt * speed) * (dt * speed) == (speed * speed) * (dt * dt);
  }

  /** Whether a displacement is no longer than r. */
  predicate Within(x: real, y: real, r: real) { LengthSq(x, y) <= r * r }

  /** After n steps the simulated robot is within n * dt * speed of its start. */
  lemma {:induction false} DisplacementBound(trig: Trig, dt: real, vel: Velocity, n: nat, speed: real)
    requires trig.Pythagorean() && dt >= 0.0
    requires speed >= 0.0 && speed * speed == LengthSq(vel.x, vel.y)
    ensures Within(After(trig, dt, vel, n).pose.x, After(trig, dt, vel, n).pose.y, n as real * Times(dt, speed))
  {
    if n > 0 {
      DisplacementBound(trig, dt, vel, n - 1, speed);
      SpeedConserved(trig, dt, vel, n - 1);
      var m, l := After(trig, dt, vel, n - 1), Times(dt, speed);
      StepLength(m.vel.x, m.vel.y, dt, speed);
      NonNegativeProduct(dt, speed);
      WithinNext(m.pose.x, m.pose.y, Times(m.vel.x, dt), Times(m.vel.y, dt), n, l);
    }
  }

  lemma WithinNext(x: real, y: real, u: real, v: real, n: nat, l: real)
    requires n > 0 && l >= 0.0
    requires Within(x, y, (n - 1) as real * l) && LengthSq(u, v) == l * l
    ensures Within(x + u, y + v, n as real * l)
  {
    NonNegativeProduct((n - 1) as real, l);
    OneMore(n, l);
    Triangle(x, y, u, v, (n - 1) as real * l, l);
  }
}
