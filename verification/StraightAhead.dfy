/** Collision times where they can be read off the distance: a robot that stands, and a robot that drives
    straight at obstacles. */
module StraightAhead {
  import opened ConvexPolygons
  import opened Counting
  import opened Kinematics
  import opened Paths
  import opened Plane
  import opened RayCrossing
  import opened Reals
  import opened SafeVelocity
  import opened Zones

  // ---- What the shapes cover ----

  /** A circle covers a point exactly when the point's distance d is less than the radius. */
  lemma DiscCovers(radius: real, p: Point, d: real)
    requires radius >= 0.0 && d >= 0.0 && d * d == p.x * p.x + p.y * p.y
    ensures Covers(Disc(radius), p) <==> d < radius
  {
    assert Sq(d) == LengthSq(p.x, p.y) && Sq(radius) == Times(radius, radius);
    hide Times, LengthSq;
    if d < radius {
      SquareOrder(d, radius);
    } else {
      SquareOrder(radius, d);
    }
  }

  function Square(a: real): seq<Point> {
    [Point(a, a), Point(-a, a), Point(-a, -a), Point(a, -a)]
  }

  /** The square outline of half side a, with its left and upper sides and without the others. */
  lemma SquareCovers(a: real, p: Point)
    requires a > 0.0
    ensures Covers(Vertices(Square(a)), p) <==> -a <= p.x < a && -a < p.y <= a
  {
    hide XInter, Orient, StrictlyConvex, Inside;
    var q := Square(a);
    SquareSides(a, p);
    SquareConvex(a);
    ConvexTestIsExact(q, p);
    assert CounterClockwise(q) == q;
    forall i | 0 <= i < 4
      ensures UpSide(q, i, p) <==> i == 3 && -a < p.y <= a && p.x < a
      ensures DownSide(q, i, p) <==> i == 1 && -a < p.y <= a && -a <= p.x
    {
    }
    if -a <= p.x < a && -a < p.y <= a {
      assert UpSide(q, 3, p) && DownSide(q, 1, p);
    }
  }

  lemma SquareSides(a: real, p: Point)
    requires a > 0.0
    ensures Orient(Point(a, -a), Point(a, a), p) > 0.0 <==> p.x < a
    ensures Orient(Point(-a, a), Point(-a, -a), p) >= 0.0 <==> -a <= p.x
  {
    SignOfTimes(a - p.x, 2.0 * a);
    SignOfTimes(p.x + a, 2.0 * a);
    assert Orient(Point(a, -a), Point(a, a), p) == Times(a - p.x, 2.0 * a);
    assert Orient(Point(-a, a), Point(-a, -a), p) == Times(p.x + a, 2.0 * a);
    hide Orient, Times;
  }

  /** Every corner lies at the same height over the two sides it is not part of. */
  lemma SquareCorners(a: real)
    ensures var m, n, o, p, w := Point(a, a), Point(-a, a), Point(-a, -a), Point(a, -a), Times(2.0 * a, 2.0 * a);
      && Orient(m, n, o) == w && Orient(m, n, p) == w && Orient(n, o, p) == w && Orient(n, o, m) == w
      && Orient(o, p, m) == w && Orient(o, p, n) == w && Orient(p, m, n) == w && Orient(p, m, o) == w
  {
  }

  lemma SquareConvex(a: real)
    requires a > 0.0
    ensures StrictlyConvex(Square(a))
  {
    SignOfTimes(2.0 * a, 2.0 * a);
    SquareCorners(a);
    hide Orient, Times;
    var q := Square(a);
    forall i, k | 0 <= i < 4 && 0 <= k < 4 && k != i && k != Next(i, 4) ensures Orient(q[i], q[Next(i, 4)], q[k]) > 0.0 {
      match i {
        case 0 => assert k == 2 || k == 3;
        case 1 => assert k == 3 || k == 0;
        case 2 => assert k == 0 || k == 1;
        case 3 => assert k == 1 || k == 2;
      }
    }
  }

  // ---- A robot that stands ----

  /** Exactly max_points covered points are enough at once and not in the simulation: a robot that stands
      has collision time 0 from max_points on and none below. */
  lemma StandingStill(trig: Trig, z: Zone, points: seq<Point>)
    requires trig.AtZero() && z.simulationTimeStep > 0.0
    ensures CollisionTime(trig, z, points, Velocity(0.0, 0.0, 0.0))
         == if CountIf(points, CoveredBy(z.shape)) >= z.maxPoints then 0.0 else -1.0
  {
    hide CountIf, Covers;
    var vel := Velocity(0.0, 0.0, 0.0);
    forall k: nat | CountIf(points, CoveredBy(z.shape)) < z.maxPoints ensures !Collides(trig, z, points, vel, k) {
      var f := CoveredFrom(trig, z.shape, After(trig, z.simulationTimeStep, vel, k + 1).pose);
      forall p | p in points ensures CoveredBy(z.shape)(p) == f(p) {
        StraightCovers(trig, z, vel, k, p);
        TimesUnit(z.simulationTimeStep);
      }
      CountIfSame(points, CoveredBy(z.shape), f);
    }
  }

  lemma {:induction false} CountIfSame<T>(s: seq<T>, f: T -> bool, g: T -> bool)
    requires forall x :: x in s ==> f(x) == g(x)
    ensures CountIf(s, f) == CountIf(s, g)
  {
    CountIfMapped(s, s, f, g);
  }

  /** After k + 1 steps of a straight motion an obstacle has come nearer by that many steps. */
  lemma StraightCovers(trig: Trig, z: Zone, vel: Velocity, k: nat, p: Point)
    requires trig.AtZero() && vel.tw == 0.0
    ensures CoveredFrom(trig, z.shape, After(trig, z.simulationTimeStep, vel, k + 1).pose)(p)
         == Covers(z.shape, Point(p.x - Times((k + 1) as real, Times(vel.x, z.simulationTimeStep)),
                                  p.y - Times((k + 1) as real, Times(vel.y, z.simulationTimeStep))))
  {
    hide Covers, After, Times;
    StraightMotion(trig, z.simulationTimeStep, vel, k + 1);
    var pose := After(trig, z.simulationTimeStep, vel, k + 1).pose;
    BackByUnit(p.x - pose.x, p.y - pose.y);
    hide BackX, BackY;
  }

  lemma BackByUnit(x: real, y: real)
    ensures BackX(x, y, 1.0, 0.0) == x && BackY(x, y, 1.0, 0.0) == y
  {
  }

  // ---- Obstacles straight ahead ----

  /** At the height of p the shape ends gap before p and is deep enough not to be jumped over: brought
      nearer by s the point is not covered up to s = gap, and is covered from there over the depth. */
  ghost predicate Ahead(shape: Shape, p: Point, gap: real, depth: real) {
    (forall s :: 0.0 <= s <= gap ==> !Covers(shape, Nearer(p, s))) &&
    (forall s :: gap < s < gap + depth ==> Covers(shape, Nearer(p, s)))
  }

  function Nearer(p: Point, s: real): Point { Point(p.x - s, p.y) }

  lemma SquareAhead(a: real, p: Point)
    requires a > 0.0 && p.x >= a && -a < p.y <= a
    ensures Ahead(Vertices(Square(a)), p, p.x - a, 2.0 * a)
  {
    hide Covers;
    forall s ensures Covers(Vertices(Square(a)), Nearer(p, s)) <==> -a <= p.x - s < a {
      SquareCovers(a, Nearer(p, s));
    }
  }

  lemma DiscAhead(radius: real, p: Point)
    requires radius > 0.0 && p.x >= radius && p.y == 0.0
    ensures Ahead(Disc(radius), p, p.x - radius, 2.0 * radius)
  {
    hide Covers;
    forall s ensures Covers(Disc(radius), Nearer(p, s)) <==> -radius < p.x - s < radius {
      var x := p.x - s;
      var d := if x < 0.0 then -x else x;
      assert d * d == x * x;
      DiscCovers(radius, Point(x, p.y), d);
    }
  }

  ghost predicate AllAhead(shape: Shape, points: seq<Point>, gap: real, depth: real) {
    forall p :: p in points ==> Ahead(shape, p, gap, depth)
  }

  lemma CountAhead(trig: Trig, z: Zone, points: seq<Point>, v: real, gap: real, depth: real, k: nat)
    requires trig.AtZero() && AllAhead(z.shape, points, gap, depth)
    ensures var s := Times((k + 1) as real, Times(v, z.simulationTimeStep));
      var pose := After(trig, z.simulationTimeStep, Velocity(v, 0.0, 0.0), k + 1).pose;
      && (0.0 <= s <= gap ==> CountIf(points, CoveredFrom(trig, z.shape, pose)) == 0)
      && (gap < s < gap + depth ==> CountIf(points, CoveredFrom(trig, z.shape, pose)) == |points|)
  {
    var vel := Velocity(v, 0.0, 0.0);
    var s := Times((k + 1) as real, Times(v, z.simulationTimeStep));
    var pose := After(trig, z.simulationTimeStep, vel, k + 1).pose;
    hide Times, Covers, After, CountIf;
    var f := CoveredFrom(trig, z.shape, pose);
    forall p | p in points ensures f(p) == Covers(z.shape, Nearer(p, s)) && Ahead(z.shape, p, gap, depth) {
      StraightCovers(trig, z, vel, k, p);
      TimesUnit(z.simulationTimeStep);
    }
    if 0.0 <= s <= gap {
      CountNone(points, f);
    }
    if gap < s < gap + depth {
      CountAll(points, f);
    }
  }

  lemma {:induction false} CountNone<T>(s: seq<T>, f: T -> bool)
    requires forall x :: x in s ==> !f(x)
    ensures CountIf(s, f) == 0
  {
    if s != [] {
      CountNone(s[..|s| - 1], f);
    }
  }

  lemma {:induction false} CountAll<T>(s: seq<T>, f: T -> bool)
    requires forall x :: x in s ==> f(x)
    ensures CountIf(s, f) == |s|
  {
    if s != [] {
      CountAll(s[..|s| - 1], f);
    }
  }

  /** Obstacles at the distance gap before the shape, a robot that drives straight at them with speed v, and
      k the number of whole steps before the gap is used up: more than max_points of them give the
      collision time k * dt within the horizon, and none beyond it. */
  lemma StraightHit(trig: Trig, z: Zone, points: seq<Point>, v: real, gap: real, depth: real, k: nat)
    requires trig.AtZero() && v > 0.0 && z.simulationTimeStep > 0.0 && 0 < z.maxPoints < |points|
    requires gap >= 0.0 && AllAhead(z.shape, points, gap, depth) && Times(v, z.simulationTimeStep) < depth
    requires Times(k as real, Times(v, z.simulationTimeStep)) <= gap < Times((k + 1) as real, Times(v, z.simulationTimeStep))
    ensures var t := Times(k as real, z.simulationTimeStep);
      CollisionTime(trig, z, points, Velocity(v, 0.0, 0.0)) == if t <= z.timeBeforeCollision then t else -1.0
  {
    SignOfTimes(v, z.simulationTimeStep);
    NextSteps(k, Times(v, z.simulationTimeStep));
    hide Times, AllAhead, CountIf, Covers;
    NotStatic(z, points, gap, depth);
    NotYet(trig, z, points, v, gap, depth, k);
    CountAhead(trig, z, points, v, gap, depth, k);
    FirstCollision(trig, z, points, Velocity(v, 0.0, 0.0), k);
  }

  /** End to end for one APPROACH shape: the command is slowed down in the ratio of that time and the horizon. */
  lemma StraightApproach(trig: Trig, z: Zone, points: seq<Point>, v: real, gap: real, depth: real, k: nat)
    requires trig.AtZero() && v > 0.0 && z.simulationTimeStep > 0.0 && 0 < z.maxPoints < |points|
    requires gap >= 0.0 && AllAhead(z.shape, points, gap, depth) && Times(v, z.simulationTimeStep) < depth
    requires Times(k as real, Times(v, z.simulationTimeStep)) <= gap < Times((k + 1) as real, Times(v, z.simulationTimeStep))
    requires z.enabled && z.action.Approach? && z.timeBeforeCollision > 0.0
    requires Times(k as real, z.simulationTimeStep) <= z.timeBeforeCollision
    ensures z.Runnable()
    ensures var ratio := Times(k as real, z.simulationTimeStep) / z.timeBeforeCollision;
      Chosen(Scene(trig, points, Velocity(v, 0.0, 0.0)), [z]).reqVel == Velocity(v * ratio, 0.0, 0.0)
  {
    StraightHit(trig, z, points, v, gap, depth, k);
    var sc := Scene(trig, points, Velocity(v, 0.0, 0.0));
    var ratio := Times(k as real, z.simulationTimeStep) / z.timeBeforeCollision;
    hide Times, AllAhead, Chosen, Velocity.Scaled, Velocity.NormSq, Covers;
    TimesOrderZero(k, z.simulationTimeStep);
    assert Ratio(sc, z) == ratio;
    OneZone(sc, z);
    ScaledComponents(sc.cmd, ratio);
  }

  lemma TimesOrderZero(k: nat, dt: real)
    requires dt > 0.0
    ensures Times(k as real, dt) >= 0.0
  {
    NonNegativeProduct(k as real, dt);
  }

  /** A single APPROACH shape slows the command down by its ratio. */
  lemma OneZone(sc: Scene, z: Zone)
    requires z.Runnable() && z.action.Approach?
    ensures Chosen(sc, [z]).reqVel == sc.cmd.Scaled(Ratio(sc, z))
  {
    hide Chosen, Velocity.Scaled, Ratio;
    VelocityIsLeast(sc, [z]);
    RatioNonNegative(sc, z);
    assert [z][..0] == [];
    assert Least(sc, []) == 1.0;
    assert Least(sc, [z]) == Min(1.0, Ratio(sc, z));
  }

  lemma NextSteps(k: nat, step: real)
    ensures Times((k + 1) as real, step) == Times(k as real, step) + step
  {
    OneMore(k + 1, step);
  }

  /** The first step whose pose collides decides, if it is within the horizon. */
  lemma FirstCollision(trig: Trig, z: Zone, points: seq<Point>, vel: Velocity, k: nat)
    requires !StaticHit(z, points) && z.simulationTimeStep > 0.0
    requires Collides(trig, z, points, vel, k) && forall j: nat :: j < k ==> !Collides(trig, z, points, vel, j)
    ensures CollisionTime(trig, z, points, vel) == if StepTime(z, k) <= z.timeBeforeCollision then StepTime(z, k) else -1.0
  {
    hide Collides, StaticHit, StepTime;
    StepTimeOrder(z, 0, k);
    if StepTime(z, k) <= z.timeBeforeCollision {
      assert FirstHit(trig, z, points, vel, k);
      CollisionTimeUnique(trig, z, points, vel, StepTime(z, k), CollisionTime(trig, z, points, vel));
    } else {
      forall j: nat ensures !StepHit(trig, z, points, vel, j) {
        if j >= k {
          StepTimeOrder(z, k, j);
        }
      }
    }
  }

  lemma NotYet(trig: Trig, z: Zone, points: seq<Point>, v: real, gap: real, depth: real, k: nat)
    requires trig.AtZero() && z.maxPoints >= 0 && AllAhead(z.shape, points, gap, depth)
    requires Times(v, z.simulationTimeStep) >= 0.0 && Times(k as real, Times(v, z.simulationTimeStep)) <= gap
    ensures forall j: nat :: j < k ==> !Collides(trig, z, points, Velocity(v, 0.0, 0.0), j)
  {
    hide Times, AllAhead, CountIf, Covers;
    var step := Times(v, z.simulationTimeStep);
    forall j: nat | j < k ensures !Collides(trig, z, points, Velocity(v, 0.0, 0.0), j) {
      CountAhead(trig, z, points, v, gap, depth, j);
      TimesOrder((j + 1) as real, k as real, step);
      TimesOrder(0.0, (j + 1) as real, step);
      TimesUnit(step);
    }
  }

  lemma NotStatic(z: Zone, points: seq<Point>, gap: real, depth: real)
    requires z.maxPoints > 0 && gap >= 0.0 && AllAhead(z.shape, points, gap, depth)
    ensures !StaticHit(z, points)
  {
    hide Covers;
    forall p | p in points ensures !CoveredBy(z.shape)(p) {
      assert Ahead(z.shape, p, gap, depth);
      assert Nearer(p, 0.0) == p && !Covers(z.shape, Nearer(p, 0.0));
    }
    CountNone(points, CoveredBy(z.shape));
  }

  /** The other half: max_points obstacles or fewer, wherever they are, never give a simulated hit. */
  lemma FewPointsNeverHit(trig: Trig, z: Zone, points: seq<Point>, vel: Velocity)
    requires |points| <= z.maxPoints && z.simulationTimeStep > 0.0
    ensures CollisionTime(trig, z, points, vel)
         == if CountIf(points, CoveredBy(z.shape)) >= z.maxPoints then 0.0 else -1.0
  {
    forall k: nat ensures !Collides(trig, z, points, vel, k) {
      CountAtMost(points, CoveredFrom(trig, z.shape, After(trig, z.simulationTimeStep, vel, k + 1).pose));
    }
  }

  lemma {:induction false} CountAtMost<T>(s: seq<T>, f: T -> bool)
    ensures CountIf(s, f) <= |s|
  {
    if s != [] {
      CountAtMost(s[..|s| - 1], f);
    }
  }
}
