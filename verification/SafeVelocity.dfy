/** The fold of CollisionMonitor::process over the zones: which action is chosen, and why it is safe. */
module SafeVelocity {
  import opened Counting
  import opened Kinematics
  import opened Plane
  import opened RayCrossing
  import opened Reals
  import opened Zones

  datatype Action = Action(actionType: ActionType, reqVel: Velocity)

  /** What one callback works with besides the zones. */
  datatype Scene = Scene(trig: Trig, points: seq<Point>, cmd: Velocity)

  predicate Triggered(z: Zone, points: seq<Point>) {
    CountIf(points, CoveredBy(z.shape)) > z.maxPoints
  }

  // ---- The loop body, branch for branch ----

  /** Take the cmd scaled by ratio if it is slower than what was chosen before. */
  function Slower(cmd: Velocity, ratio: real, kind: ActionType, a: Action): Action {
    if cmd.Scaled(ratio).Less(a.reqVel) then Action(kind, cmd.Scaled(ratio)) else a
  }

  ghost function StopSlowdownStep(sc: Scene, z: Zone, a: Action): Action {
    if !Triggered(z, sc.points) then a
    else if z.action.Stop? then Action(Stop, Velocity(0.0, 0.0, 0.0))
    else Slower(sc.cmd, z.slowdownRatio, Slowdown, a)
  }

  /** The collision time counts. With a horizon of zero it can only be zero too, and comparisons with the
      quotient, which is not a number, are false. */
  ghost predicate Approaches(sc: Scene, z: Zone) {
    CollisionTime(sc.trig, z, sc.points, sc.cmd) >= 0.0 && z.timeBeforeCollision != 0.0
  }

  ghost function ApproachStep(sc: Scene, z: Zone, a: Action): Action
    requires z.Runnable() && z.action.Approach?
  {
    if Approaches(sc, z)
    then Slower(sc.cmd, CollisionTime(sc.trig, z, sc.points, sc.cmd) / z.timeBeforeCollision, Approach, a) else a
  }

  ghost function ZoneStep(sc: Scene, z: Zone, a: Action): Action
    requires z.Runnable()
  {
    match z.action
    case Stop => StopSlowdownStep(sc, z, a)
    case Slowdown => StopSlowdownStep(sc, z, a)
    case Approach => ApproachStep(sc, z, a)
    case DoNothing => a
  }

  ghost predicate AllRunnable(zones: seq<Zone>) { forall z :: z in zones ==> z.Runnable() }

  /** The action after the first n zones; a STOP ends the loop. */
  ghost function Fold(sc: Scene, zones: seq<Zone>, n: nat): Action
    requires n <= |zones| && AllRunnable(zones)
  {
    if n == 0 then Action(DoNothing, sc.cmd)
    else
      var a := Fold(sc, zones, n - 1);
      if !zones[n - 1].enabled || a.actionType.Stop? then a else ZoneStep(sc, zones[n - 1], a)
  }

  ghost function Chosen(sc: Scene, zones: seq<Zone>): Action
    requires AllRunnable(zones)
  {
    Fold(sc, zones, |zones|)
  }

  /** The fold as a loop sees it. */
  lemma FoldStart(sc: Scene, zones: seq<Zone>)
    requires AllRunnable(zones)
    ensures Fold(sc, zones, 0) == Action(DoNothing, sc.cmd)
  {
  }

  lemma FoldNext(sc: Scene, zones: seq<Zone>, n: nat)
    requires n < |zones| && AllRunnable(zones)
    ensures Fold(sc, zones, n + 1) ==
      if !zones[n].enabled || Fold(sc, zones, n).actionType.Stop? then Fold(sc, zones, n)
      else ZoneStep(sc, zones[n], Fold(sc, zones, n))
  {
  }

  lemma {:induction false} StopIsFinal(sc: Scene, zones: seq<Zone>, n: nat, m: nat)
    requires n <= m <= |zones| && AllRunnable(zones)
    requires Fold(sc, zones, n).actionType.Stop?
    ensures Fold(sc, zones, m) == Fold(sc, zones, n)
  {
    if n < m {
      StopIsFinal(sc, zones, n, m - 1);
    }
  }

  // ---- STOP exactly when an enabled STOP zone is triggered ----

  predicate StopsOn(z: Zone, points: seq<Point>) { z.enabled && z.action.Stop? && Triggered(z, points) }

  lemma {:induction false} StopPrefix(sc: Scene, zones: seq<Zone>, n: nat)
    requires n <= |zones| && AllRunnable(zones)
    ensures Fold(sc, zones, n).actionType.Stop? <==> exists k :: 0 <= k < n && StopsOn(zones[k], sc.points)
    ensures Fold(sc, zones, n).actionType.Stop? ==> Fold(sc, zones, n).reqVel.IsZero()
  {
    if n > 0 {
      StopPrefix(sc, zones, n - 1);
    }
  }

  /** Despite the early break: STOP if and only if some enabled STOP zone holds too many points. */
  lemma StopExactly(sc: Scene, zones: seq<Zone>)
    requires AllRunnable(zones)
    ensures Chosen(sc, zones).actionType.Stop? <==> exists z :: z in zones && StopsOn(z, sc.points)
    ensures Chosen(sc, zones).actionType.Stop? <==>
      exists z :: z in zones && z.enabled && z.action == Stop && CountIf(sc.points, CoveredBy(z.shape)) > z.maxPoints
    ensures Chosen(sc, zones).actionType.Stop? ==> Chosen(sc, zones).reqVel == Velocity(0.0, 0.0, 0.0)
  {
    StopPrefix(sc, zones, |zones|);
    if z :| z in zones && StopsOn(z, sc.points) {
      var k :| 0 <= k < |zones| && zones[k] == z;
    }
  }

  // ---- Why an action was chosen ----

  /** The velocity is the one that an enabled and triggered zone of the action's kind asks for, or the
      command if no zone has changed it. */
  ghost predicate Explained(sc: Scene, zones: seq<Zone>, a: Action) {
    match a.actionType
    case DoNothing => a.reqVel == sc.cmd
    case Stop => a.reqVel == Velocity(0.0, 0.0, 0.0) && exists z :: z in zones && z.action == Stop && Exceeded(sc, z)
    case Slowdown =>
      exists z :: z in zones && z.action == Slowdown && Exceeded(sc, z) && ScaledBy(a.reqVel, sc.cmd, z.slowdownRatio)
    case Approach =>
      exists z :: z in zones && z.action == Approach && z.enabled && z.timeBeforeCollision != 0.0 &&
        CollisionTime(sc.trig, z, sc.points, sc.cmd) >= 0.0 &&
        ScaledBy(a.reqVel, sc.cmd, CollisionTime(sc.trig, z, sc.points, sc.cmd) / z.timeBeforeCollision)
  }

  ghost predicate Exceeded(sc: Scene, z: Zone) {
    z.enabled && CountIf(sc.points, CoveredBy(z.shape)) > z.maxPoints
  }

  predicate ScaledBy(v: Velocity, cmd: Velocity, r: real) { v == Velocity(cmd.x * r, cmd.y * r, cmd.tw * r) }

  lemma {:induction false} PrefixExplained(sc: Scene, zones: seq<Zone>, n: nat)
    requires n <= |zones| && AllRunnable(zones)
    ensures Explained(sc, zones, Fold(sc, zones, n))
  {
    if n > 0 {
      PrefixExplained(sc, zones, n - 1);
      var a, z := Fold(sc, zones, n - 1), zones[n - 1];
      if z.enabled && !a.actionType.Stop? {
        StepExplained(sc, zones, z, a);
      }
    }
  }

  lemma StepExplained(sc: Scene, zones: seq<Zone>, z: Zone, a: Action)
    requires z in zones && z.enabled && z.Runnable() && Explained(sc, zones, a)
    ensures Explained(sc, zones, ZoneStep(sc, z, a))
  {
    ScaledComponents(sc.cmd, z.slowdownRatio);
    if z.action.Approach? && Approaches(sc, z) {
      ScaledComponents(sc.cmd, CollisionTime(sc.trig, z, sc.points, sc.cmd) / z.timeBeforeCollision);
    }
    hide Velocity.Scaled, Velocity.NormSq, Velocity.Less, ScaledBy, CountIf, Covers;
  }

  lemma ActionIsExplained(sc: Scene, zones: seq<Zone>)
    requires AllRunnable(zones)
    ensures Explained(sc, zones, Chosen(sc, zones))
  {
    PrefixExplained(sc, zones, |zones|);
  }

  // ---- The chosen speed is the least one, whatever the order of the zones ----

  /** The factor a zone asks for: 0 to stop, 1 when it has nothing to say. */
  ghost function Ratio(sc: Scene, z: Zone): real
    requires z.Runnable()
  {
    if !z.enabled then 1.0
    else match z.action
      case Stop => if Triggered(z, sc.points) then 0.0 else 1.0
      case Slowdown => if Triggered(z, sc.points) then z.slowdownRatio else 1.0
      case Approach =>
        if Approaches(sc, z) then CollisionTime(sc.trig, z, sc.points, sc.cmd) / z.timeBeforeCollision else 1.0
      case DoNothing => 1.0
  }

  /** The least of 1 and the squared ratios. */
  ghost function LeastSq(sc: Scene, zones: seq<Zone>): real
    requires AllRunnable(zones)
  {
    if zones == [] then 1.0 else Min(LeastSq(sc, zones[..|zones| - 1]), Sq(Ratio(sc, zones[|zones| - 1])))
  }

  /** The least of 1 and the ratios. */
  ghost function Least(sc: Scene, zones: seq<Zone>): real
    requires AllRunnable(zones)
  {
    if zones == [] then 1.0 else Min(Least(sc, zones[..|zones| - 1]), Ratio(sc, zones[|zones| - 1]))
  }

  lemma ScaledNormSq(v: Velocity, r: real)
    ensures v.Scaled(r).NormSq() == Times(Sq(r), v.NormSq())
    ensures v.NormSq() >= 0.0
  {
    var x, y, w := v.x, v.y, v.tw;
    hide Times, Sq;
    SquareOfTimes(x, r);
    SquareOfTimes(y, r);
    SquareOfTimes(w, r);
    TimesSum(Sq(r), Sq(x), Sq(y));
    TimesSum(Sq(r), Sq(x) + Sq(y), Sq(w));
    SquareSign(x);
    SquareSign(y);
    SquareSign(w);
  }

  lemma SlowerSpeed(cmd: Velocity, r: real, kind: ActionType, a: Action, s: real)
    requires a.reqVel.NormSq() == Times(s, cmd.NormSq())
    ensures Slower(cmd, r, kind, a).reqVel.NormSq() == Times(Min(s, Sq(r)), cmd.NormSq())
  {
    hide Velocity.NormSq, Velocity.Scaled, Sq, Times;
    ScaledNormSq(cmd, r);
    if Sq(r) < s {
      TimesOrder(Sq(r), s, cmd.NormSq());
      assert Min(s, Sq(r)) == Sq(r);
    } else {
      TimesOrder(s, Sq(r), cmd.NormSq());
      assert Min(s, Sq(r)) == s;
    }
  }

  lemma SqNonNegative(r: real)
    ensures Sq(r) >= 0.0
    ensures Sq(1.0) == 1.0 && Sq(0.0) == 0.0
  {
    SquareSign(r);
  }

  lemma {:induction false} LeastSqRange(sc: Scene, zones: seq<Zone>)
    requires AllRunnable(zones)
    ensures 0.0 <= LeastSq(sc, zones) <= 1.0
  {
    if zones != [] {
      LeastSqRange(sc, zones[..|zones| - 1]);
    }
  }

  /** For every configuration, negative slowdown ratios included: the chosen squared speed is the
      commanded one times the least of 1 and the squared ratios. */
  lemma {:induction false} FoldSpeed(sc: Scene, zones: seq<Zone>, n: nat)
    requires n <= |zones| && AllRunnable(zones)
    ensures Fold(sc, zones, n).reqVel.NormSq() == Times(LeastSq(sc, zones[..n]), sc.cmd.NormSq())
  {
    if n > 0 {
      hide Velocity.NormSq, Times, Sq, ZoneStep, Ratio;
      FoldSpeed(sc, zones, n - 1);
      var a, z := Fold(sc, zones, n - 1), zones[n - 1];
      assert zones[..n][..n - 1] == zones[..n - 1];
      LeastSqRange(sc, zones[..n - 1]);
      if a.actionType.Stop? {
        StopPrefix(sc, zones, n - 1);
        StoppedLeast(sc, zones, n - 1);
        SqNonNegative(Ratio(sc, z));
      } else if z.enabled {
        ZoneSpeed(sc, z, a, LeastSq(sc, zones[..n - 1]));
      } else {
        DisabledRatio(sc, z);
        SqNonNegative(1.0);
      }
    }
  }

  lemma ZoneSpeed(sc: Scene, z: Zone, a: Action, s: real)
    requires z.Runnable() && z.enabled
    requires 0.0 <= s <= 1.0 && a.reqVel.NormSq() == Times(s, sc.cmd.NormSq())
    ensures ZoneStep(sc, z, a).reqVel.NormSq() == Times(Min(s, Sq(Ratio(sc, z))), sc.cmd.NormSq())
  {
    hide Velocity.NormSq, Slower, Sq;
    SqNonNegative(1.0);
    StopSpeed(sc.cmd, s);
    SlowerSpeed(sc.cmd, Ratio(sc, z), z.action, a, s);
  }

  lemma StopSpeed(cmd: Velocity, s: real)
    requires s >= 0.0
    ensures Velocity(0.0, 0.0, 0.0).NormSq() == Times(Min(s, Sq(0.0)), cmd.NormSq())
  {
    assert Sq(0.0) == 0.0 && Min(s, 0.0) == 0.0;
    TimesUnit(cmd.NormSq());
  }

  lemma {:induction false} StoppedLeast(sc: Scene, zones: seq<Zone>, n: nat)
    requires n <= |zones| && AllRunnable(zones)
    requires exists k :: 0 <= k < n && StopsOn(zones[k], sc.points)
    ensures LeastSq(sc, zones[..n]) == 0.0
  {
    assert zones[..n][..n - 1] == zones[..n - 1];
    LeastSqRange(sc, zones[..n - 1]);
    if !StopsOn(zones[n - 1], sc.points) {
      StoppedLeast(sc, zones, n - 1);
    }
  }

  lemma SpeedIsLeast(sc: Scene, zones: seq<Zone>)
    requires AllRunnable(zones)
    ensures Chosen(sc, zones).reqVel.NormSq() == Times(LeastSq(sc, zones), sc.cmd.NormSq())
  {
    FoldSpeed(sc, zones, |zones|);
    assert zones[..|zones|] == zones;
  }

  // ---- With ratios that are not negative the chosen velocity itself is determined ----

  ghost predicate NonNegativeRatios(zones: seq<Zone>) {
    forall z :: z in zones && z.action.Slowdown? ==> z.slowdownRatio >= 0.0
  }

  lemma RatioNonNegative(sc: Scene, z: Zone)
    requires z.Runnable() && (z.action.Slowdown? ==> z.slowdownRatio >= 0.0)
    ensures Ratio(sc, z) >= 0.0
    ensures z.action.Approach? ==> Ratio(sc, z) <= 1.0
  {
    if z.enabled && z.action.Approach? && Approaches(sc, z) {
      CollisionTimeRange(sc.trig, z, sc.points, sc.cmd);
      var t, h := CollisionTime(sc.trig, z, sc.points, sc.cmd), z.timeBeforeCollision;
      if t > 0.0 {
        UnitQuotient(t, h);
      } else if t == 0.0 {
        QuotientUnique(0.0, t, h);
      }
    }
  }

  lemma {:induction false} LeastRange(sc: Scene, zones: seq<Zone>)
    requires AllRunnable(zones) && NonNegativeRatios(zones)
    ensures 0.0 <= Least(sc, zones) <= 1.0
    ensures LeastSq(sc, zones) == Sq(Least(sc, zones))
  {
    if zones != [] {
      var n := |zones| - 1;
      LeastRange(sc, zones[..n]);
      RatioNonNegative(sc, zones[n]);
      MinSq(Least(sc, zones[..n]), Ratio(sc, zones[n]));
    }
  }

  lemma MinSq(a: real, b: real)
    requires a >= 0.0 && b >= 0.0
    ensures Min(Sq(a), Sq(b)) == Sq(Min(a, b))
  {
    hide Sq;
    if b < a {
      SquareOrder(b, a);
    } else {
      SquareOrder(a, b);
    }
  }

  lemma SlowerVelocity(cmd: Velocity, r: real, kind: ActionType, a: Action, m: real)
    requires r >= 0.0 && m >= 0.0 && a.reqVel == cmd.Scaled(m)
    ensures Slower(cmd, r, kind, a).reqVel == cmd.Scaled(Min(m, r))
  {
    ScaledNormSq(cmd, r);
    ScaledNormSq(cmd, m);
    if cmd.IsZero() {
      ZeroScaled(cmd, r);
      ZeroScaled(cmd, m);
    } else if r < m {
      StrictlySlower(cmd, r, m);
    } else {
      hide Velocity.NormSq, Velocity.Scaled, Sq, Times;
      SquareOrder(m, r);
      TimesOrder(Sq(m), Sq(r), cmd.NormSq());
    }
  }

  lemma ZeroScaled(v: Velocity, r: real)
    requires v.IsZero()
    ensures v.Scaled(r) == v
  {
    TimesUnit(r);
  }

  lemma StrictlySlower(cmd: Velocity, r: real, m: real)
    requires 0.0 <= r < m && !cmd.IsZero()
    ensures cmd.Scaled(r).Less(cmd.Scaled(m))
  {
    hide Velocity.NormSq, Velocity.Scaled, Sq, Times;
    ScaledNormSq(cmd, r);
    ScaledNormSq(cmd, m);
    SquareOrder(r, m);
    NonZeroNorm(cmd);
    TimesOrder(Sq(r), Sq(m), cmd.NormSq());
  }

  lemma NonZeroNorm(v: Velocity)
    requires !v.IsZero()
    ensures v.NormSq() > 0.0
  {
    SquareSign(v.x);
    SquareSign(v.y);
    SquareSign(v.tw);
  }

  lemma ScaledByOne(v: Velocity)
    ensures v.Scaled(1.0) == v
    ensures v.Scaled(0.0) == Velocity(0.0, 0.0, 0.0)
  {
    TimesUnit(v.x);
    TimesUnit(v.y);
    TimesUnit(v.tw);
  }

  lemma ScaledComponents(v: Velocity, m: real)
    ensures v.Scaled(m) == Velocity(v.x * m, v.y * m, v.tw * m) && ScaledBy(v.Scaled(m), v, m)
    ensures v.NormSq() == v.x * v.x + v.y * v.y + v.tw * v.tw
  {
  }

  lemma {:induction false} FoldVelocity(sc: Scene, zones: seq<Zone>, n: nat)
    requires n <= |zones| && AllRunnable(zones) && NonNegativeRatios(zones)
    ensures Fold(sc, zones, n).reqVel == sc.cmd.Scaled(Least(sc, zones[..n]))
  {
    ScaledByOne(sc.cmd);
    hide Velocity.Scaled, ZoneStep, Ratio;
    if n > 0 {
      FoldVelocity(sc, zones, n - 1);
      var a, z := Fold(sc, zones, n - 1), zones[n - 1];
      assert zones[..n][..n - 1] == zones[..n - 1];
      LeastRange(sc, zones[..n - 1]);
      RatioNonNegative(sc, z);
      if a.actionType.Stop? {
        StopPrefix(sc, zones, n - 1);
        StoppedAtZero(sc, zones, n - 1);
      } else if z.enabled {
        ZoneVelocity(sc, z, a, Least(sc, zones[..n - 1]));
      } else {
        DisabledRatio(sc, z);
      }
    }
  }

  lemma DisabledRatio(sc: Scene, z: Zone)
    requires z.Runnable() && !z.enabled
    ensures Ratio(sc, z) == 1.0
  {
  }

  /** One zone multiplies by the smaller factor. */
  lemma ZoneVelocity(sc: Scene, z: Zone, a: Action, m: real)
    requires z.Runnable() && z.enabled && (z.action.Slowdown? ==> z.slowdownRatio >= 0.0)
    requires 0.0 <= m <= 1.0 && a.reqVel == sc.cmd.Scaled(m)
    ensures ZoneStep(sc, z, a).reqVel == sc.cmd.Scaled(Min(m, Ratio(sc, z)))
  {
    hide Velocity.Scaled, Slower;
    RatioNonNegative(sc, z);
    ScaledByOne(sc.cmd);
    SlowerVelocity(sc.cmd, Ratio(sc, z), z.action, a, m);
  }

  lemma {:induction false} StoppedAtZero(sc: Scene, zones: seq<Zone>, n: nat)
    requires n <= |zones| && AllRunnable(zones) && NonNegativeRatios(zones)
    requires exists k :: 0 <= k < n && StopsOn(zones[k], sc.points)
    ensures Least(sc, zones[..n]) == 0.0
  {
    assert zones[..n][..n - 1] == zones[..n - 1];
    LeastRange(sc, zones[..n - 1]);
    RatioNonNegative(sc, zones[n - 1]);
    if !StopsOn(zones[n - 1], sc.points) {
      StoppedAtZero(sc, zones, n - 1);
    }
  }

  /** The fold equals a minimum. */
  lemma VelocityIsLeast(sc: Scene, zones: seq<Zone>)
    requires AllRunnable(zones) && NonNegativeRatios(zones)
    ensures Chosen(sc, zones).reqVel == sc.cmd.Scaled(Least(sc, zones))
    ensures var m := Least(sc, zones);
      Chosen(sc, zones).reqVel == Velocity(sc.cmd.x * m, sc.cmd.y * m, sc.cmd.tw * m)
  {
    hide Velocity.Scaled, Velocity.NormSq, Least, Fold;
    FoldVelocity(sc, zones, |zones|);
    assert zones[..|zones|] == zones;
    ScaledComponents(sc.cmd, Least(sc, zones));
  }

  // ---- Safety: obstacles that appear never make the robot faster ----

  lemma RatioMonotone(sc: Scene, z: Zone, more: seq<Point>)
    requires z.Runnable() && multiset(sc.points) <= multiset(more)
    ensures Min(1.0, Sq(Ratio(sc.(points := more), z))) <= Min(1.0, Sq(Ratio(sc, z)))
  {
    CountIfMonotone(sc.points, more, CoveredBy(z.shape));
    SqNonNegative(1.0);
    SqNonNegative(Ratio(sc, z));
    if z.enabled && z.action.Approach? {
      ApproachMonotone(sc, z, more);
      RatioNonNegative(sc.(points := more), z);
      SquareOrder(Ratio(sc.(points := more), z), Ratio(sc, z));
    } else if z.enabled && z.action.Stop? {
      assert Sq(0.0) == 0.0;
    }
  }

  lemma ApproachMonotone(sc: Scene, z: Zone, more: seq<Point>)
    requires z.Runnable() && multiset(sc.points) <= multiset(more) && z.enabled && z.action.Approach?
    ensures Ratio(sc.(points := more), z) <= Ratio(sc, z)
  {
    CollisionTimeMonotone(sc.trig, z, sc.points, more, sc.cmd);
    CollisionTimeRange(sc.trig, z, sc.points, sc.cmd);
    RatioNonNegative(sc.(points := more), z);
    var t := CollisionTime(sc.trig, z, sc.points, sc.cmd);
    if Approaches(sc, z) {
      SameDivisor(CollisionTime(sc.trig, z, more, sc.cmd), t, z.timeBeforeCollision);
    }
  }

  /** For times within the horizon. */
  lemma SameDivisor(u: real, t: real, h: real)
    requires 0.0 <= u <= t && h != 0.0 && (h < 0.0 ==> t == 0.0)
    ensures u / h <= t / h
  {
    var p, q := u / h, t / h;
    assert p * h == u && q * h == t;
    assert (p - q) * h == u - t;
    if h > 0.0 {
      SignOfProduct(p - q, h);
    }
  }

  lemma {:induction false} LeastMonotone(sc: Scene, zones: seq<Zone>, more: seq<Point>)
    requires AllRunnable(zones) && multiset(sc.points) <= multiset(more)
    ensures LeastSq(sc.(points := more), zones) <= LeastSq(sc, zones)
  {
    if zones != [] {
      var n := |zones| - 1;
      LeastMonotone(sc, zones[..n], more);
      RatioMonotone(sc, zones[n], more);
      LeastSqRange(sc, zones[..n]);
      LeastSqRange(sc.(points := more), zones[..n]);
    }
  }

  /** End to end, for fixed zones and command: whatever obstacle points are added, the velocity that
      is chosen is not faster, and a stop stays a stop. */
  lemma MoreObstaclesNeverFaster(sc: Scene, zones: seq<Zone>, more: seq<Point>)
    requires AllRunnable(zones) && multiset(sc.points) <= multiset(more)
    ensures Chosen(sc.(points := more), zones).reqVel.NormSq() <= Chosen(sc, zones).reqVel.NormSq()
    ensures var u, v := Chosen(sc.(points := more), zones).reqVel, Chosen(sc, zones).reqVel;
      u.x * u.x + u.y * u.y + u.tw * u.tw <= v.x * v.x + v.y * v.y + v.tw * v.tw
    ensures Chosen(sc, zones).actionType.Stop? ==> Chosen(sc.(points := more), zones).actionType.Stop?
  {
    ScaledComponents(Chosen(sc.(points := more), zones).reqVel, 1.0);
    ScaledComponents(Chosen(sc, zones).reqVel, 1.0);
    hide Velocity.NormSq;
    var sm := sc.(points := more);
    LeastMonotone(sc, zones, more);
    SpeedIsLeast(sc, zones);
    SpeedIsLeast(sm, zones);
    ScaledNormSq(sc.cmd, 1.0);
    TimesOrder(LeastSq(sm, zones), LeastSq(sc, zones), sc.cmd.NormSq());
    StopExactly(sc, zones);
    StopExactly(sm, zones);
    if z :| z in zones && StopsOn(z, sc.points) {
      CountIfMonotone(sc.points, more, CoveredBy(z.shape));
      assert StopsOn(z, more);
    }
  }

  /** The chosen velocity is never faster than the command. */
  lemma NeverFasterThanCommand(sc: Scene, zones: seq<Zone>)
    requires AllRunnable(zones)
    ensures Chosen(sc, zones).reqVel.NormSq() <= sc.cmd.NormSq()
    ensures var u, v := Chosen(sc, zones).reqVel, sc.cmd;
      u.x * u.x + u.y * u.y + u.tw * u.tw <= v.x * v.x + v.y * v.y + v.tw * v.tw
  {
    ScaledComponents(Chosen(sc, zones).reqVel, 1.0);
    ScaledComponents(sc.cmd, 1.0);
    hide Velocity.NormSq;
    SpeedIsLeast(sc, zones);
    LeastSqRange(sc, zones);
    ScaledNormSq(sc.cmd, 1.0);
    TimesOrder(LeastSq(sc, zones), 1.0, sc.cmd.NormSq());
  }
}
