/** Whether the order in which the zones are listed matters to the velocity that is chosen. */
module ZoneOrder {
  import opened Counting
  import opened Kinematics
  import opened Plane
  import opened Reals
  import opened SafeVelocity
  import opened Zones

  // ---- The least ratio does not depend on the order ----

  lemma LeastSnoc(sc: Scene, zones: seq<Zone>, z: Zone)
    requires AllRunnable(zones) && z.Runnable()
    ensures AllRunnable(zones + [z])
    ensures Least(sc, zones + [z]) == Min(Least(sc, zones), Ratio(sc, z))
    ensures LeastSq(sc, zones + [z]) == Min(LeastSq(sc, zones), Sq(Ratio(sc, z)))
  {
    hide Ratio, Sq;
    assert (zones + [z])[..|zones|] == zones;
  }

  lemma {:induction false} LeastRemove(sc: Scene, zones: seq<Zone>, k: nat)
    requires k < |zones| && AllRunnable(zones)
    ensures AllRunnable(zones[..k] + zones[k + 1..])
    ensures Least(sc, zones) == Min(Least(sc, zones[..k] + zones[k + 1..]), Ratio(sc, zones[k]))
    ensures LeastSq(sc, zones) == Min(LeastSq(sc, zones[..k] + zones[k + 1..]), Sq(Ratio(sc, zones[k])))
  {
    hide Ratio, Sq, Least, LeastSq, Zone.Runnable;
    var n, t := |zones| - 1, zones[..k] + zones[k + 1..];
    var s, z := zones[..n], zones[n];
    assert zones == s + [z] && z in zones;
    LeastSnoc(sc, s, z);
    if k == n {
      assert t == s;
    } else {
      LeastRemove(sc, s, k);
      var u := s[..k] + s[k + 1..];
      RemoveThenSnoc(zones, k);
      LeastSnoc(sc, u, z);
    }
  }

  lemma {:induction false} LeastPermuted(sc: Scene, zones: seq<Zone>, other: seq<Zone>)
    requires AllRunnable(zones) && AllRunnable(other) && multiset(zones) == multiset(other)
    ensures Least(sc, zones) == Least(sc, other)
    ensures LeastSq(sc, zones) == LeastSq(sc, other)
  {
    hide Ratio, Sq, Least, LeastSq, Zone.Runnable;
    if zones == [] {
      assert |other| == |multiset(other)| == 0;
    } else {
      var n, z := |zones| - 1, zones[|zones| - 1];
      assert z in multiset(zones) && z in other;
      var k :| 0 <= k < |other| && other[k] == z;
      LeastRemove(sc, other, k);
      RemoveOne(other, k);
      assert zones == zones[..n] + [z];
      LeastSnoc(sc, zones[..n], z);
      assert multiset(zones[..n]) == multiset(zones) - multiset{z};
      LeastPermuted(sc, zones[..n], other[..k] + other[k + 1..]);
    }
  }

  // ---- The first zone that attains the least squared ratio decides the velocity ----

  /** The factor of the first zone with the least squared ratio below 1; 1 without such a zone. */
  ghost function Factor(sc: Scene, zones: seq<Zone>): real
    requires AllRunnable(zones)
  {
    if zones == [] then 1.0
    else
      var n := |zones| - 1;
      if Sq(Ratio(sc, zones[n])) < LeastSq(sc, zones[..n]) then Ratio(sc, zones[n]) else Factor(sc, zones[..n])
  }

  lemma {:induction false} FactorIsLeast(sc: Scene, zones: seq<Zone>)
    requires AllRunnable(zones)
    ensures Sq(Factor(sc, zones)) == LeastSq(sc, zones) <= 1.0
    ensures LeastSq(sc, zones) < 1.0 ==> exists z :: z in zones && Ratio(sc, z) == Factor(sc, zones)
    ensures LeastSq(sc, zones) == 1.0 ==> Factor(sc, zones) == 1.0
  {
    hide Ratio;
    SqNonNegative(1.0);
    hide Sq;
    if zones != [] {
      var n := |zones| - 1;
      FactorIsLeast(sc, zones[..n]);
      if z :| z in zones[..n] && Ratio(sc, z) == Factor(sc, zones[..n]) {
        assert z in zones;
      }
    }
  }

  /** A zone that is listed first and attains the least decides. */
  lemma {:induction false} FirstDecides(sc: Scene, zones: seq<Zone>)
    requires AllRunnable(zones) && zones != []
    requires Sq(Ratio(sc, zones[0])) == LeastSq(sc, zones) < 1.0
    ensures Factor(sc, zones) == Ratio(sc, zones[0])
  {
    hide Ratio, Sq;
    var n := |zones| - 1;
    if n > 0 {
      LeastOfFirst(sc, zones[..n]);
      FirstDecides(sc, zones[..n]);
    } else {
      assert zones[..0] == [];
    }
  }

  lemma {:induction false} LeastOfFirst(sc: Scene, zones: seq<Zone>)
    requires AllRunnable(zones) && zones != []
    ensures LeastSq(sc, zones) <= Sq(Ratio(sc, zones[0]))
  {
    hide Ratio, Sq;
    if |zones| > 1 {
      LeastOfFirst(sc, zones[..|zones| - 1]);
    }
  }

  /** One enabled zone takes over exactly when its squared ratio is strictly less. */
  lemma ZoneTakesOver(sc: Scene, z: Zone, a: Action, s: real)
    requires z.Runnable() && z.enabled && !sc.cmd.IsZero()
    requires 0.0 <= s <= 1.0 && a.reqVel.NormSq() == Times(s, sc.cmd.NormSq())
    ensures ZoneStep(sc, z, a).reqVel == if Sq(Ratio(sc, z)) < s then sc.cmd.Scaled(Ratio(sc, z)) else a.reqVel
  {
    hide Velocity.NormSq, Velocity.Scaled, Sq, Times;
    SqNonNegative(1.0);
    ScaledByOne(sc.cmd);
    NonZeroNorm(sc.cmd);
    SlowerExactly(sc.cmd, Ratio(sc, z), z.action, a, s);
    if z.action.Stop? && Triggered(z, sc.points) && s == 0.0 {
      TimesUnit(sc.cmd.NormSq());
      ZeroNorm(a.reqVel);
    }
  }

  lemma SlowerExactly(cmd: Velocity, r: real, kind: ActionType, a: Action, s: real)
    requires a.reqVel.NormSq() == Times(s, cmd.NormSq()) && cmd.NormSq() > 0.0
    ensures Slower(cmd, r, kind, a).reqVel == if Sq(r) < s then cmd.Scaled(r) else a.reqVel
  {
    hide Velocity.NormSq, Velocity.Scaled, Sq, Times;
    ScaledNormSq(cmd, r);
    if Sq(r) < s {
      TimesOrder(Sq(r), s, cmd.NormSq());
    } else {
      TimesOrder(s, Sq(r), cmd.NormSq());
    }
  }

  lemma ZeroNorm(v: Velocity)
    requires v.NormSq() == 0.0
    ensures v == Velocity(0.0, 0.0, 0.0)
  {
    if !v.IsZero() {
      NonZeroNorm(v);
    }
  }

  lemma {:induction false} FoldFactor(sc: Scene, zones: seq<Zone>, n: nat)
    requires n <= |zones| && AllRunnable(zones) && !sc.cmd.IsZero()
    ensures Fold(sc, zones, n).reqVel == sc.cmd.Scaled(Factor(sc, zones[..n]))
  {
    ScaledByOne(sc.cmd);
    if n > 0 {
      hide Velocity.Scaled, Velocity.NormSq, ZoneStep, Ratio, Sq, Times;
      FoldFactor(sc, zones, n - 1);
      FoldSpeed(sc, zones, n - 1);
      var a, z := Fold(sc, zones, n - 1), zones[n - 1];
      assert zones[..n][..n - 1] == zones[..n - 1];
      LeastSqRange(sc, zones[..n - 1]);
      SqNonNegative(Ratio(sc, z));
      if a.actionType.Stop? {
        StopPrefix(sc, zones, n - 1);
        StoppedLeast(sc, zones, n - 1);
      } else if z.enabled {
        ZoneTakesOver(sc, z, a, LeastSq(sc, zones[..n - 1]));
      } else {
        DisabledRatio(sc, z);
        SqNonNegative(1.0);
      }
    }
  }

  /** The chosen velocity, for every configuration, is the command times the deciding factor. */
  lemma ChosenFactor(sc: Scene, zones: seq<Zone>)
    requires AllRunnable(zones) && !sc.cmd.IsZero()
    ensures Chosen(sc, zones).reqVel == sc.cmd.Scaled(Factor(sc, zones))
  {
    FoldFactor(sc, zones, |zones|);
    assert zones[..|zones|] == zones;
  }

  // ---- Exactly when the order matters ----

  /** Two zones ask for the least speed, in opposite directions. */
  ghost predicate Clash(sc: Scene, zones: seq<Zone>)
    requires AllRunnable(zones)
  {
    !sc.cmd.IsZero() && LeastSq(sc, zones) < 1.0 &&
    exists a, b :: a in zones && b in zones && Opposite(sc, a, b) && Sq(Ratio(sc, a)) == LeastSq(sc, zones)
  }

  ghost predicate Opposite(sc: Scene, a: Zone, b: Zone)
    requires a.Runnable() && b.Runnable()
  {
    Ratio(sc, a) == -Ratio(sc, b) && Ratio(sc, a) != 0.0
  }

  lemma ClashFound(sc: Scene, zones: seq<Zone>, a: Zone, b: Zone)
    requires AllRunnable(zones) && a in zones && b in multiset(zones)
    requires !sc.cmd.IsZero() && Ratio(sc, a) == -Ratio(sc, b) != Ratio(sc, b)
    requires Sq(Ratio(sc, a)) == LeastSq(sc, zones) < 1.0
    ensures Clash(sc, zones)
  {
    hide Ratio, Sq;
    assert Opposite(sc, a, b);
  }

  lemma SameSquares(a: real, b: real)
    requires Sq(a) == Sq(b)
    ensures a == b || a == -b
  {
    SquareDifference(a, b);
    hide Sq;
    assert Times(b - a, b + a) == 0.0;
    if b + a > 0.0 {
      SignOfTimes(b - a, b + a);
    } else if b + a < 0.0 {
      TimesNegated(b - a, b + a);
      SignOfTimes(a - b, -(b + a));
    }
  }

  lemma NoClashSameVelocity(sc: Scene, zones: seq<Zone>, other: seq<Zone>)
    requires AllRunnable(zones) && AllRunnable(other) && multiset(zones) == multiset(other) && !Clash(sc, zones)
    ensures Chosen(sc, zones).reqVel == Chosen(sc, other).reqVel
  {
    hide Velocity.NormSq, Velocity.Scaled, Ratio, Sq, Times, Chosen, Clash;
    LeastPermuted(sc, zones, other);
    if sc.cmd.IsZero() {
      ZeroCommand(sc, zones);
      ZeroCommand(sc, other);
    } else {
      ChosenFactor(sc, zones);
      ChosenFactor(sc, other);
      FactorIsLeast(sc, zones);
      FactorIsLeast(sc, other);
      var f, g := Factor(sc, zones), Factor(sc, other);
      SameSquares(f, g);
      if LeastSq(sc, zones) < 1.0 && f != g {
        var a :| a in zones && Ratio(sc, a) == f;
        var b :| b in other && Ratio(sc, b) == g;
        assert b in multiset(other);
        ClashFound(sc, zones, a, b);
        assert false;
      }
    }
  }

  lemma ZeroCommand(sc: Scene, zones: seq<Zone>)
    requires AllRunnable(zones) && sc.cmd.IsZero()
    ensures Chosen(sc, zones).reqVel == Velocity(0.0, 0.0, 0.0)
  {
    SpeedIsLeast(sc, zones);
    TimesUnit(0.0);
    TimesUnit(LeastSq(sc, zones));
    assert sc.cmd.NormSq() == 0.0;
    ZeroNorm(Chosen(sc, zones).reqVel);
  }

  /** Listing the zones in another order changes neither the speed nor whether the robot stops, and
      without a clash it does not change the velocity. */
  lemma OrderDoesNotMatter(sc: Scene, zones: seq<Zone>, other: seq<Zone>)
    requires AllRunnable(zones) && AllRunnable(other) && multiset(zones) == multiset(other)
    ensures Chosen(sc, zones).reqVel.NormSq() == Chosen(sc, other).reqVel.NormSq()
    ensures Chosen(sc, zones).actionType.Stop? == Chosen(sc, other).actionType.Stop?
    ensures !Clash(sc, zones) ==> Chosen(sc, zones).reqVel == Chosen(sc, other).reqVel
    ensures NonNegativeRatios(zones) ==> Chosen(sc, zones).reqVel == Chosen(sc, other).reqVel
  {
    hide Velocity.NormSq, Velocity.Scaled;
    LeastPermuted(sc, zones, other);
    SpeedIsLeast(sc, zones);
    SpeedIsLeast(sc, other);
    StopExactly(sc, zones);
    StopExactly(sc, other);
    assert forall z :: z in zones <==> z in multiset(zones);
    assert forall z :: z in other <==> z in multiset(other);
    if !Clash(sc, zones) {
      NoClashSameVelocity(sc, zones, other);
    }
    if NonNegativeRatios(zones) {
      VelocityIsLeast(sc, zones);
      VelocityIsLeast(sc, other);
    }
  }

  /** The zones with the one at k moved to the front. */
  function Promoted(zones: seq<Zone>, k: nat): (other: seq<Zone>)
    requires k < |zones|
  {
    [zones[k]] + (zones[..k] + zones[k + 1..])
  }

  lemma PromotedDecides(sc: Scene, zones: seq<Zone>, k: nat)
    requires k < |zones| && AllRunnable(zones) && !sc.cmd.IsZero()
    requires Sq(Ratio(sc, zones[k])) == LeastSq(sc, zones) < 1.0
    ensures multiset(Promoted(zones, k)) == multiset(zones) && AllRunnable(Promoted(zones, k))
    ensures Chosen(sc, Promoted(zones, k)).reqVel == sc.cmd.Scaled(Ratio(sc, zones[k]))
  {
    hide Velocity.Scaled, Ratio, Sq, Chosen;
    RemoveOne(zones, k);
    assert zones[k] in zones;
    var other := Promoted(zones, k);
    forall z | z in other ensures z.Runnable() {
      assert z in multiset(other);
    }
    LeastPermuted(sc, zones, other);
    FirstDecides(sc, other);
    ChosenFactor(sc, other);
  }

  lemma OppositesDiffer(v: Velocity, r: real)
    requires r != 0.0 && !v.IsZero()
    ensures v.Scaled(r) != v.Scaled(-r)
  {
    forall a | a in {v.x, v.y, v.tw} && a != 0.0 ensures Times(a, r) != Times(a, -r) {
      NonZeroTimes(a, r);
    }
  }

  lemma NonZeroTimes(a: real, r: real)
    requires a != 0.0 && r != 0.0
    ensures Times(a, r) != Times(a, -r)
  {
    assert a * -r == -(a * r);
  }

  /** For every list of zones and every scene: the velocity is the same in all orders if and only if no
      two zones clash. */
  lemma OrderExactly(sc: Scene, zones: seq<Zone>)
    requires AllRunnable(zones)
    ensures (forall other :: multiset(other) == multiset(zones) && AllRunnable(other) ==>
               Chosen(sc, other).reqVel == Chosen(sc, zones).reqVel)
       <==> !Clash(sc, zones)
  {
    hide Velocity.Scaled, Ratio, Sq, Chosen;
    if Clash(sc, zones) {
      var a, b :| a in zones && b in zones && Opposite(sc, a, b) && Sq(Ratio(sc, a)) == LeastSq(sc, zones);
      SquareNegated(Ratio(sc, b));
      var i :| 0 <= i < |zones| && zones[i] == a;
      var k :| 0 <= k < |zones| && zones[k] == b;
      PromotedDecides(sc, zones, i);
      PromotedDecides(sc, zones, k);
      OppositesDiffer(sc.cmd, Ratio(sc, b));
    } else {
      forall other | multiset(other) == multiset(zones) && AllRunnable(other)
        ensures Chosen(sc, other).reqVel == Chosen(sc, zones).reqVel
      {
        NoClashSameVelocity(sc, zones, other);
      }
    }
  }

  lemma SquareNegated(r: real)
    ensures Sq(-r) == Sq(r)
  {
    TimesNegated(r, r);
  }

  /** With a negative slowdown ratio the direction of travel does depend on the order of the zones. */
  lemma NegativeRatioDependsOnOrder(trig: Trig)
    ensures exists sc: Scene, a: Zone, b: Zone ::
      a.Runnable() && b.Runnable() && Chosen(sc, [a, b]).reqVel != Chosen(sc, [b, a]).reqVel
  {
    var a := Zone(true, Slowdown, -1, 0.5, 1.0, 1.0, Disc(1.0));
    var b := a.(slowdownRatio := -0.5);
    var cmd, half, back := Velocity(1.0, 0.0, 0.0), Velocity(0.5, 0.0, 0.0), Velocity(-0.5, 0.0, 0.0);
    var sc := Scene(trig, [], cmd);
    HalfOfUnit();
    hide Velocity.NormSq, Velocity.Scaled, Covers, Fold;
    assert Triggered(a, []) && Triggered(b, []);
    TwoSlowdowns(sc, a, b);
    TwoSlowdowns(sc, b, a);
  }

  lemma HalfOfUnit()
    ensures Velocity(1.0, 0.0, 0.0).Scaled(0.5) == Velocity(0.5, 0.0, 0.0)
    ensures Velocity(1.0, 0.0, 0.0).Scaled(-0.5) == Velocity(-0.5, 0.0, 0.0)
    ensures Velocity(1.0, 0.0, 0.0).NormSq() == 1.0
    ensures Velocity(0.5, 0.0, 0.0).NormSq() == 0.25 == Velocity(-0.5, 0.0, 0.0).NormSq()
  {
    TimesUnit(0.5);
    TimesUnit(-0.5);
    SquaresOfHalf();
    hide Sq, Times;
    assert Velocity(1.0, 0.0, 0.0).Scaled(0.5).x == 0.5;
  }

  lemma SquaresOfHalf()
    ensures Sq(1.0) == 1.0 && Sq(0.0) == 0.0 && Sq(0.5) == 0.25 && Sq(-0.5) == 0.25
  {
  }

  /** Two triggered slowdown zones: the second one wins only if it is strictly slower. */
  lemma TwoSlowdowns(sc: Scene, a: Zone, b: Zone)
    requires a.enabled && b.enabled && a.action.Slowdown? && b.action.Slowdown?
    requires Triggered(a, sc.points) && Triggered(b, sc.points)
    ensures a.Runnable() && b.Runnable()
    ensures Chosen(sc, [a, b])
         == Slower(sc.cmd, b.slowdownRatio, Slowdown, Slower(sc.cmd, a.slowdownRatio, Slowdown, Action(DoNothing, sc.cmd)))
  {
    hide Slower, Velocity.Less;
    var start := Action(DoNothing, sc.cmd);
    assert Fold(sc, [a, b], 0) == start;
    assert Fold(sc, [a, b], 1) == ZoneStep(sc, a, start);
    SlowerNotStop(sc.cmd, a.slowdownRatio, start);
  }

  lemma SlowerNotStop(cmd: Velocity, r: real, a: Action)
    requires !a.actionType.Stop?
    ensures !Slower(cmd, r, Slowdown, a).actionType.Stop?
  {
  }
}
