/** The node: lifecycle, the fold over the zones, and the protocol that stops publishing zero commands. */
module CollisionMonitor {
  import opened Kinematics
  import opened Plane
  import opened SafeVelocity
  import opened Wrappers
  import opened Zones

  /** What the publishing protocol remembers: process_active_, robot_action_prev_.req_vel, stop_stamp_. */
  datatype Memory = Memory(active: bool, prevVel: Velocity, stopStamp: int)

  const RESET_VELOCITY := Velocity(-1.0, -1.0, -1.0)

  /** publishVelocity keeps quiet about this velocity at this time. */
  predicate Quiet(m: Memory, timeout: int, v: Velocity, now: int) {
    v.IsZero() && m.prevVel.IsZero() && now - m.stopStamp > timeout
  }

  function StampAfter(m: Memory, v: Velocity, now: int): int {
    if v.IsZero() && !m.prevVel.IsZero() then now else m.stopStamp
  }

  /** One callback; a command carries the velocity that process has chosen and the clock. */
  datatype Event = Activate | Deactivate | Command(vel: Velocity, now: int)

  /** The state change of OnActivate, OnDeactivate and Process. */
  function Step(m: Memory, e: Event): Memory {
    match e
    case Activate => m.(active := true)
    case Deactivate => m.(active := false, prevVel := RESET_VELOCITY)
    case Command(v, now) => if m.active then Memory(true, v, StampAfter(m, v, now)) else m
  }

  function Output(m: Memory, timeout: int, e: Event): Option<Velocity> {
    match e
    case Command(v, now) => if !m.active || Quiet(m, timeout, v, now) then None else Some(v)
    case _ => None
  }

  /** Whether the loop gets to zone k, so that an APPROACH zone is updated. */
  ghost predicate Visits(sc: Scene, zones: seq<Zone>, k: nat)
    requires k < |zones| && AllRunnable(zones)
  {
    zones[k].enabled && !Fold(sc, zones, k).actionType.Stop?
  }

  /** The outlines when the loop is done: refreshed where it came by, untouched elsewhere. */
  ghost function ShapesAfter(sc: Scene, zones: seq<Zone>, before: seq<Shape>): (after: seq<Shape>)
    requires |before| == |zones| && AllRunnable(zones)
    ensures |after| == |zones|
    ensures forall k :: 0 <= k < |zones| ==> after[k] == if Visits(sc, zones, k) then zones[k].shape else before[k]
  {
    seq(|zones|, k requires 0 <= k < |zones| => if Visits(sc, zones, k) then zones[k].shape else before[k])
  }

  /** Once the action is STOP, or at the end of the list, nothing is left to do. */
  lemma BreakIsFinal(sc: Scene, zones: seq<Zone>, before: seq<Shape>, n: nat)
    requires |before| == |zones| && AllRunnable(zones) && n <= |zones|
    requires n < |zones| ==> Fold(sc, zones, n).actionType.Stop?
    ensures Chosen(sc, zones) == Fold(sc, zones, n)
    ensures forall k :: n <= k < |zones| ==> ShapesAfter(sc, zones, before)[k] == before[k]
  {
    forall k | n <= k <= |zones| ensures Fold(sc, zones, k) == Fold(sc, zones, n) {
      if n < |zones| {
        StopIsFinal(sc, zones, n, k);
      }
    }
  }

  class Node {
    const polygons: seq<Polygon>
    const stopPubTimeout: int
    var processActive: bool
    var robotActionPrev: Action
    var stopStamp: int

    ghost predicate Valid() {
      (forall i, j :: 0 <= i < j < |polygons| ==> polygons[i] != polygons[j]) &&
      forall p :: p in polygons ==> p.Runnable()
    }

    function State(): Memory
      reads this
    {
      Memory(processActive, robotActionPrev.reqVel, stopStamp)
    }

    /** The zones as the callback works with them. */
    function Current(): (zs: seq<Zone>)
      reads this, polygons
      ensures |zs| == |polygons|
      ensures forall i :: 0 <= i < |polygons| ==> zs[i] == polygons[i].Refreshed()
    {
      seq(|polygons|, i requires 0 <= i < |polygons| reads polygons => polygons[i].Refreshed())
    }

    function Shapes(): (shapes: seq<Shape>)
      reads this, polygons
      ensures |shapes| == |polygons|
      ensures forall i :: 0 <= i < |polygons| ==> shapes[i] == polygons[i].shape
    {
      seq(|polygons|, i requires 0 <= i < |polygons| reads polygons => polygons[i].shape)
    }

    /** Only an enabled APPROACH shape with a footprint subscription has taken over a footprint. */
    twostate predicate OnlyFootprintsTaken()
      reads this, polygons
    {
      forall i :: 0 <= i < |polygons| ==> var p := polygons[i];
        p.shape == old(p.shape) ||
        (p.enabled && p.actionType == Approach && p.footprint.Some? && p.shape == Vertices(p.footprint.value))
    }

    twostate lemma TakenOver(sc: Scene)
      requires Valid() && old(AllRunnable(Current())) && Shapes() == ShapesAfter(sc, old(Current()), old(Shapes()))
      requires forall p :: p in polygons ==> p.enabled == old(p.enabled) && p.footprint == old(p.footprint)
      ensures OnlyFootprintsTaken()
    {
      hide Fold, AllRunnable, Valid, Current, Shapes, ShapesAfter;
      forall i | 0 <= i < |polygons|
        ensures var p := polygons[i];
          p.shape == old(p.shape) ||
          (p.enabled && p.actionType == Approach && p.footprint.Some? && p.shape == Vertices(p.footprint.value))
      {
        var p := polygons[i];
        assert p in polygons;
        assert p.shape == Shapes()[i] && old(p.shape) == old(Shapes()[i]) && old(p.Refreshed()) == old(Current()[i]);
      }
    }

    constructor (polygons: seq<Polygon>, stopPubTimeout: int)
      requires forall i, j :: 0 <= i < j < |polygons| ==> polygons[i] != polygons[j]
      requires forall p :: p in polygons ==> p.Runnable()
      ensures Valid() && this.polygons == polygons && this.stopPubTimeout == stopPubTimeout
      ensures State() == Memory(false, RESET_VELOCITY, 0)
    {
      this.polygons, this.stopPubTimeout := polygons, stopPubTimeout;
      processActive, stopStamp := false, 0;
      robotActionPrev := Action(DoNothing, RESET_VELOCITY);
    }

    method OnActivate()
      modifies this`processActive
      ensures State() == Step(old(State()), Activate)
    {
      processActive := true;
    }

    method OnDeactivate()
      modifies this`processActive, this`robotActionPrev
      ensures State() == Step(old(State()), Deactivate)
    {
      processActive := false;
      robotActionPrev := Action(DoNothing, RESET_VELOCITY);
    }

    method PublishVelocity(robotAction: Action, now: int) returns (published: Option<Velocity>)
      modifies this`stopStamp
      ensures stopStamp == StampAfter(old(State()), robotAction.reqVel, now)
      ensures published
           == if Quiet(old(State()), stopPubTimeout, robotAction.reqVel, now) then None else Some(robotAction.reqVel)
    {
      if robotAction.reqVel.IsZero() {
        if !robotActionPrev.reqVel.IsZero() {
          stopStamp := now;
        } else if now - stopStamp > stopPubTimeout {
          return None;
        }
      }
      return Some(robotAction.reqVel);
    }

    method ProcessStopSlowdown(polygon: Polygon, sc: Scene, robotAction: Action) returns (next: Action, changed: bool)
      ensures next == StopSlowdownStep(sc, polygon.Value(), robotAction)
      ensures !changed ==> next == robotAction
    {
      var inside := polygon.GetPointsInside(sc.points);
      if inside > polygon.maxPoints {
        if polygon.actionType == Stop {
          return Action(Stop, Velocity(0.0, 0.0, 0.0)), true;
        } else {
          var safeVel := sc.cmd.Scaled(polygon.slowdownRatio);
          if safeVel.Less(robotAction.reqVel) {
            return Action(Slowdown, safeVel), true;
          }
        }
      }
      return robotAction, false;
    }

    method ProcessApproach(polygon: Polygon, sc: Scene, robotAction: Action) returns (next: Action, changed: bool)
      requires polygon.actionType.Approach? && polygon.Runnable()
      modifies polygon`shape
      ensures polygon.Value() == old(polygon.Refreshed())
      ensures next == ApproachStep(sc, polygon.Value(), robotAction)
      ensures !changed ==> next == robotAction
    {
      polygon.UpdatePolygon();
      var collisionTime := polygon.GetCollisionTime(sc.trig, sc.points, sc.cmd);
      CollisionTimeUnique(sc.trig, polygon.Value(), sc.points, sc.cmd, collisionTime,
                          CollisionTime(sc.trig, polygon.Value(), sc.points, sc.cmd));
      if collisionTime >= 0.0 && polygon.timeBeforeCollision != 0.0 {
        var changeRatio := collisionTime / polygon.timeBeforeCollision;
        var safeVel := sc.cmd.Scaled(changeRatio);
        if safeVel.Less(robotAction.reqVel) {
          return Action(Approach, safeVel), true;
        }
      }
      return robotAction, false;
    }

    lemma RefreshedRunnable()
      requires Valid()
      ensures AllRunnable(Current())
    {
      forall z | z in Current() ensures z.Runnable() {
        var i :| 0 <= i < |polygons| && Current()[i] == z;
        assert polygons[i] in polygons && polygons[i].Runnable();
      }
    }

    /** The body of the loop for zone i; stop is the break. */
    method VisitZone(i: nat, sc: Scene, robotAction: Action) returns (next: Action, stop: bool)
      requires Valid() && i < |polygons|
      modifies polygons[i..i + 1]`shape
      ensures var zone := old(Current())[i];
        && zone.Runnable()
        && (stop <==> zone.enabled && robotAction.actionType.Stop?)
        && (zone.enabled && !stop ==> Shapes()[i] == zone.shape && next == ZoneStep(sc, zone, robotAction))
        && (!zone.enabled || stop ==> Shapes()[i] == old(Shapes())[i] && next == robotAction)
      ensures forall k :: 0 <= k < |polygons| && k != i ==>
        Shapes()[k] == old(Shapes())[k] && Current()[k] == old(Current())[k]
    {
      hide Current, Shapes;
      var polygon := polygons[i];
      assert polygon in polygons;
      next, stop := robotAction, false;
      if !polygon.enabled {
        return;
      }
      if robotAction.actionType == Stop {
        return robotAction, true;
      }
      var changed: bool;
      if polygon.actionType == Stop || polygon.actionType == Slowdown {
        next, changed := ProcessStopSlowdown(polygon, sc, robotAction);
      } else if polygon.actionType == Approach {
        next, changed := ProcessApproach(polygon, sc, robotAction);
      }
    }

    method ChooseAction(sc: Scene) returns (robotAction: Action)
      requires Valid()
      modifies polygons`shape
      ensures Valid() && State() == old(State())
      ensures AllRunnable(old(Current())) && robotAction == Chosen(sc, old(Current()))
      ensures Shapes() == ShapesAfter(sc, old(Current()), old(Shapes()))
    {
      hide ZoneStep, Zone.Runnable, Valid, AllRunnable, Current, Shapes, ShapesAfter, Chosen, Fold;
      robotAction := Action(DoNothing, sc.cmd);
      ghost var zones, before := Current(), Shapes();
      RefreshedRunnable();
      ghost var after := ShapesAfter(sc, zones, before);
      FoldStart(sc, zones);
      var i, stop := 0, false;
      while i < |polygons|
        invariant 0 <= i <= |polygons|
        invariant robotAction == Fold(sc, zones, i)
        invariant forall k :: i <= k < |polygons| ==> Current()[k] == zones[k]
        invariant forall k :: 0 <= k < |polygons| ==> Shapes()[k] == if k < i then after[k] else before[k]
      {
        FoldNext(sc, zones, i);
        assert Visits(sc, zones, i) <==> zones[i].enabled && !robotAction.actionType.Stop?;
        robotAction, stop := VisitZone(i, sc, robotAction);
        if stop {
          break;
        }
        i := i + 1;
      }
      BreakIsFinal(sc, zones, before, i);
    }

    method Process(trig: Trig, cmdVelIn: Velocity, collisionPoints: seq<Point>, now: int)
      returns (published: Option<Velocity>)
      requires Valid()
      modifies this, polygons`shape
      ensures Valid() && OnlyFootprintsTaken()
      ensures !old(processActive) ==>
        published == None && State() == old(State()) && Shapes() == old(Shapes())
      ensures old(processActive) ==>
        AllRunnable(old(Current())) &&
        var chosen := Chosen(Scene(trig, collisionPoints, cmdVelIn), old(Current()));
        && published == Output(old(State()), stopPubTimeout, Command(chosen.reqVel, now))
        && robotActionPrev == chosen
        && State() == Step(old(State()), Command(chosen.reqVel, now))
        && Shapes() == ShapesAfter(Scene(trig, collisionPoints, cmdVelIn), old(Current()), old(Shapes()))
    {
      if !processActive {
        return None;
      }
      hide Zone.Runnable, Chosen, Valid, AllRunnable;
      var robotAction := ChooseAction(Scene(trig, collisionPoints, cmdVelIn));
      published := PublishVelocity(robotAction, now);
      robotActionPrev := robotAction;
      TakenOver(Scene(trig, collisionPoints, cmdVelIn));
    }
  }
}
