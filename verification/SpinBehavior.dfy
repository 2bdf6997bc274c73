/** The spin behaviour: how far the robot has turned, from headings wrapped at a half turn. */
module SpinBehavior {
  import opened Plane
  import opened Reals
  import opened Wrappers

  /** copysign, for a sign argument that is not a negative zero. */
  function CopySign(magnitude: real, sign: real): real { if sign < 0.0 then -Abs(magnitude) else Abs(magnitude) }

  /** The turn between two cycles as onCycleUpdate computes it. */
  function DeltaYaw(pi: real, prev: real, current: real): real {
    var d := current - prev;
    if Abs(d) > pi then CopySign(2.0 * pi - Abs(d), prev) else d
  }

  datatype Status = Succeeded | Failed | Running

  /** Parameters, and a square root; the look-ahead simulates maxCycles cycles of a given frequency. */
  datatype Config = Config(pi: real, minVel: real, maxVel: real, accLimit: real, sqrt: real -> real,
                           frequency: real, maxCycles: int)

  /** The square of the speed from which the remaining angle is just enough to stop. */
  function BrakingSq(cfg: Config, remaining: real): real { 2.0 * cfg.accLimit * remaining }

  function Speed(cfg: Config, remaining: real): real {
    Min(Max(cfg.sqrt(BrakingSq(cfg, remaining)), cfg.minVel), cfg.maxVel)
  }

  // ---- The look-ahead ----

  /** The collision checker: a heading, and whether to fetch new data. */
  type Checker = (real, bool) -> bool

  function SimTurn(cfg: Config, vel: real, k: nat): real
    requires cfg.frequency > 0.0
  {
    vel * (k as real / cfg.frequency)
  }

  /** The simulated headings whose turn is still less than what has been turned so far are free. */
  ghost predicate AheadIsFree(cfg: Config, free: Checker, turned: real, vel: real, yaw: real)
    requires cfg.frequency > 0.0
  {
    forall k: nat :: k < cfg.maxCycles && Abs(SimTurn(cfg, vel, k)) < Abs(turned)
                     ==> free(yaw + SimTurn(cfg, vel, k), k == 0)
  }

  lemma SimTurnGrows(cfg: Config, vel: real, j: nat, k: nat)
    requires cfg.frequency > 0.0 && j <= k
    ensures Abs(SimTurn(cfg, vel, j)) <= Abs(SimTurn(cfg, vel, k))
  {
    QuotientOrder(j as real, k as real, cfg.frequency);
    AbsProductOrder(vel, j as real / cfg.frequency, k as real / cfg.frequency);
  }

  lemma QuotientOrder(a: real, b: real, f: real)
    requires 0.0 <= a <= b && f > 0.0
    ensures 0.0 <= a / f <= b / f
  {
  }

  lemma AbsProductOrder(v: real, a: real, b: real)
    requires 0.0 <= a <= b
    ensures Abs(v * a) <= Abs(v * b)
  {
    if v >= 0.0 {
      assert 0.0 <= v * a <= v * b;
    } else {
      assert v * b <= v * a <= 0.0;
    }
  }

  method IsCollisionFree(cfg: Config, free: Checker, turned: real, vel: real, yaw: real) returns (ok: bool)
    requires cfg.frequency > 0.0
    ensures ok <==> AheadIsFree(cfg, free, turned, vel, yaw)
  {
    hide SimTurn;
    var cycle := 0;
    var fetch := true;
    while cycle < cfg.maxCycles
      invariant 0 <= cycle
      invariant fetch == (cycle == 0)
      invariant forall k: nat :: k < cycle ==> free(yaw + SimTurn(cfg, vel, k), k == 0)
    {
      var change := SimTurn(cfg, vel, cycle);
      if Abs(turned) - Abs(change) <= 0.0 {
        forall k: nat | cycle <= k ensures Abs(SimTurn(cfg, vel, k)) >= Abs(turned) {
          SimTurnGrows(cfg, vel, cycle, k);
        }
        return true;
      }
      if !free(yaw + change, fetch) {
        return false;
      }
      fetch := false;
      cycle := cycle + 1;
    }
    return true;
  }

  /** The look-ahead can refuse some command exactly when the robot has already turned and there is a
      cycle to simulate: in the first cycle nothing is checked. */
  lemma CanRefuseExactly(cfg: Config, turned: real, vel: real, yaw: real)
    requires cfg.frequency > 0.0
    ensures (exists free: Checker :: !AheadIsFree(cfg, free, turned, vel, yaw)) <==> turned != 0.0 && cfg.maxCycles > 0
  {
    if turned != 0.0 && cfg.maxCycles > 0 {
      var nothing: Checker := (_, _) => false;
      assert SimTurn(cfg, vel, 0) == 0.0;
      assert !nothing(yaw + SimTurn(cfg, vel, 0), true);
      assert !AheadIsFree(cfg, nothing, turned, vel, yaw);
    }
  }

  /** What one turn of the action server's loop meets: the clock, the heading if tf knows it, the obstacles,
      and requests to cancel or preempt. */
  datatype Cycle = Cycle(now: real, yaw: Option<real>, free: Checker, cancel: bool, preempt: bool)

  datatype End = Refused | Cancelled | Preempted | Finished(status: Status) | ShutDown

  function Yaws(cycles: seq<Cycle>): (yaws: seq<real>)
    requires forall c :: c in cycles ==> c.yaw.Some?
    ensures |yaws| == |cycles| && forall i :: 0 <= i < |cycles| ==> yaws[i] == cycles[i].yaw.value
  {
    seq(|cycles|, i requires 0 <= i < |cycles| => cycles[i].yaw.value)
  }

  /** The turn that is still missing after the first k cycles. */
  function Missing(cfg: Config, targetYaw: real, start: real, cycles: seq<Cycle>, k: nat): real
    requires k <= |cycles| && forall c :: c in cycles[..k] ==> c.yaw.Some?
  {
    Abs(targetYaw) - Abs(Relative(cfg.pi, start, Yaws(cycles[..k])))
  }

  /** How cycle k ends the behaviour, if it does, after k cycles that did not. */
  ghost function EndAt(cfg: Config, targetYaw: real, start: real, endTime: real, allowance: real, cycles: seq<Cycle>,
                       k: nat): Option<End>
    requires k < |cycles| && cfg.frequency > 0.0 && forall c :: c in cycles[..k] ==> c.yaw.Some?
  {
    var c := cycles[k];
    if c.cancel then Some(Cancelled)
    else if c.preempt then Some(Preempted)
    else if (endTime < c.now && allowance > 0.0) || c.yaw.None? then Some(Finished(Failed))
    else
      assert cycles[..k + 1] == cycles[..k] + [c];
      var missing := Missing(cfg, targetYaw, start, cycles, k + 1);
      if missing < 0.000001 then Some(Finished(Succeeded))
      else if !AheadIsFree(cfg, c.free, Relative(cfg.pi, start, Yaws(cycles[..k + 1])),
                           CopySign(Speed(cfg, missing), targetYaw), c.yaw.value)
      then Some(Finished(Failed))
      else None
  }

  /** The first m cycles leave the behaviour running. */
  ghost predicate Keeps(cfg: Config, targetYaw: real, start: real, endTime: real, allowance: real, cycles: seq<Cycle>,
                        m: nat)
    requires m <= |cycles| && cfg.frequency > 0.0
  {
    (forall c :: c in cycles[..m] ==> c.yaw.Some?) &&
    forall k :: 0 <= k < m ==>
      (forall c :: c in cycles[..k] ==> c.yaw.Some?) &&
      EndAt(cfg, targetYaw, start, endTime, allowance, cycles, k) == None
  }

  lemma RelativeNext(cfg: Config, start: real, cycles: seq<Cycle>, k: nat)
    requires k < |cycles| && forall c :: c in cycles[..k + 1] ==> c.yaw.Some?
    ensures forall c :: c in cycles[..k] ==> c.yaw.Some?
    ensures Relative(cfg.pi, start, Yaws(cycles[..k + 1]))
         == Relative(cfg.pi, start, Yaws(cycles[..k]))
            + DeltaYaw(cfg.pi, if k == 0 then start else cycles[k - 1].yaw.value, cycles[k].yaw.value)
  {
    hide DeltaYaw;
    assert cycles[..k + 1][..k] == cycles[..k];
    forall c | c in cycles[..k] ensures c.yaw.Some? {
      assert c in cycles[..k + 1];
    }
    assert Yaws(cycles[..k + 1])[..k] == Yaws(cycles[..k]);
  }

  class Spin {
    const cfg: Config
    var cmdYaw: real
    var prevYaw: real
    var relativeYaw: real
    var timeAllowance: real
    var endTime: real

    constructor (cfg: Config)
      requires cfg.frequency > 0.0
      ensures this.cfg == cfg && relativeYaw == 0.0
    {
      this.cfg := cfg;
      cmdYaw, prevYaw, relativeYaw, timeAllowance, endTime := 0.0, 0.0, 0.0, 0.0, 0.0;
    }

    method OnRun(targetYaw: real, allowance: real, now: real, yaw: Option<real>) returns (status: Status)
      modifies this
      ensures status == if yaw.Some? then Succeeded else Failed
      ensures yaw.Some? ==> prevYaw == yaw.value && relativeYaw == 0.0 && cmdYaw == targetYaw
                            && timeAllowance == allowance && endTime == now + allowance
      ensures yaw.None? ==> unchanged(this)
    {
      if yaw == None {
        return Failed;
      }
      prevYaw, relativeYaw, cmdYaw := yaw.value, 0.0, targetYaw;
      timeAllowance, endTime := allowance, now + allowance;
      return Succeeded;
    }

    /** One cycle. The second result is the published angular velocity, the third whether the robot is
        stopped. */
    method OnCycleUpdate(now: real, yaw: Option<real>, free: Checker)
      returns (status: Status, published: Option<real>, stopped: bool)
      requires cfg.frequency > 0.0
      modifies this`relativeYaw, this`prevYaw
      ensures old(TimedOut(now)) || yaw.None? ==> status == Failed && published == None && unchanged(this)
      ensures stopped <==> old(TimedOut(now)) || (yaw.Some? && status != Running)
      ensures !old(TimedOut(now)) && yaw.Some? ==>
        var vel := CopySign(Speed(cfg, Abs(cmdYaw) - Abs(relativeYaw)), cmdYaw);
        && prevYaw == yaw.value
        && relativeYaw == old(relativeYaw) + DeltaYaw(cfg.pi, old(prevYaw), yaw.value)
        && (status == Succeeded <==> Abs(cmdYaw) - Abs(relativeYaw) < 0.000001)
        && (status == Failed <==> status != Succeeded && !AheadIsFree(cfg, free, relativeYaw, vel, yaw.value))
        && published == (if status == Running then Some(vel) else None)
        && Abs(vel) == Abs(Speed(cfg, Abs(cmdYaw) - Abs(relativeYaw)))
        && (cmdYaw < 0.0 ==> vel <= 0.0) && (cmdYaw >= 0.0 ==> vel >= 0.0)
    {
      published, stopped := None, false;
      if endTime - now < 0.0 && timeAllowance > 0.0 {
        stopped := true;
        return Failed, None, stopped;
      }
      if yaw == None {
        return Failed, None, false;
      }
      var currentYaw := yaw.value;
      var deltaYaw := currentYaw - prevYaw;
      if Abs(deltaYaw) > cfg.pi {
        deltaYaw := CopySign(2.0 * cfg.pi - Abs(deltaYaw), prevYaw);
      }
      relativeYaw := relativeYaw + deltaYaw;
      prevYaw := currentYaw;
      var remaining := Abs(cmdYaw) - Abs(relativeYaw);
      if remaining < 0.000001 {
        return Succeeded, None, true;
      }
      var vel := cfg.sqrt(BrakingSq(cfg, remaining));
      vel := Min(Max(vel, cfg.minVel), cfg.maxVel);
      var signed := CopySign(vel, cmdYaw);
      var ok := IsCollisionFree(cfg, free, relativeYaw, signed, currentYaw);
      if !ok {
        return Failed, None, true;
      }
      return Running, Some(signed), false;
    }

    /** The action server's loop: m cycles leave it running, and the next one ends it. n counts the cycles
        whose heading has been accumulated. */
    method Execute(enabled: bool, targetYaw: real, allowance: real, now: real, yaw: Option<real>, cycles: seq<Cycle>)
      returns (end: End, ghost n: nat, ghost m: nat)
      requires cfg.frequency > 0.0
      modifies this
      ensures end == Refused <==> !enabled || yaw.None?
      ensures end != Refused ==>
        && m <= |cycles| && Keeps(cfg, targetYaw, yaw.value, now + allowance, allowance, cycles, m)
        && Some(end) == (if m == |cycles| then Some(ShutDown)
                         else EndAt(cfg, targetYaw, yaw.value, now + allowance, allowance, cycles, m))
      ensures n <= |cycles| && forall c :: c in cycles[..n] ==> c.yaw.Some?
      ensures end != Refused ==> relativeYaw == Relative(cfg.pi, yaw.value, Yaws(cycles[..n])) && m <= n <= m + 1
      ensures end == Finished(Succeeded) ==> n == m + 1 && Missing(cfg, targetYaw, yaw.value, cycles, n) < 0.000001
    {
      hide DeltaYaw, Speed, AheadIsFree, Relative, EndAt, Missing, Keeps, Yaws;
      n, m := 0, 0;
      if !enabled {
        return Refused, 0, 0;
      }
      var status := OnRun(targetYaw, allowance, now, yaw);
      if status != Succeeded {
        return Refused, 0, 0;
      }
      NoCycles(cfg, targetYaw, yaw.value, now + allowance, allowance, cycles);
      var i := 0;
      while i < |cycles|
        invariant n == m == i <= |cycles| && forall c :: c in cycles[..i] ==> c.yaw.Some?
        invariant cmdYaw == targetYaw && prevYaw == if i == 0 then yaw.value else cycles[i - 1].yaw.value
        invariant timeAllowance == allowance && endTime == now + allowance
        invariant relativeYaw == Relative(cfg.pi, yaw.value, Yaws(cycles[..i]))
        invariant Keeps(cfg, targetYaw, yaw.value, now + allowance, allowance, cycles, i)
      {
        ghost var rel := relativeYaw + if cycles[i].yaw.Some? then DeltaYaw(cfg.pi, prevYaw, cycles[i].yaw.value) else 0.0;
        CycleEnds(cfg, targetYaw, yaw.value, now + allowance, allowance, cycles, i, rel);
        if cycles[i].cancel {
          return Cancelled, n, m;
        }
        if cycles[i].preempt {
          return Preempted, n, m;
        }
        ghost var failed := TimedOut(cycles[i].now) || cycles[i].yaw.None?;
        var published, stopped;
        status, published, stopped := OnCycleUpdate(cycles[i].now, cycles[i].yaw, cycles[i].free);
        if !failed {
          n := n + 1;
        }
        if status != Running {
          return Finished(status), n, m;
        }
        KeepsNext(cfg, targetYaw, yaw.value, now + allowance, allowance, cycles, i);
        i, m := i + 1, m + 1;
      }
      end := ShutDown;
    }

    predicate TimedOut(now: real)
      reads this
    {
      endTime - now < 0.0 && timeAllowance > 0.0
    }
  }

  lemma NoCycles(cfg: Config, targetYaw: real, start: real, endTime: real, allowance: real, cycles: seq<Cycle>)
    requires cfg.frequency > 0.0
    ensures cycles[..0] == [] && Yaws(cycles[..0]) == [] && Relative(cfg.pi, start, Yaws(cycles[..0])) == 0.0
    ensures Keeps(cfg, targetYaw, start, endTime, allowance, cycles, 0)
  {
  }

  /** What a cycle decides, in terms of the turn rel that has been accumulated with it. */
  lemma CycleEnds(cfg: Config, targetYaw: real, start: real, endTime: real, allowance: real, cycles: seq<Cycle>,
                  k: nat, rel: real)
    requires k < |cycles| && cfg.frequency > 0.0 && forall c :: c in cycles[..k] ==> c.yaw.Some?
    requires cycles[k].yaw.Some? ==>
      rel == Relative(cfg.pi, start, Yaws(cycles[..k]))
             + DeltaYaw(cfg.pi, if k == 0 then start else cycles[k - 1].yaw.value, cycles[k].yaw.value)
    ensures cycles[k].yaw.Some? ==>
      && (forall c :: c in cycles[..k + 1] ==> c.yaw.Some?)
      && Relative(cfg.pi, start, Yaws(cycles[..k + 1])) == rel
      && Missing(cfg, targetYaw, start, cycles, k + 1) == Abs(targetYaw) - Abs(rel)
    ensures var c := cycles[k];
      EndAt(cfg, targetYaw, start, endTime, allowance, cycles, k) ==
        if c.cancel then Some(Cancelled)
        else if c.preempt then Some(Preempted)
        else if (endTime < c.now && allowance > 0.0) || c.yaw.None? then Some(Finished(Failed))
        else if Abs(targetYaw) - Abs(rel) < 0.000001 then Some(Finished(Succeeded))
        else if !AheadIsFree(cfg, c.free, rel, CopySign(Speed(cfg, Abs(targetYaw) - Abs(rel)), targetYaw), c.yaw.value)
        then Some(Finished(Failed))
        else None
  {
    hide DeltaYaw, Speed, AheadIsFree, Relative, Yaws;
    assert cycles[..k + 1] == cycles[..k] + [cycles[k]];
    if cycles[k].yaw.Some? {
      RelativeNext(cfg, start, cycles, k);
    }
  }

  lemma KeepsNext(cfg: Config, targetYaw: real, start: real, endTime: real, allowance: real, cycles: seq<Cycle>, k: nat)
    requires k < |cycles| && cfg.frequency > 0.0 && cycles[k].yaw.Some?
    requires Keeps(cfg, targetYaw, start, endTime, allowance, cycles, k)
    requires EndAt(cfg, targetYaw, start, endTime, allowance, cycles, k) == None
    ensures Keeps(cfg, targetYaw, start, endTime, allowance, cycles, k + 1)
  {
    hide EndAt;
    assert cycles[..k + 1] == cycles[..k] + [cycles[k]];
  }

  // ---- Unwrapping ----

  function Turns(pi: real, k: int): real { k as real * (2.0 * pi) }

  /** yaw is the heading h wrapped to [-pi, pi]. */
  ghost predicate WrapOf(pi: real, yaw: real, h: real) {
    -pi <= yaw <= pi && exists k: int :: h + Turns(pi, k) == yaw
  }

  lemma TurnsBound(pi: real, k: int)
    requires pi > 0.0
    ensures k >= 2 ==> Turns(pi, k) >= 4.0 * pi
    ensures k <= -2 ==> Turns(pi, k) <= -4.0 * pi
    ensures Turns(pi, 0) == 0.0 && Turns(pi, 1) == 2.0 * pi && Turns(pi, -1) == -2.0 * pi
  {
    if k >= 2 {
      assert (k - 2) as real * (2.0 * pi) >= 0.0;
    } else if k <= -2 {
      assert (-2 - k) as real * (2.0 * pi) >= 0.0;
    }
  }

  lemma TurnsDifference(pi: real, j: int, k: int)
    ensures Turns(pi, j) - Turns(pi, k) == Turns(pi, j - k)
  {
  }

  /** One cycle measures the true turn exactly when the turn is less than half a revolution, or just half
      a revolution that does not cross the seam. */
  lemma DeltaYawExactly(pi: real, prev: real, current: real, h: real, g: real)
    requires pi > 0.0 && WrapOf(pi, prev, h) && WrapOf(pi, current, g)
    ensures DeltaYaw(pi, prev, current) == g - h <==>
      Abs(g - h) < pi || (Abs(g - h) == pi && current - prev == g - h)
  {
    var j: int :| h + Turns(pi, j) == prev;
    var k: int :| g + Turns(pi, k) == current;
    TurnsDifference(pi, k, j);
    TurnsBound(pi, k - j);
    hide Turns;
    assert current - prev == (g - h) + Turns(pi, k - j);
  }

  /** The fields after a run of cycles that saw the given headings. */
  function Relative(pi: real, start: real, yaws: seq<real>): real {
    if yaws == [] then 0.0
    else
      var n := |yaws| - 1;
      Relative(pi, start, yaws[..n]) + DeltaYaw(pi, if n == 0 then start else yaws[n - 1], yaws[n])
  }

  /** The true heading before cycle i. */
  function Before(h0: real, hs: seq<real>, i: nat): real
    requires i <= |hs|
  {
    if i == 0 then h0 else hs[i - 1]
  }

  /** The headings wrap to the yaws seen, and no cycle turns by half a revolution or more. */
  ghost predicate SlowTurn(pi: real, h0: real, yaws: seq<real>, hs: seq<real>) {
    |hs| == |yaws| &&
    forall i :: 0 <= i < |yaws| ==> WrapOf(pi, yaws[i], hs[i]) && Abs(hs[i] - Before(h0, hs, i)) < pi
  }

  lemma SlowTurnPrefix(pi: real, h0: real, yaws: seq<real>, hs: seq<real>)
    requires yaws != [] && SlowTurn(pi, h0, yaws, hs)
    ensures SlowTurn(pi, h0, yaws[..|yaws| - 1], hs[..|yaws| - 1])
  {
    hide WrapOf;
    var n := |yaws| - 1;
    forall i | 0 <= i < n
      ensures WrapOf(pi, yaws[..n][i], hs[..n][i]) && Abs(hs[..n][i] - Before(h0, hs[..n], i)) < pi
    {
      assert Before(h0, hs[..n], i) == Before(h0, hs, i);
    }
  }

  lemma LastTurnIsMeasured(pi: real, start: real, h0: real, yaws: seq<real>, hs: seq<real>)
    requires pi > 0.0 && WrapOf(pi, start, h0) && yaws != [] && SlowTurn(pi, h0, yaws, hs)
    ensures var n := |yaws| - 1;
      DeltaYaw(pi, if n == 0 then start else yaws[n - 1], yaws[n]) == hs[n] - Before(h0, hs, n)
  {
    hide WrapOf, DeltaYaw;
    var n := |yaws| - 1;
    DeltaYawExactly(pi, if n == 0 then start else yaws[n - 1], yaws[n], Before(h0, hs, n), hs[n]);
  }

  /** For any number of cycles and any number of crossings of the seam: as long as the robot turns by less
      than half a revolution between cycles, relative_yaw_ is the rotation since onRun. */
  lemma {:induction false} RelativeIsRotation(pi: real, start: real, h0: real, yaws: seq<real>, hs: seq<real>)
    requires pi > 0.0 && WrapOf(pi, start, h0) && SlowTurn(pi, h0, yaws, hs)
    ensures Relative(pi, start, yaws) == Before(h0, hs, |hs|) - h0
  {
    if yaws != [] {
      var n := |yaws| - 1;
      SlowTurnPrefix(pi, h0, yaws, hs);
      LastTurnIsMeasured(pi, start, h0, yaws, hs);
      hide DeltaYaw, WrapOf, SlowTurn;
      RelativeIsRotation(pi, start, h0, yaws[..n], hs[..n]);
      assert Before(h0, hs[..n], n) == Before(h0, hs, n);
    }
  }

  /** When the behaviour reports success after such a run, the commanded angle was really turned up to a
      millionth. */
  lemma SuccessMeansTurned(pi: real, start: real, h0: real, yaws: seq<real>, hs: seq<real>, cmdYaw: real)
    requires pi > 0.0 && WrapOf(pi, start, h0) && SlowTurn(pi, h0, yaws, hs)
    requires Abs(cmdYaw) - Abs(Relative(pi, start, yaws)) < 0.000001
    ensures Abs(Before(h0, hs, |hs|) - h0) > Abs(cmdYaw) - 0.000001
  {
    RelativeIsRotation(pi, start, h0, yaws, hs);
  }

  // ---- The commanded speed ----

  /** The square root is one, where it is taken. */
  ghost predicate IsRoot(cfg: Config) { forall x :: x >= 0.0 ==> cfg.sqrt(x) >= 0.0 && Sq(cfg.sqrt(x)) == x }

  /** With ordered limits the speed respects both, and between them it is the speed from which the
      remaining angle is just enough to stop at the acceleration limit. */
  lemma SpeedIsLimited(cfg: Config, remaining: real)
    requires IsRoot(cfg) && 0.0 <= cfg.minVel <= cfg.maxVel && cfg.accLimit >= 0.0 && remaining >= 0.0
    ensures cfg.minVel <= Speed(cfg, remaining) <= cfg.maxVel
    ensures cfg.minVel < Speed(cfg, remaining) < cfg.maxVel
            ==> Sq(Speed(cfg, remaining)) == BrakingSq(cfg, remaining)
  {
    assert BrakingSq(cfg, remaining) >= 0.0;
  }

  /** Exactly when the speed is which: the upper limit from the remaining angle on at which it is not too
      fast to stop, the lower limit up to the angle at which it is, and in between the speed that needs the
      whole angle; so it never falls when more remains. */
  lemma SpeedExactly(cfg: Config, remaining: real)
    requires IsRoot(cfg) && 0.0 <= cfg.minVel < cfg.maxVel && cfg.accLimit >= 0.0 && remaining >= 0.0
    ensures var b := 2.0 * cfg.accLimit * remaining;
      && (Speed(cfg, remaining) == cfg.maxVel <==> Sq(cfg.maxVel) <= b)
      && (Speed(cfg, remaining) == cfg.minVel <==> b <= Sq(cfg.minVel))
      && (Sq(cfg.minVel) <= b <= Sq(cfg.maxVel) ==> Sq(Speed(cfg, remaining)) == b)
  {
    var b := BrakingSq(cfg, remaining);
    NonNegativeProduct(2.0 * cfg.accLimit, remaining);
    var r := cfg.sqrt(b);
    hide Sq;
    RootOrder(r, cfg.maxVel);
    RootOrder(r, cfg.minVel);
  }

  lemma RootOrder(r: real, v: real)
    requires r >= 0.0 && v >= 0.0
    ensures r < v <==> Sq(r) < Sq(v)
    ensures r == v <==> Sq(r) == Sq(v)
  {
    hide Sq;
    if r <= v {
      SquareOrder(r, v);
    } else {
      SquareOrder(v, r);
    }
  }

  lemma SpeedMonotone(cfg: Config, less: real, more: real)
    requires IsRoot(cfg) && cfg.accLimit >= 0.0 && 0.0 <= less <= more
    ensures Speed(cfg, less) <= Speed(cfg, more)
  {
    var a, b := BrakingSq(cfg, less), BrakingSq(cfg, more);
    NonNegativeProduct(2.0 * cfg.accLimit, less);
    NonNegativeProduct(2.0 * cfg.accLimit, more - less);
    assert b - a == 2.0 * cfg.accLimit * (more - less);
    hide Sq;
    RootOrder(cfg.sqrt(b), cfg.sqrt(a));
  }

  /** The look-ahead starts at the current heading and goes on by what the velocity turns in one cycle. */
  lemma SimulatedHeadings(cfg: Config, vel: real, k: nat)
    requires cfg.frequency > 0.0
    ensures SimTurn(cfg, vel, 0) == 0.0
    ensures SimTurn(cfg, vel, k + 1) == SimTurn(cfg, vel, k) + vel / cfg.frequency
  {
    QuotientSum(k as real, cfg.frequency);
    TimesSum(vel, k as real / cfg.frequency, 1.0 / cfg.frequency);
    QuotientOfOne(vel, cfg.frequency);
  }

  lemma QuotientSum(k: real, f: real)
    requires f > 0.0
    ensures (k + 1.0) / f == k / f + 1.0 / f
  {
  }

  lemma QuotientOfOne(v: real, f: real)
    requires f > 0.0
    ensures Times(v, 1.0 / f) == v / f
  {
    var q := 1.0 / f;
    assert q * f == 1.0;
    assert (v * q) * f == v;
  }
}
