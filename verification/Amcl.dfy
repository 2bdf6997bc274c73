/** AMCL's bookkeeping around its particle filter: which laser a scan belongs to, when the filter is
    updated, and which odometry is handed to the motion model. */
module Amcl {
  import opened Reals
  import opened Wrappers

  datatype Pose = Pose(x: real, y: real, yaw: real)

  /** d_thresh_, a_thresh_, and the two foreign ingredients of angle_diff: a full turn, and the wrapping
      of an angle by atan2(sin, cos). */
  datatype Config = Config(dThresh: real, aThresh: real, turn: real, normalize: real -> real)

  /** x and y are the same heading: they differ by whole turns. */
  ghost predicate SameHeading(turn: real, x: real, y: real) {
    exists k: int :: Turned(turn, x, k) == y
  }

  function Turned(turn: real, x: real, k: int): real { x + k as real * turn }

  /** Wrapping an angle keeps the heading. */
  ghost predicate Wraps(cfg: Config) {
    forall z :: SameHeading(cfg.turn, z, cfg.normalize(z))
  }

  function AngleDiff(cfg: Config, a: real, b: real): real {
    var d1 := cfg.normalize(a) - cfg.normalize(b);
    var d2 := if d1 > 0.0 then -(cfg.turn - Abs(d1)) else cfg.turn - Abs(d1);
    if Abs(d1) < Abs(d2) then d1 else d2
  }

  function StripLeadingSlash(frame: string): string {
    if frame != "" && frame[0] == '/' then frame[1..] else frame
  }

  /** lasers_ (of each, the scanner whose pose it was given, if any), lasers_update_ (one flag per laser),
      frame_to_laser_, pf_odom_pose_, pf_init_, force_update_. */
  datatype State = State(lasers: seq<Option<string>>, updates: seq<bool>, frames: map<string, int>, odomPose: Pose,
                         pfInit: bool, force: bool)

  datatype Event =
    | Scan(frame: string, scannerKnown: bool, odom: Option<Pose>, updateOk: bool)
    | Reinitialize
    | ResetFilter
    | ClearLasers
    | NoMotionUpdate

  function Delta(cfg: Config, s: State, pose: Pose): Pose {
    Pose(pose.x - s.odomPose.x, pose.y - s.odomPose.y, AngleDiff(cfg, pose.yaw, s.odomPose.yaw))
  }

  predicate ShouldUpdate(cfg: Config, s: State, d: Pose) {
    Abs(d.x) > cfg.dThresh || Abs(d.y) > cfg.dThresh || Abs(d.yaw) > cfg.aThresh || s.force
  }

  function AllTrue(n: nat): seq<bool> { seq(n, _ => true) }

  // ---- The registry of scanners ----

  /** The laser at the index is given the pose of the frame's scanner. */
  function Placed(lasers: seq<Option<string>>, index: nat, frame: string): (placed: seq<Option<string>>)
    ensures |placed| == |lasers|
  {
    if index < |lasers| then lasers[index := Some(StripLeadingSlash(frame))] else lasers
  }

  /** The scanner's index, and the state after it was looked up or added; None when its pose on the robot
      is not known. */
  function Register(s: State, frame: string, scannerKnown: bool): (r: (State, Option<int>)) {
    if StripLeadingSlash(frame) !in s.frames then
      var t := s.(lasers := s.lasers + [None], updates := s.updates + [true]);
      if scannerKnown
      then (t.(frames := s.frames[frame := |s.frames|], lasers := Placed(t.lasers, |s.frames|, frame)), Some(|s.frames|))
      else (t, None)
    else if frame in s.frames then (s, Some(s.frames[frame]))
    else (s.(frames := s.frames[frame := 0]), Some(0)) // operator[] inserts a zero
  }

  /** The scan's index is one of lasers_ and lasers_update_. */
  predicate Defined(s: State, e: Event) {
    e.Scan? ==>
      var r := Register(s, e.frame, e.scannerKnown);
      r.1.Some? ==> 0 <= r.1.value < |r.0.updates|
  }

  // ---- One scan ----

  /** The flags once odometry has been looked at. */
  function Flagged(cfg: Config, s: State, pose: Pose): State {
    if !s.pfInit then s.(odomPose := pose, pfInit := true, updates := AllTrue(|s.updates|))
    else s.(updates := if ShouldUpdate(cfg, s, Delta(cfg, s, pose)) then AllTrue(|s.updates|) else s.updates,
            force := false)
  }

  function Updated(s: State, index: int, pose: Pose): State
    requires 0 <= index < |s.updates|
  {
    s.(updates := s.updates[index := false], odomPose := pose)
  }

  /** A scan of a known laser with known odometry. */
  function Tracked(cfg: Config, s: State, index: int, pose: Pose, updateOk: bool): State
    requires 0 <= index < |s.updates|
  {
    var u := Flagged(cfg, s, pose);
    if u.updates[index] && updateOk then Updated(u, index, pose) else u
  }

  /** What it hands to the motion model. */
  function TrackedMotion(cfg: Config, s: State, index: int, pose: Pose): Option<Pose>
    requires 0 <= index < |s.updates|
  {
    if s.pfInit && Flagged(cfg, s, pose).updates[index] then Some(Delta(cfg, s, pose)) else None
  }

  function Step(cfg: Config, s: State, e: Event): State
    requires Defined(s, e)
  {
    match e
    case Scan(frame, known, odom, updateOk) =>
      var (t, index) := Register(s, frame, known);
      if index.None? || odom.None? then t else Tracked(cfg, t, index.value, odom.value, updateOk)
    case Reinitialize => s.(pfInit := false)
    case ResetFilter => s.(pfInit := false, odomPose := Pose(0.0, 0.0, 0.0))
    case ClearLasers => s.(lasers := [], updates := [], frames := map[])
    case NoMotionUpdate => s.(force := true)
  }

  /** The odometry handed to the motion model by this event. */
  function Motion(cfg: Config, s: State, e: Event): Option<Pose>
    requires Defined(s, e)
  {
    if !e.Scan? then None
    else
      var (t, index) := Register(s, e.frame, e.scannerKnown);
      if index.None? || e.odom.None? then None else TrackedMotion(cfg, t, index.value, e.odom.value)
  }

  // ---- The node ----

  class AmclNode {
    const cfg: Config
    var lasers: seq<Option<string>>
    var lasersUpdate: seq<bool>
    var frameToLaser: map<string, int>
    var pfOdomPose: Pose
    var pfInit: bool
    var forceUpdate: bool

    function Value(): State
      reads this
    {
      State(lasers, lasersUpdate, frameToLaser, pfOdomPose, pfInit, forceUpdate)
    }

    ghost predicate Valid()
      reads this
    {
      |lasers| == |lasersUpdate|
    }

    constructor (cfg: Config)
      ensures Valid() && this.cfg == cfg
      ensures Value() == START
    {
      this.cfg := cfg;
      lasers, lasersUpdate, frameToLaser := [], [], map[];
      pfOdomPose, pfInit, forceUpdate := Pose(0.0, 0.0, 0.0), false, false;
    }

    method AddNewScanner(frame: string, scannerKnown: bool) returns (index: Option<int>)
      requires Valid() && StripLeadingSlash(frame) !in frameToLaser
      requires scannerKnown ==> |frameToLaser| <= |lasers|
      modifies this`lasers, this`lasersUpdate, this`frameToLaser
      ensures Valid() && (Value(), index) == Register(old(Value()), frame, scannerKnown)
    {
      lasers, lasersUpdate := lasers + [None], lasersUpdate + [true];
      var laserIndex := |frameToLaser|;
      if !scannerKnown {
        return None;
      }
      lasers := lasers[laserIndex := Some(StripLeadingSlash(frame))];
      frameToLaser := frameToLaser[frame := laserIndex];
      return Some(laserIndex);
    }

    method ShouldUpdateFilter(pose: Pose) returns (update: bool, delta: Pose)
      ensures delta == Delta(cfg, Value(), pose) && update == ShouldUpdate(cfg, Value(), delta)
    {
      delta := Pose(pose.x - pfOdomPose.x, pose.y - pfOdomPose.y, AngleDiff(cfg, pose.yaw, pfOdomPose.yaw));
      update := Abs(delta.x) > cfg.dThresh || Abs(delta.y) > cfg.dThresh || Abs(delta.yaw) > cfg.aThresh;
      update := update || forceUpdate;
    }

    method UpdateFilter(index: int, pose: Pose, transformOk: bool) returns (ok: bool)
      requires 0 <= index < |lasersUpdate| && Valid()
      modifies this`lasersUpdate, this`pfOdomPose
      ensures ok == transformOk && Valid()
      ensures Value() == if ok then Updated(old(Value()), index, pose) else old(Value())
    {
      if !transformOk {
        return false;
      }
      lasersUpdate := lasersUpdate[index := false];
      pfOdomPose := pose;
      return true;
    }

    method SetAllFlags()
      modifies this`lasersUpdate
      ensures lasersUpdate == AllTrue(|old(lasersUpdate)|)
    {
      var i := 0;
      while i < |lasersUpdate|
        invariant 0 <= i <= |lasersUpdate| == |old(lasersUpdate)|
        invariant forall k :: 0 <= k < i ==> lasersUpdate[k]
      {
        lasersUpdate := lasersUpdate[i := true];
        i := i + 1;
      }
    }

    /** laserReceived from the odometry pose on. */
    method TrackScan(laserIndex: int, pose: Pose, updateOk: bool) returns (motion: Option<Pose>)
      requires Valid() && 0 <= laserIndex < |lasersUpdate|
      modifies this`lasersUpdate, this`pfOdomPose, this`pfInit, this`forceUpdate
      ensures Valid() && Value() == Tracked(cfg, old(Value()), laserIndex, pose, updateOk)
      ensures motion == TrackedMotion(cfg, old(Value()), laserIndex, pose)
    {
      hide AngleDiff, ShouldUpdate, Delta;
      motion := None;
      if !pfInit {
        pfOdomPose := pose;
        pfInit := true;
        SetAllFlags();
      } else {
        var update, delta := ShouldUpdateFilter(pose);
        if update {
          SetAllFlags();
        }
        if lasersUpdate[laserIndex] {
          motion := Some(delta);
        }
        forceUpdate := false;
      }
      if lasersUpdate[laserIndex] {
        var _ := UpdateFilter(laserIndex, pose, updateOk);
      }
    }

    /** A scan; it is no event for a node that is not active or has no map yet. */
    method LaserReceived(active: bool, firstMapReceived: bool,
                         frame: string, scannerKnown: bool, odom: Option<Pose>, updateOk: bool)
      returns (motion: Option<Pose>)
      requires Valid()
      requires active && firstMapReceived ==> Defined(Value(), Scan(frame, scannerKnown, odom, updateOk))
      modifies this
      ensures Valid()
      ensures active && firstMapReceived ==>
        && Value() == Step(cfg, old(Value()), Scan(frame, scannerKnown, odom, updateOk))
        && motion == Motion(cfg, old(Value()), Scan(frame, scannerKnown, odom, updateOk))
      ensures !active || !firstMapReceived ==> Value() == old(Value()) && motion == None
    {
      hide Tracked, TrackedMotion, StripLeadingSlash;
      motion := None;
      if !active || !firstMapReceived {
        return;
      }
      var index: Option<int>;
      if StripLeadingSlash(frame) !in frameToLaser {
        index := AddNewScanner(frame, scannerKnown);
        if index == None {
          return;
        }
      } else {
        if frame !in frameToLaser {
          frameToLaser := frameToLaser[frame := 0];
        }
        index := Some(frameToLaser[frame]);
      }
      if odom == None {
        return;
      }
      motion := TrackScan(index.value, odom.value, updateOk);
    }

    /** handleInitialPose and globalLocalizationCallback, as far as they concern odometry. */
    method HandleInitialPose()
      modifies this`pfInit
      ensures Value() == Step(cfg, old(Value()), Reinitialize)
    {
      pfInit := false;
    }

    method InitParticleFilter()
      modifies this`pfInit, this`pfOdomPose
      ensures Value() == Step(cfg, old(Value()), ResetFilter)
    {
      pfInit := false;
      pfOdomPose := Pose(0.0, 0.0, 0.0);
    }

    method FreeMapDependentMemory()
      modifies this`lasers, this`lasersUpdate, this`frameToLaser
      ensures Valid() && Value() == Step(cfg, old(Value()), ClearLasers)
    {
      lasers, lasersUpdate, frameToLaser := [], [], map[];
    }

    method NomotionUpdateCallback()
      modifies this`forceUpdate
      ensures Value() == Step(cfg, old(Value()), NoMotionUpdate)
    {
      forceUpdate := true;
    }
  }

  // ---- Scanners over whole runs ----

  const START := State([], [], map[], Pose(0.0, 0.0, 0.0), false, false)

  function Run(cfg: Config, s: State, es: seq<Event>): Option<State> {
    if es == [] then Some(s)
    else
      var p := Run(cfg, s, es[..|es| - 1]);
      if p.None? || !Defined(p.value, es[|es| - 1]) then None else Some(Step(cfg, p.value, es[|es| - 1]))
  }

  /** Every registered frame has its own index, every index has a laser, and all frame ids are plain. */
  ghost predicate Registry(s: State) {
    |s.frames| <= |s.updates| &&
    (forall f :: f in s.frames ==> 0 <= s.frames[f] < |s.frames| && StripLeadingSlash(f) == f) &&
    forall f, g :: f in s.frames && g in s.frames && s.frames[f] == s.frames[g] ==> f == g
  }

  predicate PlainFrame(e: Event) { e.Scan? ==> StripLeadingSlash(e.frame) == e.frame }

  /** The scan stops at the unknown pose of its scanner, before the table is written. */
  predicate Unregistered(s: State, e: Event) {
    e.Scan? && !e.scannerKnown && StripLeadingSlash(e.frame) !in s.frames
  }

  /** From such a registry every event is defined, and its frame ids stay plain exactly when no other one is
      written into the table. */
  lemma RegistryExactly(cfg: Config, s: State, e: Event)
    requires Registry(s)
    ensures Defined(s, e)
    ensures Registry(Step(cfg, s, e)) <==> PlainFrame(e) || Unregistered(s, e)
  {
    hide Register, ShouldUpdate, Delta, AngleDiff;
    if e.Scan? {
      RegisterExactly(s, e.frame, e.scannerKnown);
      StepKeepsTables(cfg, s, e);
      hide Registry;
      SameTables(Register(s, e.frame, e.scannerKnown).0, Step(cfg, s, e));
    }
  }

  /** After the registration a scan only changes flags, not the tables. */
  lemma StepKeepsTables(cfg: Config, s: State, e: Event)
    requires e.Scan? && Defined(s, e)
    ensures var t := Register(s, e.frame, e.scannerKnown).0;
      Step(cfg, s, e).frames == t.frames && Step(cfg, s, e).lasers == t.lasers
      && |Step(cfg, s, e).updates| == |t.updates|
  {
    hide Register, ShouldUpdate, Delta, AngleDiff;
  }

  lemma SameTables(s: State, t: State)
    requires t.frames == s.frames && |t.updates| == |s.updates|
    ensures Registry(t) <==> Registry(s)
  {
  }

  lemma RegisterExactly(s: State, frame: string, scannerKnown: bool)
    requires Registry(s)
    ensures var r := Register(s, frame, scannerKnown);
      && (r.1.Some? ==> 0 <= r.1.value < |r.0.updates|)
      && (Registry(r.0) <==>
            StripLeadingSlash(frame) == frame || (!scannerKnown && StripLeadingSlash(frame) !in s.frames))
  {
    hide StripLeadingSlash;
    var t := s.frames[frame := |s.frames|];
    assert frame !in s.frames ==> |t| == |s.frames| + 1;
    var r := Register(s, frame, scannerKnown);
    if StripLeadingSlash(frame) != frame {
      assert frame !in s.frames;
      assert scannerKnown || StripLeadingSlash(frame) in s.frames ==> frame in r.0.frames;
    }
  }

  /** With frame ids that carry no leading slash, no run of any length uses an index without a laser, and
      different frames never share one. */
  lemma {:induction false} ScannersAlwaysDefined(cfg: Config, es: seq<Event>)
    requires forall e :: e in es ==> PlainFrame(e)
    ensures Run(cfg, START, es).Some? && Registry(Run(cfg, START, es).value)
  {
    if es != [] {
      ScannersAlwaysDefined(cfg, es[..|es| - 1]);
      RegistryExactly(cfg, Run(cfg, START, es[..|es| - 1]).value, es[|es| - 1]);
    }
  }

  // ---- Exactly when the table stays sound, for any frame ids ----

  /** Every table entry is the index of a laser. */
  ghost predicate InRange(s: State) { forall f :: f in s.frames ==> 0 <= s.frames[f] < |s.updates| }

  /** And no two frames share a laser. */
  ghost predicate Sound(s: State) {
    InRange(s) && forall f, g :: f in s.frames && g in s.frames && s.frames[f] == s.frames[g] ==> f == g
  }

  /** The scan is taken for the first one of its scanner, and the scanner's pose is known. */
  predicate AddsFrame(s: State, e: Event) {
    e.Scan? && e.scannerKnown && StripLeadingSlash(e.frame) !in s.frames
  }

  /** The scan's stripped frame id is in the table and its raw one is not. */
  predicate Aliases(s: State, e: Event) {
    e.Scan? && StripLeadingSlash(e.frame) in s.frames && e.frame !in s.frames
  }

  /** The index that the scan writes under its raw frame id. */
  function Written(s: State, e: Event): Option<int> {
    if AddsFrame(s, e) then Some(|s.frames|) else if Aliases(s, e) then Some(0) else None
  }

  /** What is written is the index of a laser that no other frame holds. */
  ghost predicate Safe(s: State, e: Event) {
    Written(s, e).Some? ==>
      && (AddsFrame(s, e) ==> |s.frames| <= |s.updates|)
      && forall f :: f in s.frames && f != e.frame ==> s.frames[f] != Written(s, e).value
  }

  /** While the table is in range, a scan has a laser unless it adds a frame to a table that already has
      more entries than there are lasers; and the table stays in range. */
  lemma DefinedExactly(cfg: Config, s: State, e: Event)
    requires InRange(s)
    ensures Defined(s, e) <==> !(AddsFrame(s, e) && |s.frames| > |s.updates|)
    ensures Defined(s, e) ==> InRange(Step(cfg, s, e))
  {
    hide StripLeadingSlash;
    if e.Scan? && Defined(s, e) {
      hide ShouldUpdate, Delta, AngleDiff;
      StepKeepsTables(cfg, s, e);
    }
  }

  lemma {:induction false} RunInRange(cfg: Config, es: seq<Event>)
    requires Run(cfg, START, es).Some?
    ensures InRange(Run(cfg, START, es).value)
  {
    if es != [] {
      hide Step, Defined;
      RunInRange(cfg, es[..|es| - 1]);
      DefinedExactly(cfg, Run(cfg, START, es[..|es| - 1]).value, es[|es| - 1]);
    }
  }

  /** Over every run: the next event is defined unless it adds a frame to such a table. */
  lemma RunDefinedExactly(cfg: Config, es: seq<Event>, e: Event)
    requires Run(cfg, START, es).Some?
    ensures var s := Run(cfg, START, es).value;
      Run(cfg, START, es + [e]).Some? <==> !(AddsFrame(s, e) && |s.frames| > |s.updates|)
  {
    assert (es + [e])[..|es|] == es;
    RunInRange(cfg, es);
    DefinedExactly(cfg, Run(cfg, START, es).value, e);
  }

  /** From a sound table a step is defined and leaves it sound if and only if what it writes is safe. */
  lemma SoundExactly(cfg: Config, s: State, e: Event)
    requires Sound(s)
    ensures Defined(s, e) && Sound(Step(cfg, s, e)) <==> Safe(s, e)
  {
    hide ShouldUpdate, Delta, AngleDiff, StripLeadingSlash;
    if e.Scan? {
      RegisterSoundExactly(s, e);
      if Defined(s, e) {
        StepKeepsTables(cfg, s, e);
      }
    }
  }

  lemma RegisterSoundExactly(s: State, e: Event)
    requires Sound(s) && e.Scan?
    ensures Defined(s, e) && Sound(Register(s, e.frame, e.scannerKnown).0) <==> Safe(s, e)
  {
    hide StripLeadingSlash;
    var t := Register(s, e.frame, e.scannerKnown).0;
    if w :| Written(s, e) == Some(w) {
      assert t.frames == s.frames[e.frame := w];
      if f :| f in s.frames && f != e.frame && s.frames[f] == w {
        assert f in t.frames && e.frame in t.frames && t.frames[f] == t.frames[e.frame];
      }
    }
  }

  /** From the start, after scans of "a" and "b", a scan of "/b" is served as laser 0, which is "a". */
  lemma SlashedFrameIsServedAsAnother(cfg: Config)
    ensures var s := Run(cfg, START, [Scan("a", true, None, true), Scan("b", true, None, true)]);
      s.Some? && s.value.frames == map["a" := 0, "b" := 1] && Register(s.value, "/b", true).1 == Some(0)
  {
    var d, e := Scan("a", true, None, true), Scan("b", true, None, true);
    assert StripLeadingSlash("a") == "a" && StripLeadingSlash("b") == StripLeadingSlash("/b") == "b";
    assert [d, e][..1] == [d] && [d][..0] == [];
    var s := Step(cfg, START, d);
    assert Run(cfg, START, [d]) == Some(s) && s.frames == map["a" := 0];
    assert |s.frames| == 1;
  }

  /** With a leading slash that can fail: the lookup strips it, the table does not. From the start, after
      scans of "scan" and "/scan" the next new scanner gets an index that no laser has. */
  lemma SlashedFrameBreaksRegistry(cfg: Config)
    ensures var s := Run(cfg, START, [Scan("scan", true, None, true), Scan("/scan", true, None, true)]);
      s.Some? && !Defined(s.value, Scan("b", true, None, true))
  {
    var d, e := Scan("scan", true, None, true), Scan("/scan", true, None, true);
    assert StripLeadingSlash("/scan") == StripLeadingSlash("scan") == "scan";
    assert [d, e][..1] == [d] && [d][..0] == [];
    var s := Step(cfg, START, d);
    assert Run(cfg, START, [d]) == Some(s) && s.frames == map["scan" := 0];
    var t := Step(cfg, s, e);
    assert t.frames == map["scan" := 0, "/scan" := 0];
    assert |t.frames| == 2;
  }

  // ---- Which laser serves a scan, and what the scan does to it, from the history alone ----

  /** The frames whose scanner's pose was known at a scan since the lasers were last cleared, in the order
      in which that first happened. */
  function Known(es: seq<Event>): seq<string> {
    if es == [] then []
    else
      var before := Known(es[..|es| - 1]);
      match es[|es| - 1]
      case Scan(f, known, _, _) => if known && f !in before then before + [f] else before
      case ClearLasers => []
      case _ => before
  }

  predicate PlainFrames(es: seq<Event>) { forall e :: e in es ==> PlainFrame(e) }

  /** The table holds the known frames in their order, and each laser the pose of its own frame. */
  ghost predicate Ordered(s: State, known: seq<string>) {
    && |s.lasers| == |s.updates| && |known| == |s.frames| <= |s.lasers|
    && (forall f :: f in s.frames <==> f in known)
    && (forall k :: 0 <= k < |known| ==> s.frames[known[k]] == k && s.lasers[k] == Some(known[k]))
    && (forall j, k :: 0 <= j < k < |known| ==> known[j] != known[k])
  }

  lemma {:induction false} TableByHistory(cfg: Config, es: seq<Event>)
    requires PlainFrames(es)
    ensures Run(cfg, START, es).Some? && Ordered(Run(cfg, START, es).value, Known(es))
  {
    hide Step, Defined, Ordered, StripLeadingSlash;
    ScannersAlwaysDefined(cfg, es);
    if es != [] {
      var n := |es| - 1;
      assert PlainFrame(es[n]);
      assert forall e :: e in es[..n] ==> e in es;
      TableByHistory(cfg, es[..n]);
      StepKeepsOrder(cfg, Run(cfg, START, es[..n]).value, es[n], Known(es[..n]));
    } else {
      NothingKnown();
    }
  }

  lemma NothingKnown()
    ensures Ordered(START, [])
  {
  }

  function KnownAfter(known: seq<string>, e: Event): seq<string> {
    match e
    case Scan(f, k, _, _) => if k && f !in known then known + [f] else known
    case ClearLasers => []
    case _ => known
  }

  lemma StepKeepsOrder(cfg: Config, s: State, e: Event, known: seq<string>)
    requires Ordered(s, known) && PlainFrame(e) && Defined(s, e)
    ensures Ordered(Step(cfg, s, e), KnownAfter(known, e))
  {
    if e.Scan? {
      hide Ordered, Register, KnownAfter, ShouldUpdate, Delta, AngleDiff;
      RegisterKeepsOrder(s, e, known);
      StepKeepsTables(cfg, s, e);
      SameTablesSameOrder(Register(s, e.frame, e.scannerKnown).0, Step(cfg, s, e), KnownAfter(known, e));
    }
  }

  lemma SameTablesSameOrder(s: State, t: State, known: seq<string>)
    requires Ordered(s, known) && t.frames == s.frames && t.lasers == s.lasers && |t.updates| == |s.updates|
    ensures Ordered(t, known)
  {
  }

  lemma RegisterKeepsOrder(s: State, e: Event, known: seq<string>)
    requires Ordered(s, known) && PlainFrame(e) && e.Scan?
    ensures var r := Register(s, e.frame, e.scannerKnown);
      && Ordered(r.0, KnownAfter(known, e))
      && (r.1.None? <==> e.frame !in KnownAfter(known, e))
      && (r.1.Some? ==> 0 <= r.1.value < |KnownAfter(known, e)| && KnownAfter(known, e)[r.1.value] == e.frame)
  {
    hide StripLeadingSlash;
    if e.frame in known {
      var k :| 0 <= k < |known| && known[k] == e.frame;
    } else if e.scannerKnown {
      var t := s.frames[e.frame := |s.frames|];
      assert e.frame !in s.frames;
      assert |t| == |s.frames| + 1;
    }
  }

  /** The robot has moved far enough since the last update, an update was asked for, or the filter is new. */
  predicate Due(cfg: Config, s: State, pose: Pose) {
    !s.pfInit || s.force || Abs(pose.x - s.odomPose.x) > cfg.dThresh || Abs(pose.y - s.odomPose.y) > cfg.dThresh ||
    Abs(AngleDiff(cfg, pose.yaw, s.odomPose.yaw)) > cfg.aThresh
  }

  /** The flag of laser j when the scan is looked at. */
  predicate Waiting(cfg: Config, s: State, pose: Pose, j: nat) {
    j >= |s.updates| || s.updates[j] || Due(cfg, s, pose)
  }

  /** After every run with plain frame ids, a scan of a known frame is served by the laser k that the frame
      was the k-th to be given, which holds the pose of that frame's scanner. It moves the filter exactly
      when that laser is waiting; a successful update clears that laser's flag and no other. */
  lemma ServedByOwnLaser(cfg: Config, es: seq<Event>, f: string, known: bool, pose: Pose, ok: bool, k: nat)
    requires PlainFrames(es + [Scan(f, known, Some(pose), ok)])
    requires var now := Known(es + [Scan(f, known, Some(pose), ok)]); k < |now| && now[k] == f
    ensures Run(cfg, START, es).Some? && Defined(Run(cfg, START, es).value, Scan(f, known, Some(pose), ok))
    ensures var s, e := Run(cfg, START, es).value, Scan(f, known, Some(pose), ok);
      var t := Step(cfg, s, e);
      && k < |t.lasers| == |t.updates| && t.lasers[k] == Some(f)
      && (forall j :: 0 <= j < |t.updates| ==> t.updates[j] == (Waiting(cfg, s, pose, j) && !(j == k && ok)))
      && Motion(cfg, s, e) == (if s.pfInit && Waiting(cfg, s, pose, k)
                               then Some(Pose(pose.x - s.odomPose.x, pose.y - s.odomPose.y,
                                              AngleDiff(cfg, pose.yaw, s.odomPose.yaw)))
                               else None)
      && t.odomPose == (if !s.pfInit || (Waiting(cfg, s, pose, k) && ok) then pose else s.odomPose)
      && t.pfInit && t.force == (s.force && !s.pfInit)
  {
    var e := Scan(f, known, Some(pose), ok);
    hide Run, Known, AngleDiff, StripLeadingSlash, Register, PlainFrames, Step, Motion, Waiting, Defined, Ordered;
    BeforeScan(cfg, es, e);
    var s, before := Run(cfg, START, es).value, Known(es);
    RegisterKeepsOrder(s, e, before);
    RegisterFlags(s, e);
    ServedScan(cfg, s, e, k, KnownAfter(before, e));
  }

  lemma BeforeScan(cfg: Config, es: seq<Event>, e: Event)
    requires PlainFrames(es + [e])
    ensures PlainFrame(e) && Run(cfg, START, es).Some? && Ordered(Run(cfg, START, es).value, Known(es))
    ensures Known(es + [e]) == KnownAfter(Known(es), e)
  {
    assert (es + [e])[..|es|] == es && e in es + [e];
    assert PlainFrames(es) by {
      forall x | x in es ensures PlainFrame(x) {
        assert x in es + [e];
      }
    }
    hide Run, Ordered, StripLeadingSlash;
    TableByHistory(cfg, es);
  }

  /** Looking a scanner up adds at most one laser, whose flag is set. */
  lemma RegisterFlags(s: State, e: Event)
    requires e.Scan?
    ensures var t := Register(s, e.frame, e.scannerKnown).0;
      && t.odomPose == s.odomPose && t.pfInit == s.pfInit && t.force == s.force
      && |s.updates| <= |t.updates|
      && forall j :: 0 <= j < |t.updates| ==> t.updates[j] == (j >= |s.updates| || s.updates[j])
  {
    hide StripLeadingSlash;
  }

  lemma ServedScan(cfg: Config, s: State, e: Event, k: nat, known: seq<string>)
    requires e.Scan? && e.odom.Some? && k < |known| && known[k] == e.frame
    requires var r := Register(s, e.frame, e.scannerKnown);
      && Ordered(r.0, known) && r.1.Some? && 0 <= r.1.value < |known| && known[r.1.value] == e.frame
    requires var t := Register(s, e.frame, e.scannerKnown).0;
      && t.odomPose == s.odomPose && t.pfInit == s.pfInit && t.force == s.force
      && |s.updates| <= |t.updates|
      && forall j :: 0 <= j < |t.updates| ==> t.updates[j] == (j >= |s.updates| || s.updates[j])
    ensures Defined(s, e)
    ensures var t, pose := Step(cfg, s, e), e.odom.value;
      && k < |t.lasers| == |t.updates| && t.lasers[k] == Some(e.frame)
      && (forall j :: 0 <= j < |t.updates| ==> t.updates[j] == (Waiting(cfg, s, pose, j) && !(j == k && e.updateOk)))
      && Motion(cfg, s, e) == (if s.pfInit && Waiting(cfg, s, pose, k)
                               then Some(Pose(pose.x - s.odomPose.x, pose.y - s.odomPose.y,
                                              AngleDiff(cfg, pose.yaw, s.odomPose.yaw)))
                               else None)
      && t.odomPose == (if !s.pfInit || (Waiting(cfg, s, pose, k) && e.updateOk) then pose else s.odomPose)
      && t.pfInit && t.force == (s.force && !s.pfInit)
  {
    hide AngleDiff, Register;
    assert Register(s, e.frame, e.scannerKnown).1 == Some(k);
  }

  /** The filter is never behind by more than the thresholds: after a scan of a known frame whose update
      succeeds, pf_odom_pose_ is within them of the robot's odometry pose. */
  lemma NeverFarBehind(cfg: Config, es: seq<Event>, f: string, known: bool, pose: Pose, k: nat)
    requires PlainFrames(es + [Scan(f, known, Some(pose), true)])
    requires var now := Known(es + [Scan(f, known, Some(pose), true)]); k < |now| && now[k] == f
    ensures Run(cfg, START, es).Some? && Defined(Run(cfg, START, es).value, Scan(f, known, Some(pose), true))
    ensures var t := Step(cfg, Run(cfg, START, es).value, Scan(f, known, Some(pose), true));
      t.odomPose == pose ||
      (Abs(pose.x - t.odomPose.x) <= cfg.dThresh && Abs(pose.y - t.odomPose.y) <= cfg.dThresh &&
       Abs(AngleDiff(cfg, pose.yaw, t.odomPose.yaw)) <= cfg.aThresh)
  {
    hide Step, Run, Known, AngleDiff, PlainFrames;
    ServedByOwnLaser(cfg, es, f, known, pose, true, k);
  }

  /** The run ends with a scan that is served and has an odometry pose. */
  predicate EndsServed(es: seq<Event>) {
    es != [] && es[|es| - 1].Scan? && es[|es| - 1].odom.Some? && es[|es| - 1].frame in Known(es)
  }

  /** A scan has been served since the filter was last started anew. */
  predicate Started(es: seq<Event>) {
    es != [] &&
    match es[|es| - 1]
    case Reinitialize => false
    case ResetFilter => false
    case _ => EndsServed(es) || Started(es[..|es| - 1])
  }

  /** An update has been asked for, and no scan of a started filter has been served since. */
  predicate Asked(es: seq<Event>) {
    es != [] &&
    match es[|es| - 1]
    case NoMotionUpdate => true
    case _ => Asked(es[..|es| - 1]) && !(EndsServed(es) && Started(es[..|es| - 1]))
  }

  lemma StepFilter(cfg: Config, s: State, e: Event, known: seq<string>)
    requires Ordered(s, known) && PlainFrame(e) && Defined(s, e)
    ensures var t, served := Step(cfg, s, e), e.Scan? && e.odom.Some? && e.frame in KnownAfter(known, e);
      && t.pfInit == (!e.Reinitialize? && !e.ResetFilter? && (served || s.pfInit))
      && t.force == (e.NoMotionUpdate? || (s.force && !(served && s.pfInit)))
  {
    hide Register, StripLeadingSlash, AngleDiff, ShouldUpdate, Delta, Ordered;
    if e.Scan? {
      RegisterKeepsOrder(s, e, known);
      RegisterFlags(s, e);
    }
  }

  lemma {:induction false} FilterByHistory(cfg: Config, es: seq<Event>)
    requires PlainFrames(es)
    ensures Run(cfg, START, es).Some?
    ensures Run(cfg, START, es).value.pfInit == Started(es) && Run(cfg, START, es).value.force == Asked(es)
  {
    if es != [] {
      hide Known, Step, StripLeadingSlash, Ordered, Defined, PlainFrame;
      var n, e := |es| - 1, es[|es| - 1];
      assert es[..n] + [e] == es;
      TableByHistory(cfg, es);
      FilterByHistory(cfg, es[..n]);
      BeforeScan(cfg, es[..n], e);
      StepFilter(cfg, Run(cfg, START, es[..n]).value, e, Known(es[..n]));
    }
  }

  /** A scanner whose pose has not been known yet is not served. */
  lemma UnknownNotServed(cfg: Config, es: seq<Event>, f: string, odom: Option<Pose>, ok: bool)
    requires PlainFrames(es + [Scan(f, false, odom, ok)]) && f !in Known(es)
    ensures Run(cfg, START, es).Some? && Defined(Run(cfg, START, es).value, Scan(f, false, odom, ok))
    ensures var s, e := Run(cfg, START, es).value, Scan(f, false, odom, ok);
      Motion(cfg, s, e) == None && Step(cfg, s, e) == s.(lasers := s.lasers + [None], updates := s.updates + [true])
  {
    var e := Scan(f, false, odom, ok);
    BeforeScan(cfg, es, e);
    hide Tracked, TrackedMotion, Run, Known;
  }

  // ---- Odometry is conserved ----

  lemma HeadingShift(turn: real, x: real, y: real, a: real, b: real)
    requires SameHeading(turn, x, a) && SameHeading(turn, y, b)
    ensures SameHeading(turn, x + y, a + b) && SameHeading(turn, x - y, a - b)
  {
    var j: int :| Turned(turn, x, j) == a;
    var k: int :| Turned(turn, y, k) == b;
    TurnsAdd(turn, j, k);
    assert Turned(turn, x + y, j + k) == a + b;
    assert Turned(turn, x - y, j - k) == a - b;
  }

  lemma TurnsAdd(turn: real, j: int, k: int)
    ensures (j + k) as real * turn == j as real * turn + k as real * turn
    ensures (j - k) as real * turn == j as real * turn - k as real * turn
  {
  }

  lemma HeadingChain(turn: real, x: real, y: real, z: real)
    requires SameHeading(turn, x, y) && SameHeading(turn, y, z)
    ensures SameHeading(turn, x, z)
  {
    var j: int :| Turned(turn, x, j) == y;
    var k: int :| Turned(turn, y, k) == z;
    TurnsAdd(turn, j, k);
    assert Turned(turn, x, j + k) == z;
  }

  lemma OneTurn(turn: real, x: real)
    ensures SameHeading(turn, x, x) && SameHeading(turn, x, x + turn) && SameHeading(turn, x, x - turn)
  {
    assert Turned(turn, x, 0) == x && Turned(turn, x, 1) == x + turn && Turned(turn, x, -1) == x - turn;
  }

  /** angle_diff is the difference of the headings. */
  lemma AngleDiffIsDifference(cfg: Config, a: real, b: real)
    requires Wraps(cfg)
    ensures SameHeading(cfg.turn, a - b, AngleDiff(cfg, a, b))
  {
    var d := cfg.normalize(a) - cfg.normalize(b);
    HeadingShift(cfg.turn, a, b, cfg.normalize(a), cfg.normalize(b));
    OneTurn(cfg.turn, d);
    HeadingChain(cfg.turn, a - b, d, AngleDiff(cfg, a, b));
  }

  /** No angle with the same heading as a - b is nearer to zero, and angle_diff is at most half a turn. */
  lemma AngleDiffIsLeast(cfg: Config, a: real, b: real, x: real)
    requires Wraps(cfg) && WithinHalfTurn(cfg) && SameHeading(cfg.turn, a - b, x)
    ensures Abs(AngleDiff(cfg, a, b)) <= cfg.turn / 2.0
    ensures Abs(AngleDiff(cfg, a, b)) <= Abs(x)
  {
    var d := AngleDiff(cfg, a, b);
    assert -cfg.turn / 2.0 <= cfg.normalize(a) <= cfg.turn / 2.0 && -cfg.turn / 2.0 <= cfg.normalize(b) <= cfg.turn / 2.0;
    assert Abs(d) <= cfg.turn / 2.0;
    AngleDiffIsDifference(cfg, a, b);
    HeadingShift(cfg.turn, a - b, a - b, x, d);
    assert (a - b) - (a - b) == 0.0;
    var k: int :| Turned(cfg.turn, 0.0, k) == x - d;
    hide AngleDiff;
    if k != 0 {
      WholeTurns(cfg.turn, k);
    }
  }

  /** The wrapped angle is at most half a turn. */
  ghost predicate WithinHalfTurn(cfg: Config) {
    cfg.turn > 0.0 && forall z :: -cfg.turn / 2.0 <= cfg.normalize(z) <= cfg.turn / 2.0
  }

  lemma WholeTurns(turn: real, k: int)
    requires turn > 0.0 && k != 0
    ensures Abs(Turned(turn, 0.0, k)) >= turn
  {
    if k > 0 {
      assert (k - 1) as real * turn >= 0.0;
    } else {
      assert (-1 - k) as real * turn >= 0.0;
    }
  }

  /** Sums of poses, component by component. */
  function Plus(a: Pose, b: Pose): Pose { Pose(a.x + b.x, a.y + b.y, a.yaw + b.yaw) }

  const ZERO := Pose(0.0, 0.0, 0.0)

  function OrZero(p: Option<Pose>): Pose { if p.Some? then p.value else ZERO }

  /** Everything the motion model has been given along a run. */
  function Moved(cfg: Config, s: State, es: seq<Event>): Pose
    requires Run(cfg, s, es).Some?
  {
    if es == [] then ZERO
    else
      var n := |es| - 1;
      Plus(Moved(cfg, s, es[..n]), OrZero(Motion(cfg, Run(cfg, s, es[..n]).value, es[n])))
  }

  /** The part of it whose filter update failed afterwards. */
  function Repeated(cfg: Config, s: State, es: seq<Event>): Pose
    requires Run(cfg, s, es).Some?
  {
    if es == [] then ZERO
    else
      var n := |es| - 1;
      var m := OrZero(Motion(cfg, Run(cfg, s, es[..n]).value, es[n]));
      Plus(Repeated(cfg, s, es[..n]), if es[n].Scan? && !es[n].updateOk then m else ZERO)
  }

  /** The run does not start a new filter. */
  predicate SameFilter(es: seq<Event>) { forall e :: e in es ==> !e.Reinitialize? && !e.ResetFilter? }

  /** From one odometry pose to another, given is what the motion model got and again what of it was
      given because an earlier update failed; headings are compared up to whole turns. */
  ghost predicate Balanced(turn: real, before: Pose, after: Pose, given: Pose, again: Pose) {
    given.x - again.x == after.x - before.x &&
    given.y - again.y == after.y - before.y &&
    SameHeading(turn, after.yaw - before.yaw, given.yaw - again.yaw)
  }

  lemma BalanceChain(turn: real, a: Pose, b: Pose, c: Pose, m: Pose, r: Pose, n: Pose, q: Pose)
    requires Balanced(turn, a, b, m, r) && Balanced(turn, b, c, n, q)
    ensures Balanced(turn, a, c, Plus(m, n), Plus(r, q))
  {
    HeadingShift(turn, b.yaw - a.yaw, c.yaw - b.yaw, m.yaw - r.yaw, n.yaw - q.yaw);
    assert (b.yaw - a.yaw) + (c.yaw - b.yaw) == c.yaw - a.yaw;
    assert (m.yaw - r.yaw) + (n.yaw - q.yaw) == Plus(m, n).yaw - Plus(r, q).yaw;
  }

  lemma StepAccount(cfg: Config, s: State, e: Event)
    requires Defined(s, e) && s.pfInit && !e.Reinitialize? && !e.ResetFilter? && Wraps(cfg)
    ensures Step(cfg, s, e).pfInit
    ensures Balanced(cfg.turn, s.odomPose, Step(cfg, s, e).odomPose, OrZero(Motion(cfg, s, e)),
                     if e.Scan? && !e.updateOk then OrZero(Motion(cfg, s, e)) else ZERO)
  {
    OneTurn(cfg.turn, 0.0);
    if e.Scan? && e.odom.Some? {
      AngleDiffIsDifference(cfg, e.odom.value.yaw, s.odomPose.yaw);
    }
  }

  /** For any number of lasers and any run within one filter: the odometry given to the motion model adds
      up to the change of pf_odom_pose_ since the filter was initialised, plus exactly what was given
      again because an update failed. */
  lemma {:induction false} OdometryAccount(cfg: Config, s: State, es: seq<Event>)
    requires s.pfInit && SameFilter(es) && Wraps(cfg) && Run(cfg, s, es).Some?
    ensures Run(cfg, s, es).value.pfInit
    ensures Balanced(cfg.turn, s.odomPose, Run(cfg, s, es).value.odomPose, Moved(cfg, s, es), Repeated(cfg, s, es))
  {
    if es == [] {
      OneTurn(cfg.turn, 0.0);
    } else {
      hide Balanced, Wraps, Step, Motion, Defined, Plus;
      var n := |es| - 1;
      OdometryAccount(cfg, s, es[..n]);
      var p, e := Run(cfg, s, es[..n]).value, es[n];
      StepAccount(cfg, p, e);
      var m := OrZero(Motion(cfg, p, e));
      BalanceChain(cfg.turn, s.odomPose, p.odomPose, Step(cfg, p, e).odomPose,
                   Moved(cfg, s, es[..n]), Repeated(cfg, s, es[..n]), m, if e.Scan? && !e.updateOk then m else ZERO);
    }
  }

  lemma {:induction false} NothingRepeated(cfg: Config, s: State, es: seq<Event>)
    requires Run(cfg, s, es).Some? && forall e :: e in es && e.Scan? ==> e.updateOk
    ensures Repeated(cfg, s, es) == ZERO
  {
    if es != [] {
      NothingRepeated(cfg, s, es[..|es| - 1]);
    }
  }

  /** The first scan of a filter: its odometry pose is the start of the account, and nothing moves. */
  lemma FilterStart(cfg: Config, s: State, e: Event)
    requires Defined(s, e) && e.Scan? && !s.pfInit && Step(cfg, s, e).pfInit
    ensures e.odom.Some? && Step(cfg, s, e).odomPose == e.odom.value && Motion(cfg, s, e) == None
  {
  }

  /** Conservation: while every update succeeds there is neither a gap nor a double count. */
  lemma OdometryConserved(cfg: Config, s: State, start: Event, es: seq<Event>)
    requires Defined(s, start) && start.Scan? && !s.pfInit && Step(cfg, s, start).pfInit
    requires SameFilter(es) && Wraps(cfg) && Run(cfg, Step(cfg, s, start), es).Some?
    requires forall e :: e in es && e.Scan? ==> e.updateOk
    ensures start.odom.Some?
    ensures Balanced(cfg.turn, start.odom.value, Run(cfg, Step(cfg, s, start), es).value.odomPose,
                     Moved(cfg, Step(cfg, s, start), es), ZERO)
  {
    FilterStart(cfg, s, start);
    hide Balanced, Wraps, Step, Motion, Defined;
    OdometryAccount(cfg, Step(cfg, s, start), es);
    NothingRepeated(cfg, Step(cfg, s, start), es);
  }

  /** An update that fails after a movement is counted twice: the same movement is given again with the
      laser's next scan. */
  lemma FailedUpdateCountsTwice(cfg: Config, s: State, frame: string, pose: Pose)
    requires s.pfInit && frame in s.frames && StripLeadingSlash(frame) == frame && 0 <= s.frames[frame] < |s.updates|
    requires ShouldUpdate(cfg, s, Delta(cfg, s, pose))
    ensures var failed, retry := Scan(frame, true, Some(pose), false), Scan(frame, true, Some(pose), true);
      && Run(cfg, s, [failed, retry]).Some?
      && Moved(cfg, s, [failed, retry]) == Plus(Delta(cfg, s, pose), Delta(cfg, s, pose))
      && Run(cfg, s, [failed, retry]).value.odomPose == pose
  {
    var failed, retry := Scan(frame, true, Some(pose), false), Scan(frame, true, Some(pose), true);
    var es := [failed, retry];
    assert es[..1] == [failed] && [failed][..0] == [];
    assert Run(cfg, s, [failed]) == Some(Step(cfg, s, failed));
    assert Motion(cfg, s, failed) == Some(Delta(cfg, s, pose));
    var t := Step(cfg, s, failed);
    assert t.odomPose == s.odomPose && t.updates[s.frames[frame]];
    assert Motion(cfg, t, retry) == Some(Delta(cfg, s, pose));
    assert Moved(cfg, s, [failed]) == Plus(ZERO, Delta(cfg, s, pose));
  }
}
