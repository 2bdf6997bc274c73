/** slam_toolbox's callbacks as atomic steps: which way a scan is processed, at which pose it enters the
    graph, and how an old session is joined to a new odometry frame. */
module SlamSession {
  import opened RigidTransforms
  import opened Wrappers

  datatype NodeKind = MappingNode | LocalizationNode

  datatype ProcessType = PROCESS | PROCESS_FIRST_NODE | PROCESS_NEAR_REGION | PROCESS_LOCALIZATION

  // match_type of a deserialization request.
  const UNSET := 0
  const START_AT_FIRST_NODE := 1
  const START_AT_GIVEN_POSE := 2
  const LOCALIZE_AT_POSE := 3

  /** processor_type_, process_near_pose_, first_measurement_, reprocessing_transform_, map_to_odom_. */
  datatype Session = Session(proc: ProcessType, near: Option<Transform>, first: bool,
                             reprocessing: Transform, mapToOdom: Transform)

  /** What the mapper and tf make of a scan: whether it is processed and at which corrected pose, and
      where tf has the base in the odometry frame at the scan's stamp, if it knows. */
  datatype Outcome = Outcome(processed: bool, corrected: Transform, base: Option<Transform>)

  datatype Event =
    | Scan(odom: Transform, otherChecks: bool, outcome: Outcome)
    | LocalizePose(pose: Transform)
    | Deserialize(matchType: int, emptyName: bool, readOk: bool, pose: Transform)

  datatype MapperCall = Process | ProcessAtDock | ProcessAgainstNodesNearBy | ProcessLocalization

  /** What happens to a scan; Fatal is exit(-1), NoRegion the "without a valid region request" return. */
  datatype Report = NotAdmitted | NoRegion | Fatal | Handed(call: MapperCall, pose: Transform)

  // ---- One step ----

  function Init(kind: NodeKind): Session {
    Session(if kind.LocalizationNode? then PROCESS_LOCALIZATION else PROCESS, None, true, IDENTITY, IDENTITY)
  }

  /** setTransformFromPoses. */
  function SetTransforms(s: Session, odom: Transform, out: Outcome, update: bool): Session {
    if out.base.None? then s
    else
      var baseToMap := Inverse(out.corrected);
      var odomToMap := Compose(out.base.value, baseToMap);
      s.(reprocessing := if update then Compose(Inverse(baseToMap), Inverse(odom)) else s.reprocessing,
         mapToOdom := Inverse(odomToMap))
  }

  /** getLocalizedRangeScan: the pose at which a scan enters the graph in the running session. */
  function Entered(s: Session, odom: Transform): Transform { Compose(s.reprocessing, odom) }

  /** A localization node turns to the requested region on the next scan. */
  function EffectiveType(kind: NodeKind, s: Session): ProcessType {
    if kind.LocalizationNode? && s.proc.PROCESS_LOCALIZATION? && s.near.Some? then PROCESS_NEAR_REGION else s.proc
  }

  function ScanReport(kind: NodeKind, s: Session, e: Event): Report
    requires e.Scan?
  {
    if !s.first && !e.otherChecks then NotAdmitted
    else match EffectiveType(kind, s)
      case PROCESS_NEAR_REGION => if s.near.None? then NoRegion else Handed(ProcessAgainstNodesNearBy, s.near.value)
      case PROCESS => if kind.MappingNode? then Handed(Process, Entered(s, e.odom)) else Fatal
      case PROCESS_FIRST_NODE => if kind.MappingNode? then Handed(ProcessAtDock, Entered(s, e.odom)) else Fatal
      case PROCESS_LOCALIZATION => if kind.LocalizationNode? then Handed(ProcessLocalization, Entered(s, e.odom)) else Fatal
  }

  /** The scan continues an older session in a new odometry frame. */
  predicate Rejoins(call: MapperCall) { call.ProcessAtDock? || call.ProcessAgainstNodesNearBy? }

  function ScanStep(kind: NodeKind, s: Session, e: Event): Session
    requires e.Scan?
  {
    match ScanReport(kind, s, e)
    case NotAdmitted => s
    case NoRegion => s.(first := false, proc := EffectiveType(kind, s))
    case Fatal => s.(first := false)
    case Handed(call, _) =>
      var t := s.(first := false, near := if call.ProcessAgainstNodesNearBy? then None else s.near,
                  proc := if kind.LocalizationNode? then PROCESS_LOCALIZATION else PROCESS);
      if e.outcome.processed then SetTransforms(t, e.odom, e.outcome, Rejoins(call)) else t
  }

  /** The request gets past the node's own checks and the file is read. */
  predicate Loads(kind: NodeKind, e: Event)
    requires e.Deserialize?
  {
    (kind.LocalizationNode? <==> e.matchType == LOCALIZE_AT_POSE) && e.matchType != UNSET && !e.emptyName && e.readOk
  }

  function Step(kind: NodeKind, s: Session, e: Event): Session {
    match e
    case Scan(_, _, _) => ScanStep(kind, s, e)
    case LocalizePose(pose) =>
      if kind.LocalizationNode? && s.proc.PROCESS_LOCALIZATION? then s.(near := Some(pose), first := true) else s
    case Deserialize(matchType, _, _, pose) =>
      if !Loads(kind, e) then s
      else if matchType == START_AT_FIRST_NODE then s.(first := true, proc := PROCESS_FIRST_NODE)
      else if matchType == START_AT_GIVEN_POSE then s.(first := true, proc := PROCESS_NEAR_REGION, near := Some(pose))
      else if matchType == LOCALIZE_AT_POSE then s.(first := true, proc := PROCESS_LOCALIZATION, near := Some(pose))
      else s.(first := true)
  }

  // ---- The node ----

  class Node {
    const kind: NodeKind
    var processorType: ProcessType
    var processNearPose: Option<Transform>
    var firstMeasurement: bool
    var reprocessingTransform: Transform
    var mapToOdom: Transform

    function State(): Session
      reads this
    {
      Session(processorType, processNearPose, firstMeasurement, reprocessingTransform, mapToOdom)
    }

    constructor (kind: NodeKind)
      ensures this.kind == kind && State() == Init(kind)
    {
      this.kind := kind;
      processorType := if kind == LocalizationNode then PROCESS_LOCALIZATION else PROCESS;
      processNearPose, firstMeasurement := None, true;
      reprocessingTransform, mapToOdom := IDENTITY, IDENTITY;
    }

    method SetTransformFromPoses(odomPose: Transform, outcome: Outcome, updateReprocessingTransform: bool)
      modifies this`reprocessingTransform, this`mapToOdom
      ensures State() == SetTransforms(old(State()), odomPose, outcome, updateReprocessingTransform)
    {
      var baseToMap := Inverse(outcome.corrected);
      if outcome.base == None {
        return;
      }
      var odomToMap := Compose(outcome.base.value, baseToMap);
      if updateReprocessingTransform {
        var odomToBaseSerialized := Inverse(baseToMap);
        reprocessingTransform := Compose(odomToBaseSerialized, Inverse(odomPose));
      }
      mapToOdom := Inverse(odomToMap);
    }

    /** SlamToolbox::addScan. */
    method AddScanMapping(odomPose: Transform, outcome: Outcome) returns (report: Report)
      modifies this
      ensures report == old(ScanReport(MappingNode, State().(first := true), Scan(odomPose, true, outcome)))
      ensures State()
           == old(ScanStep(MappingNode, State(), Scan(odomPose, true, outcome)).(first := firstMeasurement))
    {
      var update := false;
      var entered := Compose(reprocessingTransform, odomPose);
      match processorType {
        case PROCESS =>
          report := Handed(Process, entered);
        case PROCESS_FIRST_NODE =>
          report := Handed(ProcessAtDock, entered);
          processorType := PROCESS;
          update := true;
        case PROCESS_NEAR_REGION =>
          if processNearPose == None {
            return NoRegion;
          }
          report := Handed(ProcessAgainstNodesNearBy, processNearPose.value);
          processNearPose := None;
          update := true;
          processorType := PROCESS;
        case PROCESS_LOCALIZATION =>
          return Fatal;
      }
      if outcome.processed {
        SetTransformFromPoses(odomPose, outcome, update);
      }
    }

    /** LocalizationSlamToolbox::addScan. */
    method AddScanLocalization(odomPose: Transform, outcome: Outcome) returns (report: Report)
      modifies this
      ensures report == old(ScanReport(LocalizationNode, State().(first := true), Scan(odomPose, true, outcome)))
      ensures State()
           == old(ScanStep(LocalizationNode, State(), Scan(odomPose, true, outcome)).(first := firstMeasurement))
    {
      if processorType == PROCESS_LOCALIZATION && processNearPose != None {
        processorType := PROCESS_NEAR_REGION;
      }
      var update := false;
      var entered := Compose(reprocessingTransform, odomPose);
      match processorType {
        case PROCESS_NEAR_REGION =>
          if processNearPose == None {
            return NoRegion;
          }
          report := Handed(ProcessAgainstNodesNearBy, processNearPose.value);
          processNearPose := None;
          update := true;
          processorType := PROCESS_LOCALIZATION;
        case PROCESS_LOCALIZATION =>
          report := Handed(ProcessLocalization, entered);
        case _ =>
          return Fatal;
      }
      if outcome.processed {
        SetTransformFromPoses(odomPose, outcome, update);
      }
    }

    /** laserCallback; without an odometry pose or a laser device the scan is dropped and is no event.
        otherChecks stands for the pause, throttle, time and distance checks of shouldProcessScan. */
    method LaserCallback(odom: Option<Transform>, laserKnown: bool, otherChecks: bool, outcome: Outcome)
      returns (report: Report)
      modifies this
      ensures odom.Some? && laserKnown ==>
        && report == old(ScanReport(kind, State(), Scan(odom.value, otherChecks, outcome)))
        && State() == Step(kind, old(State()), Scan(odom.value, otherChecks, outcome))
      ensures odom.None? || !laserKnown ==> report == NotAdmitted && State() == old(State())
    {
      if odom == None || !laserKnown {
        return NotAdmitted;
      }
      var odomPose := odom.value;
      if firstMeasurement {
        firstMeasurement := false;
      } else if !otherChecks {
        return NotAdmitted;
      }
      if kind == MappingNode {
        report := AddScanMapping(odomPose, outcome);
      } else {
        report := AddScanLocalization(odomPose, outcome);
      }
    }

    method LocalizePoseCallback(pose: Transform)
      requires kind.LocalizationNode?
      modifies this
      ensures State() == Step(kind, old(State()), LocalizePose(pose))
    {
      if processorType != PROCESS_LOCALIZATION {
        return;
      }
      processNearPose := Some(pose);
      firstMeasurement := true;
    }

    method DeserializePoseGraphCallback(matchType: int, emptyName: bool, readOk: bool, pose: Transform)
      modifies this
      ensures State() == Step(kind, old(State()), Deserialize(matchType, emptyName, readOk, pose))
    {
      if (kind == LocalizationNode) != (matchType == LOCALIZE_AT_POSE) {
        return;
      }
      if matchType == UNSET || emptyName || !readOk {
        return;
      }
      firstMeasurement := true;
      if matchType == START_AT_FIRST_NODE {
        processorType := PROCESS_FIRST_NODE;
      } else if matchType == START_AT_GIVEN_POSE {
        processorType := PROCESS_NEAR_REGION;
        processNearPose := Some(pose);
      } else if matchType == LOCALIZE_AT_POSE {
        processorType := PROCESS_LOCALIZATION;
        processNearPose := Some(pose);
      }
    }
  }

  // ---- The processor-type protocol, over every run ----

  function Run(kind: NodeKind, es: seq<Event>): Session {
    if es == [] then Init(kind) else Step(kind, Run(kind, es[..|es| - 1]), es[|es| - 1])
  }

  predicate Protocol(kind: NodeKind, s: Session) {
    match kind
    case LocalizationNode => s.proc.PROCESS_LOCALIZATION? && (s.near.Some? ==> s.first)
    case MappingNode => !s.proc.PROCESS_LOCALIZATION? && (s.proc.PROCESS_NEAR_REGION? ==> s.near.Some? && s.first)
  }

  lemma {:induction false} ProtocolAlways(kind: NodeKind, es: seq<Event>)
    ensures Protocol(kind, Run(kind, es))
  {
    if es != [] {
      ProtocolAlways(kind, es[..|es| - 1]);
    }
  }

  /** The fatal branch and the branch without a valid region are never taken. */
  lemma ScansAreHandled(kind: NodeKind, es: seq<Event>, e: Event)
    requires e.Scan?
    ensures !ScanReport(kind, Run(kind, es), e).Fatal? && !ScanReport(kind, Run(kind, es), e).NoRegion?
  {
    ProtocolAlways(kind, es);
  }

  // ---- Requested poses, from the history alone ----

  /** The event asks the node to place the next scan at a pose. */
  function Requested(kind: NodeKind, e: Event): Option<Transform> {
    match e
    case Scan(_, _, _) => None
    case LocalizePose(pose) => if kind.LocalizationNode? then Some(pose) else None
    case Deserialize(m, _, _, pose) =>
      if Loads(kind, e) && (m == LOCALIZE_AT_POSE || m == START_AT_GIVEN_POSE) then Some(pose) else None
  }

  /** The event withdraws a pending request of a mapping node: start at the first node instead. */
  predicate Withdraws(kind: NodeKind, e: Event) { e.Deserialize? && Loads(kind, e) && e.matchType == START_AT_FIRST_NODE }

  /** The last request, unless a scan came after it or it was withdrawn. */
  function Pending(kind: NodeKind, es: seq<Event>): Option<Transform> {
    if es == [] then None
    else
      var e := es[|es| - 1];
      if Requested(kind, e).Some? then Requested(kind, e)
      else if e.Scan? || Withdraws(kind, e) then None
      else Pending(kind, es[..|es| - 1])
  }

  lemma {:induction false} PendingIsHeld(kind: NodeKind, es: seq<Event>)
    ensures var s := Run(kind, es);
      Pending(kind, es) == (if kind.LocalizationNode? || s.proc.PROCESS_NEAR_REGION? then s.near else None)
    ensures Pending(kind, es).Some? ==> Run(kind, es).first
  {
    if es != [] {
      PendingIsHeld(kind, es[..|es| - 1]);
      ProtocolAlways(kind, es[..|es| - 1]);
    }
  }

  /** In every run the next scan after a request is placed at the requested pose, whatever the other
      checks say, and no other scan is: each pending pose is used by exactly one scan. */
  lemma RequestUsedOnce(kind: NodeKind, es: seq<Event>, e: Event)
    requires e.Scan?
    ensures var r := ScanReport(kind, Run(kind, es), e);
      (r.Handed? && r.call.ProcessAgainstNodesNearBy? <==> Pending(kind, es).Some?) &&
      (Pending(kind, es).Some? ==> r.pose == Pending(kind, es).value)
    ensures Pending(kind, es + [e]) == None
  {
    PendingIsHeld(kind, es);
    ProtocolAlways(kind, es);
    assert (es + [e])[..|es|] == es;
  }

  /** A request is used up even by a scan that the mapper rejects; the transforms then stay as they were. */
  lemma RejectedScanUsesRequestUp(kind: NodeKind, es: seq<Event>, e: Event)
    requires e.Scan? && !e.outcome.processed && Pending(kind, es).Some?
    ensures Run(kind, es + [e]) == Run(kind, es).(near := None, first := false,
      proc := if kind.LocalizationNode? then PROCESS_LOCALIZATION else PROCESS)
  {
    RequestUsedOnce(kind, es, e);
    assert (es + [e])[..|es|] == es;
  }

  // ---- Joining sessions in SE(2) ----

  predicate RigidOutcome(e: Event)
    requires e.Scan?
  {
    Rigid(e.odom) && Rigid(e.outcome.corrected) && (e.outcome.base.Some? ==> Rigid(e.outcome.base.value))
  }

  /** The scan is accepted and tf knows the base: the transforms are set. */
  predicate Accepted(kind: NodeKind, s: Session, e: Event) {
    e.Scan? && e.outcome.processed && e.outcome.base.Some? && ScanReport(kind, s, e).Handed?
  }

  /** map_to_odom_ applied to tf's odometry pose at the scan's stamp is the corrected pose. */
  lemma MapToOdomIsExact(kind: NodeKind, s: Session, e: Event)
    requires Accepted(kind, s, e) && RigidOutcome(e)
    ensures Compose(Step(kind, s, e).mapToOdom, e.outcome.base.value) == e.outcome.corrected
  {
    var a, b := e.outcome.corrected, e.outcome.base.value;
    hide Compose, Inverse, Rigid;
    InverseRigid(a);
    InverseOfCompose(b, Inverse(a));
    InverseInverse(a);
    CancelRight(a, b);
  }

  /** The mapper accepts a scan that continues an older session. */
  predicate RejoinsSession(kind: NodeKind, s: Session, e: Event) {
    e.Scan? && e.outcome.processed && ScanReport(kind, s, e).Handed? && Rejoins(ScanReport(kind, s, e).call)
  }

  /** tf knows the base at the scan's stamp, or the old transform fits anyway. */
  predicate Joined(s: Session, e: Event)
    requires e.Scan?
  {
    e.outcome.base.Some? || Entered(s, e.odom) == e.outcome.corrected
  }

  /** Placing a scan into an older session makes reprocessing_transform_ carry its odometry pose onto the
      corrected pose if and only if tf knows the base (or it already did); then every later odometry step is
      added to the corrected pose. */
  lemma RejoinedSession(kind: NodeKind, s: Session, e: Event, step: Transform)
    requires RejoinsSession(kind, s, e) && RigidOutcome(e)
    ensures Entered(Step(kind, s, e), e.odom) == e.outcome.corrected <==> Joined(s, e)
    ensures Joined(s, e) ==> Entered(Step(kind, s, e), Compose(e.odom, step)) == Compose(e.outcome.corrected, step)
  {
    var t := Step(kind, s, e);
    hide Compose, Inverse, Rigid;
    InverseInverse(e.outcome.corrected);
    CancelRight(e.outcome.corrected, e.odom);
    ComposeAssociative(t.reprocessing, e.odom, step);
  }

  /** A scan that was to rejoin a session and is rejected, or whose tf lookup fails, uses the request up:
      both transforms stay, and no later scan rejoins without a new request. */
  lemma RequestUsedInVain(kind: NodeKind, s: Session, e: Event)
    requires Protocol(kind, s) && e.Scan? && ScanReport(kind, s, e).Handed? && Rejoins(ScanReport(kind, s, e).call)
    requires !e.outcome.processed || e.outcome.base.None?
    ensures Step(kind, s, e) == s.(first := false, proc := if kind.LocalizationNode? then PROCESS_LOCALIZATION else PROCESS,
                                   near := if ScanReport(kind, s, e).call.ProcessAtDock? then s.near else None)
    ensures forall f: Event :: f.Scan? && ScanReport(kind, Step(kind, s, e), f).Handed?
              ==> !Rejoins(ScanReport(kind, Step(kind, s, e), f).call)
  {
  }

  /** One such case from the start: the session is loaded, its first scan is accepted while tf fails, and the
      old odometry frame is still in use although the corrected pose is another one. */
  lemma SessionCanBeLost()
    ensures var far := Transform(1.0, 0.0, 1.0, 0.0);
      var s := Run(MappingNode, [Deserialize(START_AT_FIRST_NODE, false, true, IDENTITY)]);
      var scan := Scan(IDENTITY, true, Outcome(true, far, None));
      RejoinsSession(MappingNode, s, scan) && Entered(Step(MappingNode, s, scan), IDENTITY) != far
  {
    hide Compose, Inverse, Run, Rigid, Step;
    var far := Transform(1.0, 0.0, 1.0, 0.0);
    var scan := Scan(IDENTITY, true, Outcome(true, far, None));
    LoadedAtFirstNode();
    ComposeIdentity(IDENTITY);
    RigidShifts(1.0, 0.0);
    RigidShifts(0.0, 0.0);
    RejoinedSession(MappingNode, Init(MappingNode).(proc := PROCESS_FIRST_NODE), scan, IDENTITY);
  }

  lemma LoadedAtFirstNode()
    ensures Run(MappingNode, [Deserialize(START_AT_FIRST_NODE, false, true, IDENTITY)])
         == Init(MappingNode).(proc := PROCESS_FIRST_NODE)
  {
    hide Compose, Inverse, Rigid;
    var load := Deserialize(START_AT_FIRST_NODE, false, true, IDENTITY);
    assert [load][..0] == [];
    assert Run(MappingNode, []) == Init(MappingNode);
    assert Loads(MappingNode, load);
  }

  lemma RigidShifts(x: real, y: real)
    ensures Rigid(Transform(1.0, 0.0, x, y))
  {
  }

  /** When tf and the odometry source agree, both transforms of a rejoined session are the same. */
  lemma RejoinedTransformsAgree(kind: NodeKind, s: Session, e: Event)
    requires Accepted(kind, s, e) && RigidOutcome(e) && Rejoins(ScanReport(kind, s, e).call)
    requires e.outcome.base.value == e.odom
    ensures Step(kind, s, e).mapToOdom == Step(kind, s, e).reprocessing
  {
    var a := e.outcome.corrected;
    hide Compose, Inverse, Rigid;
    InverseRigid(a);
    InverseOfCompose(e.odom, Inverse(a));
  }

  function RunFrom(kind: NodeKind, s: Session, es: seq<Event>): Session {
    if es == [] then s else Step(kind, RunFrom(kind, s, es[..|es| - 1]), es[|es| - 1])
  }

  /** No scan of the run rejoins a session. */
  predicate NoRejoin(kind: NodeKind, s: Session, es: seq<Event>) {
    forall i :: 0 <= i < |es| ==>
      !(Accepted(kind, RunFrom(kind, s, es[..i]), es[i]) &&
        Rejoins(ScanReport(kind, RunFrom(kind, s, es[..i]), es[i]).call))
  }

  lemma {:induction false} ReprocessingKept(kind: NodeKind, s: Session, es: seq<Event>)
    requires NoRejoin(kind, s, es)
    ensures RunFrom(kind, s, es).reprocessing == s.reprocessing
  {
    if es != [] {
      var n := |es| - 1;
      forall i | 0 <= i < n
        ensures !(Accepted(kind, RunFrom(kind, s, es[..n][..i]), es[..n][i]) &&
                  Rejoins(ScanReport(kind, RunFrom(kind, s, es[..n][..i]), es[..n][i]).call))
      {
        assert es[..n][..i] == es[..i];
      }
      ReprocessingKept(kind, s, es[..n]);
    }
  }

  /** Session continuation over whole runs: after a scan that rejoins a session, and until the next one
      that does, a scan whose odometry has moved by step since is entered at corrected * step if and only if
      the session was joined. */
  lemma SessionContinues(kind: NodeKind, s: Session, e: Event, es: seq<Event>, next: Event, step: Transform)
    requires RejoinsSession(kind, s, e) && RigidOutcome(e)
    requires NoRejoin(kind, Step(kind, s, e), es)
    requires next.Scan? && next.odom == Compose(e.odom, step)
    ensures var r := ScanReport(kind, RunFrom(kind, Step(kind, s, e), es), next);
      r.Handed? && !r.call.ProcessAgainstNodesNearBy? ==>
        && (Joined(s, e) ==> r.pose == Compose(e.outcome.corrected, step))
        && (Rigid(step) && r.pose == Compose(e.outcome.corrected, step) ==> Joined(s, e))
  {
    RejoinedSession(kind, s, e, step);
    var t := Step(kind, s, e);
    ComposeAssociative(t.reprocessing, e.odom, step);
    hide Compose, Inverse, Rigid, Step, RejoinsSession, Joined;
    ReprocessingKept(kind, t, es);
    if Rigid(step) && Entered(t, next.odom) == Compose(e.outcome.corrected, step) {
      ComposeInjective(Entered(t, e.odom), e.outcome.corrected, step);
    }
  }

  // ---- The whole session, from the history alone ----

  /** No scan has been admitted since the start or the last accepted request. */
  predicate Fresh(kind: NodeKind, es: seq<Event>) {
    if es == [] then true
    else match es[|es| - 1]
      case Scan(_, _, _) => false
      case LocalizePose(_) => kind.LocalizationNode? || Fresh(kind, es[..|es| - 1])
      case Deserialize(_, _, _, _) => Loads(kind, es[|es| - 1]) || Fresh(kind, es[..|es| - 1])
  }

  predicate Admits(kind: NodeKind, es: seq<Event>, e: Event) { e.Scan? && (e.otherChecks || Fresh(kind, es)) }

  /** The last accepted request is to start at the first node, and no scan came after it. */
  predicate AtFirstNode(kind: NodeKind, es: seq<Event>) {
    es != [] &&
    var e := es[|es| - 1];
    !e.Scan? &&
    (Withdraws(kind, e) || (Requested(kind, e).None? && AtFirstNode(kind, es[..|es| - 1])))
  }

  /** How the next scan that is admitted is processed. */
  function NextCall(kind: NodeKind, es: seq<Event>): MapperCall {
    if Pending(kind, es).Some? then ProcessAgainstNodesNearBy
    else if AtFirstNode(kind, es) then ProcessAtDock
    else if kind.MappingNode? then Process
    else ProcessLocalization
  }

  /** The last scan that was admitted and accepted, and for which tf knew the base. */
  function LastPlaced(kind: NodeKind, es: seq<Event>): Option<Event> {
    if es == [] then None
    else
      var before, e := es[..|es| - 1], es[|es| - 1];
      if Admits(kind, before, e) && e.outcome.processed && e.outcome.base.Some? then Some(e) else LastPlaced(kind, before)
  }

  /** The last of these that continued an older session. */
  function LastJoin(kind: NodeKind, es: seq<Event>): Option<Event> {
    if es == [] then None
    else
      var before, e := es[..|es| - 1], es[|es| - 1];
      if Admits(kind, before, e) && e.outcome.processed && e.outcome.base.Some? && Rejoins(NextCall(kind, before))
      then Some(e) else LastJoin(kind, before)
  }

  lemma {:induction false} TypeByHistory(kind: NodeKind, es: seq<Event>)
    ensures Run(kind, es).first == Fresh(kind, es)
    ensures kind.MappingNode? ==> (Run(kind, es).proc.PROCESS_FIRST_NODE? <==> AtFirstNode(kind, es))
    ensures AtFirstNode(kind, es) ==> Fresh(kind, es) && Pending(kind, es).None? && kind.MappingNode?
  {
    hide Compose, Inverse, Entered;
    if es != [] {
      TypeByHistory(kind, es[..|es| - 1]);
      ProtocolAlways(kind, es[..|es| - 1]);
    }
  }

  /** What happens to a scan after any run: it is admitted exactly when the other checks pass or none has been
      since the last request, and then processed at the requested pose if one is pending, at the first node
      if that was asked for, and in the ordinary way otherwise. */
  lemma ReportByHistory(kind: NodeKind, es: seq<Event>, e: Event)
    requires e.Scan?
    ensures ScanReport(kind, Run(kind, es), e)
         == if !Admits(kind, es, e) then NotAdmitted
            else Handed(NextCall(kind, es),
                        if Pending(kind, es).Some? then Pending(kind, es).value else Compose(Run(kind, es).reprocessing, e.odom))
  {
    TypeByHistory(kind, es);
    PendingIsHeld(kind, es);
    ProtocolAlways(kind, es);
    hide Compose, Run, Pending, Fresh, AtFirstNode;
  }

  ghost predicate RigidRun(es: seq<Event>) { forall e :: e in es && e.Scan? ==> RigidOutcome(e) }

  /** Carried over by the transform, the pose is the corrected one. */
  predicate Carries(t: Transform, pose: Transform, corrected: Transform) { Compose(t, pose) == corrected }

  /** After every run map_to_odom is the identity before the first placed scan, and afterwards the transform
      that carries the tf pose of the last one onto its corrected pose; the reprocessing transform carries the
      odometry pose of the last scan that joined a session onto its corrected pose. Nothing else, rejected
      scans included, changes them. */
  lemma {:induction false} TransformsByHistory(kind: NodeKind, es: seq<Event>)
    requires RigidRun(es)
    ensures var s := Run(kind, es);
      match LastPlaced(kind, es)
      case None => s.mapToOdom == IDENTITY
      case Some(e) => e.Scan? && e.outcome.base.Some? && Carries(s.mapToOdom, e.outcome.base.value, e.outcome.corrected)
    ensures var s := Run(kind, es);
      match LastJoin(kind, es)
      case None => s.reprocessing == IDENTITY
      case Some(e) => e.Scan? && Carries(s.reprocessing, e.odom, e.outcome.corrected)
  {
    if es != [] {
      hide Compose, Inverse, Rigid, Pending, NextCall, Fresh;
      var before, e := es[..|es| - 1], es[|es| - 1];
      TransformsByHistory(kind, before);
      assert e in es;
      if e.Scan? {
        ReportByHistory(kind, before, e);
        StepTransforms(kind, Run(kind, before), e);
      }
    }
  }

  lemma StepTransforms(kind: NodeKind, s: Session, e: Event)
    requires e.Scan? && RigidOutcome(e)
    ensures var r, t := ScanReport(kind, s, e), Step(kind, s, e);
      if r.Handed? && e.outcome.processed && e.outcome.base.Some? then
        && Carries(t.mapToOdom, e.outcome.base.value, e.outcome.corrected)
        && (if Rejoins(r.call) then Carries(t.reprocessing, e.odom, e.outcome.corrected) else t.reprocessing == s.reprocessing)
      else t.mapToOdom == s.mapToOdom && t.reprocessing == s.reprocessing
  {
    if Accepted(kind, s, e) {
      MapToOdomIsExact(kind, s, e);
      hide Compose, Inverse, Rigid;
      if Rejoins(ScanReport(kind, s, e).call) {
        RejoinedSession(kind, s, e, IDENTITY);
      }
    }
  }

  /** There is only one transform that carries one rigid pose onto another. */
  lemma CarriesDetermines(t: Transform, u: Transform, pose: Transform, corrected: Transform)
    requires Rigid(pose) && Carries(t, pose, corrected) && Carries(u, pose, corrected)
    ensures t == u
  {
    hide Compose, Rigid;
    ComposeInjective(t, u, pose);
  }

  /** An ordinary scan after any run enters the graph at its own odometry pose if no session was joined, and
      otherwise as far from the corrected pose of the last joining scan as odometry has moved since. */
  lemma EnteredByHistory(kind: NodeKind, es: seq<Event>, e: Event, step: Transform)
    requires RigidRun(es) && Admits(kind, es, e) && Pending(kind, es).None?
    requires LastJoin(kind, es).Some? && LastJoin(kind, es).value.Scan? ==>
      e.odom == Compose(LastJoin(kind, es).value.odom, step)
    ensures var r := ScanReport(kind, Run(kind, es), e);
      r.Handed? &&
      match LastJoin(kind, es)
      case None => r.pose == e.odom
      case Some(j) => j.Scan? && r.pose == Compose(j.outcome.corrected, step)
  {
    TransformsByHistory(kind, es);
    ReportByHistory(kind, es, e);
    ComposeIdentity(e.odom);
    hide Run, LastPlaced, Pending, Fresh, NextCall, ScanReport;
    if LastJoin(kind, es).Some? {
      ComposeAssociative(Run(kind, es).reprocessing, LastJoin(kind, es).value.odom, step);
    }
    hide Compose;
  }
}
