/** Whole runs of the collision monitor's publishing protocol: when is a command kept back? */
module StopProtocol {
  import opened CollisionMonitor
  import opened Kinematics
  import opened Wrappers

  const INITIAL := Memory(false, RESET_VELOCITY, 0)

  function Run(es: seq<Event>): Memory {
    if es == [] then INITIAL else Step(Run(es[..|es| - 1]), es[|es| - 1])
  }

  // ---- The history alone, without the node's fields ----

  predicate ActiveAfter(es: seq<Event>) {
    es != [] &&
    match es[|es| - 1]
    case Activate => true
    case Deactivate => false
    case Command(_, _) => ActiveAfter(es[..|es| - 1])
  }

  /** When the current streak of zero commands began; None when the last command is not zero or none
      was handled since the last deactivation. */
  function StreakStart(es: seq<Event>): Option<int> {
    if es == [] then None
    else
      var before := es[..|es| - 1];
      match es[|es| - 1]
      case Activate => StreakStart(before)
      case Deactivate => None
      case Command(v, now) =>
        if !ActiveAfter(before) then StreakStart(before)
        else if !v.IsZero() then None
        else if StreakStart(before).Some? then StreakStart(before)
        else Some(now)
  }

  /** The last velocity that went out since the last deactivation. */
  function LastPublished(es: seq<Event>, timeout: int): Option<Velocity> {
    if es == [] then None
    else
      var before := es[..|es| - 1];
      match es[|es| - 1]
      case Activate => LastPublished(before, timeout)
      case Deactivate => None
      case Command(_, _) =>
        var out := Output(Run(before), timeout, es[|es| - 1]);
        if out.Some? then out else LastPublished(before, timeout)
  }

  lemma {:induction false} FieldsFollowHistory(es: seq<Event>)
    ensures Run(es).active == ActiveAfter(es)
    ensures Run(es).prevVel.IsZero() <==> StreakStart(es).Some?
    ensures StreakStart(es).Some? ==> Run(es).stopStamp == StreakStart(es).value
  {
    if es != [] {
      FieldsFollowHistory(es[..|es| - 1]);
    }
  }

  /** In every run, an active node keeps a command back exactly when it is zero, a streak of zero
      commands is under way, and that streak began more than the timeout ago. */
  lemma SuppressedExactly(es: seq<Event>, timeout: int, v: Velocity, now: int)
    requires ActiveAfter(es)
    ensures Output(Run(es), timeout, Command(v, now)) ==
      if v.IsZero() && StreakStart(es).Some? && now - StreakStart(es).value > timeout then None else Some(v)
  {
    FieldsFollowHistory(es);
  }

  /** During a streak what went out last is a zero, published when the streak began or later. */
  lemma {:induction false} StreakIsPublished(es: seq<Event>, timeout: int)
    requires StreakStart(es).Some?
    ensures LastPublished(es, timeout).Some? && LastPublished(es, timeout).value.IsZero()
  {
    var before := es[..|es| - 1];
    FieldsFollowHistory(before);
    if StreakStart(before).Some? {
      StreakIsPublished(before, timeout);
    }
  }

  /** Nothing but a repeated zero is ever kept back: the robot has already been told to stand still. */
  lemma SuppressedOnlyAfterZero(es: seq<Event>, timeout: int, v: Velocity, now: int)
    requires ActiveAfter(es) && Output(Run(es), timeout, Command(v, now)) == None
    ensures v.IsZero()
    ensures LastPublished(es, timeout).Some? && LastPublished(es, timeout).value.IsZero()
  {
    SuppressedExactly(es, timeout, v, now);
    StreakIsPublished(es, timeout);
  }

  /** The first zero after a deactivation, or after a command that moves, is always published. */
  lemma FirstZeroGoesOut(es: seq<Event>, timeout: int, v: Velocity, now: int)
    requires ActiveAfter(es) && StreakStart(es) == None
    ensures Output(Run(es), timeout, Command(v, now)) == Some(v)
    ensures v.IsZero() ==> StreakStart(es + [Command(v, now)]) == Some(now)
  {
    SuppressedExactly(es, timeout, v, now);
    assert (es + [Command(v, now)])[..|es|] == es;
  }

  /** A node that is not active publishes nothing and forgets nothing. */
  lemma InactiveIsSilent(es: seq<Event>, timeout: int, v: Velocity, now: int)
    requires !ActiveAfter(es)
    ensures Output(Run(es), timeout, Command(v, now)) == None
    ensures Run(es + [Command(v, now)]) == Run(es)
  {
    FieldsFollowHistory(es);
    assert (es + [Command(v, now)])[..|es|] == es;
  }
}
