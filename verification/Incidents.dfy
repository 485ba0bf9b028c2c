// The incident ledger as a value (internal/coordinator/operations.go, internal/coordinator/lifecycle.go).

/** Incidents, and what opening and closing them does to the ledger. */
module Incidents {
  import opened Wrappers
  import opened Types
  import opened Alerts
  import opened Transitions

  /** `resolvedAt` is ZERO_TIME as long as the incident is active. */
  datatype Incident = Incident(
    id: nat,
    subject: string,
    kind: Kind,
    openedAt: Time,
    resolvedAt: Time,
    active: bool,
    suppressed: bool,
    maintenance: string,
    silenceId: nat,
    acknowledgedAt: Option<Time>,
    manualResolution: bool,
    alert: Alert)

  /** Ids are handed out in order, starting with 1. */
  ghost predicate Numbered(incidents: seq<Incident>, next: nat) {
    && (forall i | 0 <= i < |incidents| :: 1 <= incidents[i].id <= next)
    && (forall i, j | 0 <= i < j < |incidents| :: incidents[i].id < incidents[j].id)
  }

  ghost predicate Timed(incidents: seq<Incident>, clock: Time) {
    forall i | 0 <= i < |incidents| ::
      && incidents[i].subject == incidents[i].alert.Subject()
      && incidents[i].kind == incidents[i].alert.kind
      && ZERO_TIME < incidents[i].openedAt <= clock
      && (!incidents[i].active ==> incidents[i].openedAt <= incidents[i].resolvedAt <= clock)
  }

  /** Outages of one subject never overlap: the earlier one is over when the later one begins. */
  ghost predicate OutagesDisjoint(incidents: seq<Incident>, subjects: set<string>) {
    forall i, j | 0 <= i < j < |incidents| && Outage(incidents[i], subjects) && Outage(incidents[j], subjects)
                  && incidents[i].subject == incidents[j].subject ::
      !incidents[i].active && incidents[i].resolvedAt <= incidents[j].openedAt
  }

  predicate Outage(incident: Incident, subjects: set<string>) {
    incident.kind == KindDown && incident.subject in subjects
  }

  /** An active outage is the newest incident of its subject, and its subject is down. */
  ghost predicate OutagesCurrent(incidents: seq<Incident>, subjects: set<string>, states: map<string, Status>) {
    forall i | 0 <= i < |incidents| && Outage(incidents[i], subjects) && incidents[i].active ::
      && incidents[i].subject in states && states[incidents[i].subject] == Down
      && forall j | i < j < |incidents| :: incidents[j].subject != incidents[i].subject
  }

  /** The ledger of the checks and components named by `subjects`, whose decided statuses are `states`. */
  ghost predicate Ledger(incidents: seq<Incident>, next: nat, subjects: set<string>, states: map<string, Status>,
                         clock: Time) {
    && Numbered(incidents, next)
    && Timed(incidents, clock)
    && OutagesDisjoint(incidents, subjects)
    && OutagesCurrent(incidents, subjects, states)
  }

  function Opened(id: nat, a: Alert, maintenance: string, silenceId: nat): Incident {
    Incident(id, a.Subject(), a.kind, a.at, ZERO_TIME, true, maintenance != "" || silenceId != 0,
             maintenance, silenceId, None, false, a)
  }

  function Closed(incident: Incident, at: Time): Incident {
    incident.(active := false, resolvedAt := at)
  }

  /** The newest active incident of the subject, or -1. */
  function LatestActive(incidents: seq<Incident>, subject: string): (i: int)
    ensures -1 <= i < |incidents|
    ensures i >= 0 ==> incidents[i].active && incidents[i].subject == subject
    ensures forall j | i < j < |incidents| :: !(incidents[j].active && incidents[j].subject == subject)
  {
    if incidents == [] then -1
    else
      var last := |incidents| - 1;
      if incidents[last].active && incidents[last].subject == subject then last
      else LatestActive(incidents[..last], subject)
  }

  lemma LedgerTick(incidents: seq<Incident>, next: nat, subjects: set<string>, states: map<string, Status>,
                   clock: Time, later: Time)
    requires Ledger(incidents, next, subjects, states, clock) && clock <= later
    ensures Ledger(incidents, next, subjects, states, later)
  {
  }

  /** What the decided status may become when an alert of this kind is raised about a check or component. */
  predicate Raises(before: Status, kind: Kind, after: Status) {
    match kind
    case KindDown => before != Down && after == Down
    case KindWarning => before in {Up, Unknown} && after == Warning
    case KindRecovered => before == Down && after in {Up, Warning}
    case KindWarningCleared => before == Warning && after == Up
    case _ => false
  }

  /** The alert is either about something else than a check or component, or matches the move of its status. */
  ghost predicate Consistent(a: Alert, subjects: set<string>, before: map<string, Status>, after: map<string, Status>) {
    if a.Subject() in subjects
    then && after == before[a.Subject() := if a.Subject() in after then after[a.Subject()] else Unknown]
         && Raises(StatusIn(before, a.Subject()), a.kind, StatusIn(after, a.Subject()))
    else after == before
  }

  function StatusIn(states: map<string, Status>, subject: string): Status {
    if subject in states then states[subject] else Unknown
  }

  lemma OpenKeepsLedger(incidents: seq<Incident>, next: nat, subjects: set<string>, before: map<string, Status>,
                        after: map<string, Status>, clock: Time, a: Alert, maintenance: string, silenceId: nat)
    requires Ledger(incidents, next, subjects, before, clock)
    requires a.at == clock && clock > ZERO_TIME && !Closes(a.kind) && Consistent(a, subjects, before, after)
    ensures Ledger(incidents + [Opened(next + 1, a, maintenance, silenceId)], next + 1, subjects, after, clock)
  {
    hide Numbered, Timed, OutagesDisjoint, OutagesCurrent, Consistent;
    var added := Opened(next + 1, a, maintenance, silenceId);
    OpenedInTime(incidents, next, clock, added);
    OpenedDisjoint(incidents, subjects, before, after, clock, a, added);
    OpenedCurrent(incidents, subjects, before, after, a, added);
  }

  lemma OpenedInTime(incidents: seq<Incident>, next: nat, clock: Time, added: Incident)
    requires Numbered(incidents, next) && Timed(incidents, clock) && clock > ZERO_TIME
    requires added.id == next + 1 && added.active && added.openedAt == clock
    requires added.subject == added.alert.Subject() && added.kind == added.alert.kind
    ensures Numbered(incidents + [added], next + 1) && Timed(incidents + [added], clock)
  {
  }

  /** A new outage begins when the subject is not down, so no earlier one is active, and all are over by now. */
  lemma OpenedDisjoint(incidents: seq<Incident>, subjects: set<string>, before: map<string, Status>,
                       after: map<string, Status>, clock: Time, a: Alert, added: Incident)
    requires Timed(incidents, clock) && OutagesDisjoint(incidents, subjects)
    requires OutagesCurrent(incidents, subjects, before)
    requires Consistent(a, subjects, before, after) && !Closes(a.kind)
    requires added.subject == a.Subject() && added.kind == a.kind && added.openedAt == clock
    ensures OutagesDisjoint(incidents + [added], subjects)
  {
    if Outage(added, subjects) {
      forall i | 0 <= i < |incidents| && Outage(incidents[i], subjects) && incidents[i].subject == added.subject
        ensures !incidents[i].active && incidents[i].resolvedAt <= clock
      {
        assert StatusIn(before, added.subject) != Down;
      }
    }
  }

  lemma OpenedCurrent(incidents: seq<Incident>, subjects: set<string>, before: map<string, Status>,
                      after: map<string, Status>, a: Alert, added: Incident)
    requires OutagesCurrent(incidents, subjects, before) && Consistent(a, subjects, before, after) && !Closes(a.kind)
    requires added.subject == a.Subject() && added.kind == a.kind
    ensures OutagesCurrent(incidents + [added], subjects, after)
  {
  }

  lemma CloseKeepsLedger(incidents: seq<Incident>, next: nat, subjects: set<string>, before: map<string, Status>,
                         after: map<string, Status>, clock: Time, a: Alert)
    requires Ledger(incidents, next, subjects, before, clock)
    requires a.at == clock && Closes(a.kind) && Consistent(a, subjects, before, after)
    ensures var i := LatestActive(incidents, a.Subject());
            Ledger(if i < 0 then incidents else incidents[i := Closed(incidents[i], clock)], next, subjects, after,
                   clock)
  {
    hide Numbered, Timed, OutagesDisjoint, OutagesCurrent;
    var i := LatestActive(incidents, a.Subject());
    if i >= 0 {
      ClosedInTime(incidents, next, clock, i);
      ClosedDisjoint(incidents, subjects, clock, i);
    }
    ClosedCurrent(incidents, subjects, before, after, clock, a);
  }

  lemma ClosedInTime(incidents: seq<Incident>, next: nat, clock: Time, i: nat)
    requires Numbered(incidents, next) && Timed(incidents, clock) && i < |incidents|
    ensures Numbered(incidents[i := Closed(incidents[i], clock)], next)
    ensures Timed(incidents[i := Closed(incidents[i], clock)], clock)
  {
  }

  lemma ClosedDisjoint(incidents: seq<Incident>, subjects: set<string>, clock: Time, i: nat)
    requires OutagesDisjoint(incidents, subjects) && i < |incidents| && incidents[i].active
    ensures OutagesDisjoint(incidents[i := Closed(incidents[i], clock)], subjects)
  {
  }

  /** The status moves away from Down only for the subject whose active outage, being its newest incident, is closed. */
  lemma ClosedCurrent(incidents: seq<Incident>, subjects: set<string>, before: map<string, Status>,
                      after: map<string, Status>, clock: Time, a: Alert)
    requires OutagesCurrent(incidents, subjects, before)
    requires Closes(a.kind) && Consistent(a, subjects, before, after)
    ensures var i := LatestActive(incidents, a.Subject());
            OutagesCurrent(if i < 0 then incidents else incidents[i := Closed(incidents[i], clock)], subjects, after)
  {
    var i := LatestActive(incidents, a.Subject());
    var less := if i < 0 then incidents else incidents[i := Closed(incidents[i], clock)];
    forall k | 0 <= k < |less| && Outage(less[k], subjects) && less[k].active
      ensures less[k].subject != a.Subject()
    {
    }
  }

  /** Any incident may be closed by hand. */
  lemma ResolveKeepsLedger(incidents: seq<Incident>, next: nat, subjects: set<string>, states: map<string, Status>,
                           clock: Time, i: nat, resolved: Incident)
    requires Ledger(incidents, next, subjects, states, clock) && i < |incidents| && incidents[i].active
    requires resolved == Closed(incidents[i], clock).(manualResolution := true)
    ensures Ledger(incidents[i := resolved], next, subjects, states, clock)
  {
  }

  /** Acknowledging an incident, or ending its suppression, is not visible to the ledger's invariants. */
  lemma AnnotateKeepsLedger(incidents: seq<Incident>, next: nat, subjects: set<string>, states: map<string, Status>,
                            clock: Time, i: nat, noted: Incident)
    requires Ledger(incidents, next, subjects, states, clock) && i < |incidents|
    requires SameCourse(incidents[i], noted)
    ensures Ledger(incidents[i := noted], next, subjects, states, clock)
  {
  }

  ghost predicate SameCourse(a: Incident, b: Incident) {
    && a.id == b.id && a.subject == b.subject && a.kind == b.kind && a.openedAt == b.openedAt
    && a.resolvedAt == b.resolvedAt && a.active == b.active && a.alert == b.alert
  }

  /** A move of a decided status without an alert is not visible to the ledger: it never involves an outage. */
  lemma QuietKeepsLedger(incidents: seq<Incident>, next: nat, subjects: set<string>, before: map<string, Status>,
                         clock: Time, subject: string, status: Status)
    requires Ledger(incidents, next, subjects, before, clock)
    requires StatusIn(before, subject) != Down || status == Down
    ensures Ledger(incidents, next, subjects, before[subject := status], clock)
  {
  }

  /** The alerts of the state machine fit the moves of the status. */
  lemma TransitionRaises(current: Status, verdict: Status)
    ensures var (next, kind) := Transition(current, verdict);
            if kind.Some? then Raises(current, kind.value, next)
            else next == current || (current == Unknown && next == Up)
  {
  }

  // ----- what an alert does to the ledger -----

  /** An alert opens an incident, or closes the newest active one of its subject. */
  ghost predicate Recorded(before: seq<Incident>, after: seq<Incident>, a: Alert) {
    if Closes(a.kind)
    then var i := LatestActive(before, a.Subject());
         after == if i < 0 then before else before[i := Closed(before[i], a.at)]
    else && |after| == |before| + 1 && after[..|before|] == before
         && var added := after[|before|];
            added == Opened(added.id, a, added.maintenance, added.silenceId)
  }

  ghost predicate HasActive(incidents: seq<Incident>, subject: string) {
    exists i :: 0 <= i < |incidents| && ActiveOn(incidents[i], subject)
  }

  ghost predicate TwoActive(incidents: seq<Incident>, subject: string) {
    exists i, j :: 0 <= i < j < |incidents| && ActiveOn(incidents[i], subject) && ActiveOn(incidents[j], subject)
  }

  predicate ActiveOn(incident: Incident, subject: string) {
    incident.active && incident.subject == subject
  }

  /** A recovery leaves an incident of its subject open exactly if there were two. */
  lemma RecoveryLeavesOpen(before: seq<Incident>, after: seq<Incident>, a: Alert)
    requires Closes(a.kind) && Recorded(before, after, a)
    ensures HasActive(after, a.Subject()) <==> TwoActive(before, a.Subject())
  {
    var s, i := a.Subject(), LatestActive(before, a.Subject());
    if HasActive(after, s) {
      var k :| 0 <= k < |after| && ActiveOn(after[k], s);
      assert ActiveOn(before[k], s) && ActiveOn(before[i], s) && k < i;
    }
    if TwoActive(before, s) {
      var k, l :| 0 <= k < l < |before| && ActiveOn(before[k], s) && ActiveOn(before[l], s);
      assert ActiveOn(after[k], s);
    }
  }

  /**
   * Apart from the subjects in `overlapped` there is never more than one active incident, and none while the
   * subject is up or undecided.
   */
  ghost predicate Single(incidents: seq<Incident>, subjects: set<string>, states: map<string, Status>,
                         overlapped: set<string>) {
    forall s | s in subjects && s !in overlapped ::
      && !TwoActive(incidents, s)
      && (StatusIn(states, s) in {Up, Unknown} ==> !HasActive(incidents, s))
  }

  /** The only way to a second active incident: an outage that begins while the warning before it is still open. */
  ghost predicate Overlaps(incidents: seq<Incident>, current: Status, kind: Kind, subject: string) {
    current == Warning && kind == KindDown && HasActive(incidents, subject)
  }

  lemma OverlapMakesTwo(before: seq<Incident>, after: seq<Incident>, a: Alert)
    requires a.kind == KindDown && Recorded(before, after, a) && HasActive(before, a.Subject())
    ensures TwoActive(after, a.Subject())
  {
    var i :| 0 <= i < |before| && ActiveOn(before[i], a.Subject());
    assert after[..|before|][i] == after[i];
    assert ActiveOn(after[i], a.Subject()) && ActiveOn(after[|before|], a.Subject());
  }

  lemma SingleOpened(before: seq<Incident>, after: seq<Incident>, a: Alert, s: string)
    requires !Closes(a.kind) && Recorded(before, after, a)
    ensures s != a.Subject() ==> (HasActive(after, s) <==> HasActive(before, s))
    ensures s != a.Subject() ==> (TwoActive(after, s) <==> TwoActive(before, s))
    ensures s == a.Subject() && !HasActive(before, s) ==> !TwoActive(after, s)
  {
    assert forall i | 0 <= i < |before| :: after[i] == after[..|before|][i];
  }

  lemma SingleClosed(before: seq<Incident>, after: seq<Incident>, s: string)
    requires |after| == |before|
    requires forall i | 0 <= i < |after| ::
               after[i].subject == before[i].subject && (after[i].active ==> before[i].active)
    ensures HasActive(after, s) ==> HasActive(before, s)
    ensures TwoActive(after, s) ==> TwoActive(before, s)
  {
    if i :| 0 <= i < |after| && ActiveOn(after[i], s) {
      assert ActiveOn(before[i], s);
    }
    if i, j :| 0 <= i < j < |after| && ActiveOn(after[i], s) && ActiveOn(after[j], s) {
      assert ActiveOn(before[i], s) && ActiveOn(before[j], s);
    }
  }

  lemma RecordKeepsSingle(incidents: seq<Incident>, more: seq<Incident>, subjects: set<string>,
                          before: map<string, Status>, after: map<string, Status>, overlapped: set<string>, a: Alert)
    requires Single(incidents, subjects, before, overlapped) && Consistent(a, subjects, before, after)
    requires Recorded(incidents, more, a)
    requires a.Subject() in subjects && Overlaps(incidents, StatusIn(before, a.Subject()), a.kind, a.Subject()) ==>
               a.Subject() in overlapped
    ensures Single(more, subjects, after, overlapped)
  {
    hide Recorded, HasActive, TwoActive;
    forall s | s in subjects && s !in overlapped
      ensures !TwoActive(more, s) && (StatusIn(after, s) in {Up, Unknown} ==> !HasActive(more, s))
    {
      if Closes(a.kind) {
        ClosedIncidents(incidents, more, a);
        SingleClosed(incidents, more, s);
        RecoveryLeavesOpen(incidents, more, a);
      } else {
        SingleOpened(incidents, more, a, s);
      }
    }
  }

  lemma ClosedIncidents(before: seq<Incident>, after: seq<Incident>, a: Alert)
    requires Closes(a.kind) && Recorded(before, after, a)
    ensures |after| == |before|
    ensures forall i | 0 <= i < |after| ::
              after[i].subject == before[i].subject && (after[i].active ==> before[i].active)
  {
  }

  /** Changes to incidents that open none keep the invariant. */
  lemma ChangeKeepsSingle(incidents: seq<Incident>, changed: seq<Incident>, subjects: set<string>,
                          states: map<string, Status>, overlapped: set<string>)
    requires Single(incidents, subjects, states, overlapped) && |changed| == |incidents|
    requires forall i | 0 <= i < |changed| ::
               changed[i].subject == incidents[i].subject && (changed[i].active ==> incidents[i].active)
    ensures Single(changed, subjects, states, overlapped)
  {
    forall s | s in subjects && s !in overlapped
      ensures !TwoActive(changed, s) && (StatusIn(states, s) in {Up, Unknown} ==> !HasActive(changed, s))
    {
      SingleClosed(incidents, changed, s);
    }
  }

  lemma MoreOverlapped(incidents: seq<Incident>, subjects: set<string>, states: map<string, Status>,
                       overlapped: set<string>,
                       more: set<string>)
    requires Single(incidents, subjects, states, overlapped) && overlapped <= more
    ensures Single(incidents, subjects, states, more)
  {
  }

  /**
   * The same by fields: trouble adds an active incident that is about the alert and opened with it; its end closes
   * the newest active incident of the subject, if there is one. Nothing else changes.
   */
  ghost predicate Entered(before: seq<Incident>, after: seq<Incident>, a: Alert) {
    if Trouble(a.kind)
    then
      && |after| == |before| + 1 && after[..|before|] == before
      && var x := after[|before|];
         && (x.subject, x.kind, x.alert, x.openedAt) == (a.Subject(), a.kind, a, a.at)
         && x.active && x.acknowledgedAt == None && !x.manualResolution && x.resolvedAt == ZERO_TIME
         && (x.suppressed <==> x.maintenance != "" || x.silenceId != 0)
    else
      || (after == before && !HasActive(before, a.Subject()))
      || exists i :: NewestActive(before, a.Subject(), i)
                     && after == before[i := before[i].(active := false, resolvedAt := a.at)]
  }

  predicate Trouble(kind: Kind) {
    match kind
    case KindDown | KindWarning | KindSilent | KindIsolated | KindUnwatched | KindWatchLost => true
    case _ => false
  }

  ghost predicate NewestActive(incidents: seq<Incident>, subject: string, i: int) {
    && 0 <= i < |incidents| && ActiveOn(incidents[i], subject)
    && forall j | i < j < |incidents| :: !ActiveOn(incidents[j], subject)
  }

  lemma RecordedExactly(before: seq<Incident>, after: seq<Incident>, a: Alert)
    ensures Recorded(before, after, a) <==> Entered(before, after, a)
  {
    assert Trouble(a.kind) <==> !Closes(a.kind);
    if Closes(a.kind) {
      var i := LatestActive(before, a.Subject());
      assert i >= 0 ==> NewestActive(before, a.Subject(), i);
    } else if Entered(before, after, a) {
      var x := after[|before|];
      assert x == Opened(x.id, a, x.maintenance, x.silenceId);
    }
  }

  lemma RecordedSize(before: seq<Incident>, after: seq<Incident>, a: Alert)
    requires Recorded(before, after, a)
    ensures |after| == if Closes(a.kind) then |before| else |before| + 1
  {
  }

  lemma QuietKeepsSingle(incidents: seq<Incident>, subjects: set<string>, before: map<string, Status>,
                         overlapped: set<string>,
                         subject: string, status: Status)
    requires Single(incidents, subjects, before, overlapped)
    requires status == StatusIn(before, subject) || (StatusIn(before, subject) == Unknown && status == Up)
    ensures Single(incidents, subjects, before[subject := status], overlapped)
  {
    hide HasActive, TwoActive;
  }
}
