// Incidents, suppression, delivery and escalation as one machine
// (internal/coordinator/operations.go, internal/coordinator/lifecycle.go, internal/coordinator/delivery.go).

/** The machine. */
module Operations {
  import opened Wrappers
  import opened Types
  import opened Sorting
  import opened Alerts
  import opened Transitions
  import opened Windows
  import opened SuppressionLaws
  import opened Incidents
  import opened Backoff
  import opened Outboxes
  import opened Escalations
  import opened Handovers

  /** A route limits its destination to matching alerts. */
  datatype Route = Route(
    destination: string,
    checks: seq<string>,
    components: seq<string>,
    probers: seq<string>,
    kinds: seq<Kind>)

  datatype Outcome = Done | ActorRequired | NotFound | Inactive

  /** One step of the machine. */
  datatype Step =
    | Verdict(about: Alert, verdict: Status, at: Time)
    | Announcement(about: Alert, at: Time)
    | Round(at: Time)
    | Acknowledgement(id: nat, actor: string, at: Time)
    | Resolution(id: nat, actor: string, at: Time)
    | Release(at: Time)
    | Edit(windows: seq<Maintenance>, silences: seq<Silence>)

  /** The verdicts on one subject among the steps. */
  function VerdictsOf(steps: seq<Step>, subject: string): seq<Status> {
    if steps == [] then []
    else
      var last := steps[|steps| - 1];
      VerdictsOf(steps[..|steps| - 1], subject)
      + if last.Verdict? && last.about.Subject() == subject then [last.verdict] else []
  }

  /** Exactly this alert was raised, at whatever time. */
  ghost predicate RaisedOne(before: seq<Alert>, after: seq<Alert>, a: Alert) {
    exists at :: after == before + [a.(at := at)]
  }

  /** A verdict moves its subject's status and raises the alert of the transition; an announcement raises its own. */
  ghost predicate Stepped(states: map<string, Status>, raised: seq<Alert>, later: map<string, Status>, more: seq<Alert>,
                          s: Step) {
    match s
    case Verdict(about, verdict, _) =>
      var (next, kind) := Transition(StatusIn(states, about.Subject()), verdict);
      && later == states[about.Subject() := next]
      && if kind.Some? then RaisedOne(raised, more, about.(kind := kind.value)) else more == raised
    case Announcement(about, _) => later == states && RaisedOne(raised, more, about)
    case _ => later == states && more == raised
  }

  /** Status and alerts of the subject are those of the state machine run on the verdicts. */
  ghost predicate Follows(states: map<string, Status>, raised: seq<Alert>, later: map<string, Status>, more: seq<Alert>,
                          verdicts: seq<Status>, subject: string) {
    && StatusIn(later, subject) == Final(StatusIn(states, subject), verdicts)
    && KindsOf(more, subject) == KindsOf(raised, subject) + Run(StatusIn(states, subject), verdicts)
  }

  lemma FollowsNothing(states: map<string, Status>, raised: seq<Alert>, subject: string)
    ensures Follows(states, raised, states, raised, [], subject)
  {
    assert KindsOf(raised, subject) + [] == KindsOf(raised, subject);
  }

  /** The status is the last conclusive verdict. */
  lemma FollowsLast(states: map<string, Status>, raised: seq<Alert>, later: map<string, Status>, more: seq<Alert>,
                    verdicts: seq<Status>, subject: string)
    requires Follows(states, raised, later, more, verdicts, subject)
    ensures StatusIn(later, subject) == if LastConclusive(verdicts) != Unknown then LastConclusive(verdicts)
                                        else StatusIn(states, subject)
  {
    FinalIsLast(StatusIn(states, subject), verdicts);
  }

  lemma NothingSaid()
    ensures forall s :: VerdictsOf([], s) == []
  {
  }

  /** From a start without alerts, outages and recoveries of a subject alternate. */
  lemma FollowsAlternates(states: map<string, Status>, raised: seq<Alert>, later: map<string, Status>, more: seq<Alert>,
                          verdicts: seq<Status>, subject: string)
    requires Follows(states, raised, later, more, verdicts, subject)
    requires KindsOf(raised, subject) == [] && StatusIn(states, subject) != Down
    ensures Alternates(Outages(KindsOf(more, subject)), KindDown)
  {
    var kinds := Run(StatusIn(states, subject), verdicts);
    assert [] + kinds == kinds;
    OutagesAlternate(StatusIn(states, subject), verdicts);
  }

  lemma FollowsStep(states: map<string, Status>, raised: seq<Alert>, later: map<string, Status>, more: seq<Alert>,
                    last: map<string, Status>, most: seq<Alert>, steps: seq<Step>, k: nat, subject: string)
    requires k < |steps| && Follows(states, raised, later, more, VerdictsOf(steps[..k], subject), subject)
    requires Stepped(later, more, last, most, steps[k])
    requires steps[k].Announcement? ==> steps[k].about.Subject() != subject
    ensures Follows(states, raised, last, most, VerdictsOf(steps[..k + 1], subject), subject)
  {
    hide Follows, Stepped;
    assert steps[..k + 1][..k] == steps[..k];
    var before, step := VerdictsOf(steps[..k], subject), steps[k];
    if step.Verdict? && step.about.Subject() == subject {
      FollowsVerdict(states, raised, later, more, last, most, before, step, subject);
    } else {
      assert before + [] == before;
      FollowsOther(states, raised, later, more, last, most, before, step, subject);
    }
  }

  lemma FollowsVerdict(states: map<string, Status>, raised: seq<Alert>, later: map<string, Status>, more: seq<Alert>,
                       last: map<string, Status>, most: seq<Alert>, before: seq<Status>, step: Step, subject: string)
    requires Follows(states, raised, later, more, before, subject) && Stepped(later, more, last, most, step)
    requires step.Verdict? && step.about.Subject() == subject
    ensures Follows(states, raised, last, most, before + [step.verdict], subject)
  {
    hide Run, Final, KindsOf, Transition, RaisedOne;
    RunAppend(StatusIn(states, subject), before, step.verdict);
    StepKinds(later, more, most, step.about, step.verdict, subject);
  }

  lemma FollowsOther(states: map<string, Status>, raised: seq<Alert>, later: map<string, Status>, more: seq<Alert>,
                     last: map<string, Status>, most: seq<Alert>, before: seq<Status>, step: Step, subject: string)
    requires Follows(states, raised, later, more, before, subject) && Stepped(later, more, last, most, step)
    requires step.Verdict? || step.Announcement? ==> step.about.Subject() != subject
    ensures Follows(states, raised, last, most, before, subject)
  {
    hide Run, Final, KindsOf, Transition, RaisedOne;
    if step.Verdict? {
      StepKinds(later, more, most, step.about, step.verdict, subject);
      assert KindsOf(more, subject) + [] == KindsOf(more, subject);
    } else if step.Announcement? {
      RaisedKinds(more, most, step.about, subject);
      assert KindsOf(more, subject) + [] == KindsOf(more, subject);
    }
  }

  lemma RaisedKinds(raised: seq<Alert>, more: seq<Alert>, a: Alert, subject: string)
    requires RaisedOne(raised, more, a)
    ensures KindsOf(more, subject) == KindsOf(raised, subject) + if a.Subject() == subject then [a.kind] else []
  {
    hide KindsOf;
    var at :| more == raised + [a.(at := at)];
    KindsMore(raised, a.(at := at), subject);
  }

  lemma StepKinds(states: map<string, Status>, raised: seq<Alert>, more: seq<Alert>, about: Alert, verdict: Status,
                  subject: string)
    requires var kind := Transition(StatusIn(states, about.Subject()), verdict).1;
             if kind.Some? then RaisedOne(raised, more, about.(kind := kind.value)) else more == raised
    ensures var kind := Transition(StatusIn(states, about.Subject()), verdict).1;
            KindsOf(more, subject) == KindsOf(raised, subject)
                                      + if kind.Some? && about.Subject() == subject then [kind.value] else []
  {
    hide KindsOf, Transition, RaisedOne;
    var kind := Transition(StatusIn(states, about.Subject()), verdict).1;
    if kind.Some? {
      RaisedKinds(raised, more, about.(kind := kind.value), subject);
    }
  }

  /** The names can be found in this order in the list. */
  ghost predicate InOrder(names: seq<string>, all: seq<string>) {
    exists at: seq<nat> ::
      && |at| == |names|
      && (forall i | 0 <= i < |at| :: at[i] < |all| && all[at[i]] == names[i])
      && (forall i, j | 0 <= i < j < |at| :: at[i] < at[j])
  }

  lemma InOrderNothing(all: seq<string>)
    ensures InOrder([], all)
  {
    var at: seq<nat> := [];
    assert |at| == 0;
  }

  lemma InOrderMore(names: seq<string>, all: seq<string>, more: string)
    requires InOrder(names, all)
    ensures InOrder(names, all + [more]) && InOrder(names + [more], all + [more])
  {
    var at: seq<nat> :|
      && |at| == |names|
      && (forall i | 0 <= i < |at| :: at[i] < |all| && all[at[i]] == names[i])
      && (forall i, j | 0 <= i < j < |at| :: at[i] < at[j]);
    var longer: seq<nat> := at + [|all|];
    assert |longer| == |names + [more]|;
  }

  predicate ById(a: Delivery, b: Delivery) {
    a.id <= b.id
  }

  /** After a failure the next attempt is the backoff delay later. */
  ghost predicate BackedOff(outbox: seq<Delivery>, initial: int, maximum: int) {
    forall d | d in outbox && d.attempts > 0 :: d.nextAttempt == d.lastAttempt + Delay(initial, maximum, d.attempts)
  }

  /** Exactly the suppressions that are over have ended, and nothing else has changed. */
  ghost predicate EndedBy(before: seq<Incident>, after: seq<Incident>, windows: seq<Maintenance>,
                          silences: seq<Silence>, now: Time) {
    && |after| == |before|
    && forall i | 0 <= i < |before| ::
         after[i] == if Ends(before[i], windows, silences, now)
                     then before[i].(suppressed := false, maintenance := "", silenceId := 0) else before[i]
  }

  /** The ledger after an alert: a new incident records what holds its alert back. */
  ghost predicate Ledgered(before: seq<Incident>, after: seq<Incident>, a: Alert, windows: seq<Maintenance>,
                           silences: seq<Silence>) {
    && Entered(before, after, a)
    && (|after| > |before| ==>
          Holders(a, after[|before|].maintenance, after[|before|].silenceId, windows, silences, a.at))
  }

  lemma RecordedRightly(before: seq<Incident>, after: seq<Incident>, a: Alert, name: string, id: nat,
                        windows: seq<Maintenance>, silences: seq<Silence>)
    requires Recorded(before, after, a) && Holders(a, name, id, windows, silences, a.at)
    requires |after| > |before| ==> after[|before|].maintenance == name && after[|before|].silenceId == id
    ensures Ledgered(before, after, a, windows, silences)
  {
    hide Recorded, Entered, Holders;
    RecordedExactly(before, after, a);
  }

  /** The alert of an incident whose suppression is over, dated now. */
  ghost predicate HandedLate(before: seq<Incident>, windows: seq<Maintenance>, silences: seq<Silence>, now: Time,
                             h: Handover) {
    exists i :: 0 <= i < |before| && Ends(before[i], windows, silences, now)
                && h == Handover(before[i].alert.(at := now), before[i].id)
  }

  lemma HandedLateMore(front: seq<Incident>, last: Incident, windows: seq<Maintenance>, silences: seq<Silence>,
                       now: Time, h: Handover)
    ensures HandedLate(front + [last], windows, silences, now, h)
            <==> HandedLate(front, windows, silences, now, h)
                 || (Ends(last, windows, silences, now) && h == Handover(last.alert.(at := now), last.id))
  {
    hide Ends;
    var all := front + [last];
    if HandedLate(front, windows, silences, now, h) {
      var i :| 0 <= i < |front| && Ends(front[i], windows, silences, now)
               && h == Handover(front[i].alert.(at := now), front[i].id);
      assert all[i] == front[i];
    }
    if Ends(last, windows, silences, now) && h == Handover(last.alert.(at := now), last.id) {
      assert all[|front|] == last;
    }
  }

  /** What the machine has done, and what is left to do. */
  datatype Books = Books(
    incidents: seq<Incident>,
    issued: seq<Issue>,
    sent: seq<Issue>,
    outbox: seq<Delivery>,
    cancelled: set<nat>,
    handed: seq<Handover>,
    raised: seq<Alert>)

  /** The pending escalations of the incident that the alert closes. */
  ghost function ClosedPages(incidents: seq<Incident>, outbox: seq<Delivery>, a: Alert): set<nat> {
    var i := LatestActive(incidents, a.Subject());
    if Closes(a.kind) && i >= 0 then PageIds(outbox, incidents[i].id) else {}
  }

  lemma NothingYet(subjects: set<string>, now: Time)
    ensures Ledger([], 0, subjects, map[], now) && HandedOver([], []) && Told([], [], [])
    ensures Single([], subjects, map[], {})
  {
  }

  /** Logs only grow. */
  ghost predicate Continues(before: Books, after: Books) {
    && before.issued <= after.issued && before.sent <= after.sent && before.handed <= after.handed
    && before.raised <= after.raised && before.cancelled <= after.cancelled
  }

  class Operations {
    const subjects: set<string>
    const destinations: seq<string>
    const routes: seq<Route>
    const policies: seq<Policy>
    const retryInitial: int64
    const retryMax: int64

    var states: map<string, Status>
    var incidents: seq<Incident>
    var nextIncidentId: nat
    var maintenance: seq<Maintenance>
    var silences: seq<Silence>
    var outbox: seq<Delivery>
    var nextDeliveryId: nat
    var escalated: Escalated
    /** The latest reading of the clock. */
    var clock: Time

    /** Everything ever issued to a destination, what reached it, and what was cancelled before it did. */
    ghost var issued: seq<Issue>
    ghost var sent: seq<Issue>
    ghost var cancelled: set<nat>
    /** What notifiers were asked to deliver, whether they did or not. */
    ghost var tried: seq<Copy>
    /** What was handed to `Deliver`, in order. */
    ghost var handed: seq<Handover>
    /** Every alert that was recorded, delivered or not. */
    ghost var raised: seq<Alert>
    /** The subjects of which an outage has begun while the warning before it was open. */
    ghost var overlapped: set<string>

    ghost predicate Configured() {
      && 0 < retryInitial <= retryMax
      && Distinct(destinations) && "default" !in destinations
      && (forall p | p in policies :: p.name != "")
      && (forall i, j | 0 <= i < j < |policies| :: policies[i].name != policies[j].name)
    }

    ghost predicate Delivering()
      reads this`issued, this`sent, this`outbox, this`cancelled, this`nextDeliveryId, this`escalated
    {
      && Configured()
      && Queue(issued, sent, outbox, cancelled, nextDeliveryId)
      && BackedOff(outbox, retryInitial as int, retryMax as int)
      && PagesMarked(outbox)
      && PagedOnce(issued, escalated)
      && Marked(issued, cancelled, nextDeliveryId)
    }

    /** Every pending escalation is called for, and no other has been cancelled. */
    ghost predicate Regular()
      reads this`incidents, this`nextIncidentId, this`issued, this`cancelled, this`outbox
    {
      Numbered(incidents, nextIncidentId) && Tied(incidents, issued, cancelled, outbox)
    }

    /** Besides escalations, exactly what was handed over was issued: each alert once to each of its targets. */
    ghost predicate Accounted()
      reads this`issued, this`handed
    {
      Plain(issued) == Spread(handed, AllTargets)
    }

    ghost predicate Valid()
      reads this
    {
      && Delivering()
      && clock > ZERO_TIME
      && Ledger(incidents, nextIncidentId, subjects, states, clock)
      && Regular()
      && Accounted()
      && HandedOver(incidents, handed)
      && Told(incidents, handed, raised)
      && Single(incidents, subjects, states, overlapped)
    }

    ghost function State(): Books
      reads this`incidents, this`issued, this`sent, this`outbox, this`cancelled, this`handed, this`raised
    {
      Books(incidents, issued, sent, outbox, cancelled, handed, raised)
    }

    constructor (subjects: set<string>, destinations: seq<string>, routes: seq<Route>, policies: seq<Policy>,
                 retryInitial: int64, retryMax: int64, now: Time)
      requires 0 < retryInitial <= retryMax && now > ZERO_TIME
      requires Distinct(destinations) && "default" !in destinations
      requires forall p | p in policies :: p.name != ""
      requires forall i, j | 0 <= i < j < |policies| :: policies[i].name != policies[j].name
      ensures Valid() && clock == now && State() == Books([], [], [], [], {}, [], [])
      ensures states == map[] && maintenance == [] && silences == [] && overlapped == {}
      ensures this.subjects == subjects && this.destinations == destinations && this.routes == routes
      ensures this.policies == policies && this.retryInitial == retryInitial && this.retryMax == retryMax
    {
      this.subjects, this.destinations, this.routes, this.policies := subjects, destinations, routes, policies;
      this.retryInitial, this.retryMax := retryInitial, retryMax;
      states, incidents, nextIncidentId := map[], [], 0;
      maintenance, silences := [], [];
      outbox, nextDeliveryId, escalated, clock := [], 0, map[], now;
      issued, sent, tried, cancelled, handed, raised, overlapped := [], [], [], {}, [], [], {};
      new;
      hide Delivering, Regular, Ledger, HandedOver, Told, Single, Accounted;
      NothingYet(subjects, now);
      NothingDelivered();
    }

    lemma NothingDelivered()
      requires Configured() && State() == Books([], [], [], [], {}, [], []) && escalated == map[]
      requires nextDeliveryId == nextIncidentId == 0
      ensures Delivering() && Regular() && Accounted()
    {
    }

    // ----- deliveries -----

    function RouteMatches(r: Route, a: Alert): bool {
      SelectorMatches(a, r.checks, r.components, r.probers, r.kinds)
    }

    /** The default destination gets everything; a named one everything unless it has routes and none matches. */
    predicate Wants(destination: string, a: Alert) {
      (forall r | r in routes :: r.destination != destination)
      || exists r :: r in routes && r.destination == destination && RouteMatches(r, a)
    }

    /** Where the alert goes, as far as the first `k` named destinations are concerned. */
    function Targets(a: Alert, k: nat): seq<string>
      requires k <= |destinations|
    {
      if k == 0 then ["default"]
      else Targets(a, k - 1) + if Wants(destinations[k - 1], a) then [destinations[k - 1]] else []
    }

    function AllTargets(a: Alert): seq<string> {
      Targets(a, |destinations|)
    }

    /** By fields: it is the default, or a destination with no route or with a route that is meant for the alert. */
    ghost predicate Receives(t: string, a: Alert) {
      || t == "default"
      || (t in destinations && ((forall r | r in routes :: r.destination != t)
                                || exists r :: r in routes && r.destination == t && Leads(r, a)))
    }

    ghost predicate Leads(r: Route, a: Alert) {
      Concerns(a, r.checks, r.components, r.probers) && (|r.kinds| == 0 || Lists(r.kinds, a.kind))
    }

    lemma RouteExactly(r: Route, a: Alert)
      ensures RouteMatches(r, a) <==> Leads(r, a)
    {
      ConcernsExactly(a, r.checks, r.components, r.probers);
    }

    /** The alert goes to exactly these: the default first, then the others as they are configured. */
    lemma TargetsExactly(a: Alert)
      ensures AllTargets(a) != [] && AllTargets(a)[0] == "default"
      ensures forall t :: t in AllTargets(a) <==> Receives(t, a)
      ensures InOrder(AllTargets(a)[1..], destinations)
    {
      hide Wants, Leads, RouteMatches, InOrder;
      WantedTargets(a, |destinations|);
      OrderedTargets(a, |destinations|);
      assert destinations[..|destinations|] == destinations;
      forall t ensures t in AllTargets(a) <==> Receives(t, a) {
        WantsExactly(t, a);
      }
    }

    lemma WantsExactly(t: string, a: Alert)
      ensures t == "default" || (t in destinations && Wants(t, a)) <==> Receives(t, a)
    {
      hide RouteMatches, Leads;
      forall r ensures RouteMatches(r, a) <==> Leads(r, a) {
        RouteExactly(r, a);
      }
    }

    lemma {:induction false} WantedTargets(a: Alert, k: nat)
      requires k <= |destinations|
      ensures Targets(a, k) != [] && Targets(a, k)[0] == "default"
      ensures forall t :: t in Targets(a, k) <==> t == "default" || (t in destinations[..k] && Wants(t, a))
    {
      hide Wants;
      if k > 0 {
        WantedTargets(a, k - 1);
        PrefixStep(destinations, k - 1);
      }
    }

    lemma {:induction false} OrderedTargets(a: Alert, k: nat)
      requires k <= |destinations|
      ensures |Targets(a, k)| > 0 && InOrder(Targets(a, k)[1..], destinations[..k])
    {
      hide Wants, InOrder;
      if k == 0 {
        InOrderNothing(destinations[..0]);
        assert Targets(a, 0)[1..] == [];
      } else {
        OrderedTargets(a, k - 1);
        var last := destinations[k - 1];
        assert destinations[..k] == destinations[..k - 1] + [last];
        InOrderMore(Targets(a, k - 1)[1..], destinations[..k - 1], last);
        assert Targets(a, k - 1) + [] == Targets(a, k - 1);
        assert (Targets(a, k - 1) + [last])[1..] == Targets(a, k - 1)[1..] + [last];
      }
    }

    lemma TargetsDistinct()
      requires Configured()
      ensures forall a :: Distinct(AllTargets(a))
    {
      forall a ensures Distinct(AllTargets(a)) {
        TargetsDifferent(a, |destinations|);
      }
    }

    lemma {:induction false} TargetsDifferent(a: Alert, k: nat)
      requires Configured() && k <= |destinations|
      ensures Distinct(Targets(a, k))
      ensures forall t | t in Targets(a, k) :: t == "default" || t in destinations[..k]
    {
      if k > 0 {
        TargetsDifferent(a, k - 1);
        PrefixStep(destinations, k - 1);
        assert destinations[k - 1] !in destinations[..k - 1];
      }
    }

    method DeliveryTargets(a: Alert) returns (out: seq<string>)
      ensures out == AllTargets(a)
    {
      out := ["default"];
      for i := 0 to |destinations|
        invariant out == Targets(a, i)
      {
        var hasRoutes, matched := false, false;
        for j := 0 to |routes|
          invariant hasRoutes <==> exists r :: r in routes[..j] && r.destination == destinations[i]
          invariant matched <==> exists r :: r in routes[..j] && r.destination == destinations[i] && RouteMatches(r, a)
        {
          PrefixStep(routes, j);
          if routes[j].destination != destinations[i] {
            continue;
          }
          hasRoutes := true;
          if RouteMatches(routes[j], a) {
            matched := true;
          }
        }
        assert routes[..|routes|] == routes;
        if !hasRoutes || matched {
          out := out + [destinations[i]];
        }
      }
    }

    method DestinationPending(destination: string) returns (pending: bool)
      ensures pending <==> exists d :: d in outbox && d.destination == destination
    {
      for i := 0 to |outbox|
        invariant forall d | d in outbox[..i] :: d.destination != destination
      {
        if outbox[i].destination == destination {
          assert outbox[i] in outbox;
          return true;
        }
      }
      return false;
    }

    /** The notifier behind a destination succeeds or fails as it likes; `sent` records what it delivered. */
    method Notify(destination: string, a: Alert, ghost id: nat, ghost incidentId: nat) returns (ok: bool)
      modifies this`sent, this`tried
      ensures sent == old(sent) + if ok then [Issue(destination, a, id, incidentId)] else []
      ensures tried == old(tried) + [(destination, a)]
    {
      tried := tried + [(destination, a)];
      ok := *;
      if ok {
        sent := sent + [Issue(destination, a, id, incidentId)];
      }
    }

    method EnqueueDelivery(d: Delivery)
      requires Delivering()
      requires d.attempts > 0 ==>
                 d.nextAttempt == d.lastAttempt + Delay(retryInitial as int, retryMax as int, d.attempts)
      requires d.incidentId == 0 && d.escalation == ""
      modifies this`outbox, this`nextDeliveryId, this`issued
      ensures Delivering() && nextDeliveryId == old(nextDeliveryId) + 1
      ensures var numbered := d.(id := nextDeliveryId, createdAt := clock);
              outbox == old(outbox) + [numbered] && issued == old(issued) + [Queued(numbered)]
      ensures old(Regular()) ==> Regular()
    {
      hide Queue, BackedOff, PagesMarked, PagedOnce, Marked;
      nextDeliveryId := nextDeliveryId + 1;
      var numbered := d.(id := nextDeliveryId, createdAt := clock);
      MoreDeliveries(outbox, numbered, retryInitial as int, retryMax as int);
      EnqueueKeepsQueue(issued, sent, outbox, cancelled, nextDeliveryId - 1, numbered);
      PageOnce(issued, escalated, Queued(numbered), clock);
      QueueFresh(issued, sent, outbox, cancelled, nextDeliveryId - 1);
      MarkedMore(issued, cancelled, nextDeliveryId - 1, Queued(numbered), nextDeliveryId);
      if Tied(incidents, issued, cancelled, outbox) {
        TiedPlain(incidents, issued, cancelled, outbox, Queued(numbered), outbox + [numbered]);
      }
      issued := issued + [Queued(numbered)];
      outbox := outbox + [numbered];
    }

    /** One destination: queue behind what is pending, or try now and queue on failure. */
    method DeliverOne(destination: string, a: Alert)
      requires Delivering()
      modifies this`outbox, this`nextDeliveryId, this`issued, this`sent, this`tried
      ensures Delivering()
      ensures exists id :: issued == old(issued) + [Issue(destination, a, id, 0)]
      ensures Passed(old(sent), sent, old(outbox), outbox, issued[|old(issued)|])
      ensures var idle := forall d | d in old(outbox) :: d.destination != destination;
              tried == old(tried) + if idle then [(destination, a)] else []
      ensures old(Regular()) ==> Regular()
    {
      hide Queue, BackedOff, PagesMarked, PagedOnce, Marked, Tied, Targets;
      var pending := DestinationPending(destination);
      if pending {
        EnqueueDelivery(Delivery(0, destination, a, 0, clock, 0, ZERO_TIME, "", 0));
        return;
      }
      ghost var x := Issue(destination, a, 0, 0);
      SendKeepsQueue(issued, sent, outbox, cancelled, nextDeliveryId, x);
      PageOnce(issued, escalated, x, clock);
      QueueFresh(issued, sent, outbox, cancelled, nextDeliveryId);
      MarkedMore(issued, cancelled, nextDeliveryId, x, nextDeliveryId);
      if Tied(incidents, issued, cancelled, outbox) {
        TiedPlain(incidents, issued, cancelled, outbox, x, outbox);
      }
      var ok := Notify(destination, a, 0, 0);
      if ok {
        issued := issued + [x];
      } else {
        assert sent == old(sent);
        FirstDelay(retryInitial as int, retryMax as int);
        EnqueueDelivery(Delivery(0, destination, a, 0, clock + retryInitial as int, 1, clock, "", 0));
      }
    }

    /** Hands an alert to every destination that wants it; each either has it now or has it queued. */
    method Deliver(a: Alert, ghost about: nat)
      requires Delivering()
      modifies this`outbox, this`nextDeliveryId, this`issued, this`sent, this`tried, this`handed
      ensures Delivering()
      ensures handed == old(handed) + [Handover(a, about)]
      ensures IssuedAs(old(issued), issued, Copies(AllTargets(a), a))
      ensures Took(old(issued), issued, old(sent), sent, old(outbox), outbox)
      ensures old(Regular()) ==> Regular()
      ensures old(Accounted()) ==> Accounted()
    {
      hide Delivering, Regular, Spread, Plain, Took, Passed, Targets;
      NothingTaken(issued, sent, outbox);
      var targets := DeliveryTargets(a);
      ghost var copies := Copies(targets, a);
      for i := 0 to |targets|
        invariant Delivering() && handed == old(handed)
        invariant IssuedAs(old(issued), issued, copies[..i])
        invariant Took(old(issued), issued, old(sent), sent, old(outbox), outbox)
        invariant old(Regular()) ==> Regular()
      {
        ghost var was, wasSent, wasQueued := issued, sent, outbox;
        DeliverOne(targets[i], a);
        ghost var x := issued[|was|];
        TookMore(old(issued), was, old(sent), wasSent, sent, old(outbox), wasQueued, outbox, x);
        assert IsCopy(x, copies[i]) && copies[..i + 1] == copies[..i] + [copies[i]];
      }
      assert copies[..|targets|] == copies;
      PlainIssued(old(issued), issued, copies);
      SpreadMore(handed, Handover(a, about), AllTargets);
      handed := handed + [Handover(a, about)];
    }

    // ----- retries -----

    /** Where the delivery stands in the outbox. */
    method Find(ghost done: seq<Delivery>, item: Delivery, ghost rest: seq<Delivery>) returns (i: nat)
      requires Increasing(outbox) && outbox == done + [item] + rest
      ensures i == |done|
    {
      i := 0;
      assert outbox[|done|] == item;
      while outbox[i].id != item.id
        invariant i <= |done|
        decreases |done| - i
      {
        i := i + 1;
      }
    }

    /** Drops a delivery whose escalation is no longer called for. */
    method RemoveDelivery(ghost done: seq<Delivery>, item: Delivery, ghost rest: seq<Delivery>)
      requires Delivering() && outbox == done + [item] + rest && item.escalation != ""
      modifies this`outbox, this`cancelled
      ensures Delivering() && outbox == done + rest && cancelled == old(cancelled) + {item.id}
    {
      hide Queue, BackedOff, PagedOnce, Marked, PagesMarked, Increasing;
      assert outbox[|done|] == item;
      PageHasIncident(outbox, item);
      MarkedDrop(issued, sent, outbox, cancelled, nextDeliveryId, item);
      QueueIncreasing(issued, sent, outbox, cancelled, nextDeliveryId);
      var i := Find(done, item, rest);
      Dropped(done, item, rest);
      Removed(issued, sent, done, item, rest, cancelled, nextDeliveryId);
      FewerDeliveries(done, item, rest, retryInitial as int, retryMax as int);
      cancelled := cancelled + {item.id};
      outbox := outbox[..i] + outbox[i + 1..];
    }

    /** One attempt at the first pending delivery of its destination. */
    method Attempt(ghost done: seq<Delivery>, item: Delivery, ghost rest: seq<Delivery>)
      returns (ok: bool, ghost kept: seq<Delivery>)
      requires Delivering() && outbox == done + [item] + rest
      requires forall d | d in done :: d.destination != item.destination
      modifies this`outbox, this`sent, this`tried, this`clock
      ensures Delivering() && clock >= old(clock)
      ensures outbox == done + kept + rest
      ensures tried == old(tried) + [(item.destination, item.alert)]
      ensures ok ==> kept == [] && sent == old(sent) + [Queued(item)]
      ensures !ok ==> sent == old(sent) && |kept| == 1 && Queued(kept[0]) == Queued(item)
                      && kept[0].escalation == item.escalation
                      && kept[0].attempts == item.attempts + 1 && kept[0].lastAttempt == clock
                      && kept[0].nextAttempt > clock
    {
      hide Queue, BackedOff, PagesMarked, PagedOnce, Marked;
      QueueIncreasing(issued, sent, outbox, cancelled, nextDeliveryId);
      RetryKeepsQueue(issued, sent, done, item, rest, cancelled, nextDeliveryId);
      ok := Notify(item.destination, item.alert, item.id, item.incidentId);
      var attemptedAt := Later();
      var i := Find(done, item, rest);
      kept := [];
      if ok {
        FewerDeliveries(done, item, rest, retryInitial as int, retryMax as int);
        Dropped(done, item, rest);
        outbox := outbox[..i] + outbox[i + 1..];
        assert done + kept == done;
      } else {
        Dropped(done, item, rest);
        assert sent == old(sent);
        var delay, rounds := RetryDelay(retryInitial, retryMax, item.attempts + 1);
        DelayMonotone(retryInitial as int, retryMax as int, 1, item.attempts + 1);
        var failed := item.(attempts := item.attempts + 1, lastAttempt := attemptedAt,
                            nextAttempt := attemptedAt + delay as int);
        UpdateKeepsQueue(issued, sent, outbox, cancelled, nextDeliveryId, i, failed);
        UpdatedDelivery(outbox, i, failed, retryInitial as int, retryMax as int);
        Replaced(done, item, rest, failed);
        outbox := outbox[i := failed];
        kept := [failed];
      }
    }

    /** Another reading of the clock, which does not go backwards. */
    method Later() returns (now: Time)
      modifies this`clock
      ensures now == clock >= old(clock)
    {
      now :| now >= clock;
      clock := now;
    }

    /** A copy of the outbox, sorted by number. */
    method Snapshot() returns (items: seq<Delivery>)
      requires Increasing(outbox)
      ensures items == outbox
    {
      SortIncreasing(outbox);
      items := Sort(outbox, ById);
    }

    /**
     * Every destination's queue is worked off in order until a delivery fails or is not yet due; afterwards
     * the first delivery of each queue waits for a later time.
     */
    method WorkOff(now: Time)
      requires Delivering() && now <= clock
      modifies this`outbox, this`sent, this`tried, this`cancelled, this`clock
      ensures Delivering() && clock >= old(clock) && old(sent) <= sent
      ensures HeadsWait(outbox, now)
      ensures old(Regular()) ==> Regular() && cancelled == old(cancelled)
    {
      hide Queue, BackedOff, PagesMarked, PagedOnce, Marked, Tied, Numbered;
      assert Increasing(outbox) by {
        QueueIncreasing(issued, sent, outbox, cancelled, nextDeliveryId);
      }
      hide Delivering, Increasing, Worked, HeadsWait;
      NothingWorked(now);
      var items := Snapshot();
      var blocked: set<string> := {};
      ghost var done: seq<Delivery> := [];
      for i := 0 to |items|
        invariant Delivering() && clock >= old(clock) && old(sent) <= sent
        invariant outbox == done + items[i..]
        invariant Worked(done, blocked, now)
        invariant old(Regular()) ==> Regular() && cancelled == old(cancelled)
      {
        var item := items[i];
        Split(outbox, done, items, i);
        WorkedOthers(done, blocked, now, item.destination);
        var blocks;
        ghost var kept;
        blocks, kept := WorkOffOne(done, item, items[i + 1..], blocked, now);
        if blocks {
          WorkedMore(done, blocked, now, kept[0]);
          blocked := blocked + {item.destination};
          assert kept == [kept[0]];
          done := done + kept;
        } else {
          assert done + kept == done;
        }
      }
      assert outbox == done;
      WorkedHeads(done, blocked, now);
    }

    /** What happens to one delivery of the round; `blocks` says that the rest of its destination has to wait. */
    method WorkOffOne(ghost done: seq<Delivery>, item: Delivery, ghost rest: seq<Delivery>, blocked: set<string>,
                      now: Time)
      returns (blocks: bool, ghost kept: seq<Delivery>)
      requires Delivering() && now <= clock && outbox == done + [item] + rest
      requires item.destination !in blocked ==> forall d | d in done :: d.destination != item.destination
      modifies this`outbox, this`sent, this`tried, this`cancelled, this`clock
      ensures Delivering() && clock >= old(clock) && old(sent) <= sent
      ensures outbox == (done + kept) + rest
      ensures if blocks then |kept| == 1 && kept[0].destination == item.destination
                             && (item.destination in blocked || kept[0].nextAttempt > now)
              else kept == []
      ensures old(Regular()) ==> Regular() && cancelled == old(cancelled)
    {
      hide Queue, BackedOff, PagesMarked, PagedOnce, Marked, Tied;
      blocks, kept := true, [item];
      if item.destination in blocked {
        return;
      }
      if item.nextAttempt > now {
        return;
      }
      assert outbox[|done|] == item;
      var relevant := EscalationRelevant(item);
      if item.escalation != "" && Regular() {
        PendingRelevant(incidents, issued, cancelled, outbox, item);
      }
      if item.escalation != "" && !relevant {
        RemoveDelivery(done, item, rest);
        blocks, kept := false, [];
        return;
      }
      ghost var before := outbox;
      var ok;
      ok, kept := Attempt(done, item, rest);
      blocks := !ok;
      if Tied(incidents, issued, cancelled, before) {
        TiedFewer(incidents, issued, cancelled, before, item, outbox, kept);
      }
    }

    method EscalationRelevant(item: Delivery) returns (relevant: bool)
      ensures Numbered(incidents, nextIncidentId) ==> (relevant <==> Relevant(incidents, item.incidentId))
    {
      for i := 0 to |incidents|
        invariant forall k | 0 <= k < i :: incidents[k].id != item.incidentId
      {
        if incidents[i].id == item.incidentId {
          return Pageable(incidents[i]);
        }
      }
      return false;
    }

    // ----- escalations -----

    /** Queues one escalation; the incident is marked as escalated by the policy for good. */
    method Escalate(i: nat, policy: Policy, now: Time)
      requires Delivering() && Numbered(incidents, nextIncidentId)
      requires i < |incidents| && Due(incidents[i], policy, now) && policy.name != ""
      requires (incidents[i].id, policy.name) !in escalated
      modifies this`outbox, this`nextDeliveryId, this`issued, this`escalated
      ensures Delivering()
      ensures old(Regular()) ==> Regular()
      ensures escalated == old(escalated)[(incidents[i].id, policy.name) := now]
      ensures var page := Page(incidents[i], policy, now);
              issued == old(issued) + [Issue(policy.destination, page, nextDeliveryId, incidents[i].id)]
      ensures old(Accounted()) ==> Accounted()
    {
      hide Queue, BackedOff, PagesMarked, PagedOnce, Marked, Tied, Plain, Spread;
      nextDeliveryId := nextDeliveryId + 1;
      var d := Delivery(nextDeliveryId, policy.destination, Page(incidents[i], policy, now), now, now, 0, ZERO_TIME,
                        policy.name, incidents[i].id);
      EnqueueKeepsQueue(issued, sent, outbox, cancelled, nextDeliveryId - 1, d);
      MoreDeliveries(outbox, d, retryInitial as int, retryMax as int);
      PageOnce(issued, escalated, Queued(d), now);
      QueueFresh(issued, sent, outbox, cancelled, nextDeliveryId - 1);
      MarkedMore(issued, cancelled, nextDeliveryId - 1, Queued(d), nextDeliveryId);
      if Tied(incidents, issued, cancelled, outbox) {
        TiedPage(incidents, issued, cancelled, outbox, i, d);
      }
      PlainPage(issued, Queued(d));
      issued := issued + [Queued(d)];
      outbox := outbox + [d];
      escalated := escalated[(incidents[i].id, policy.name) := now];
    }

    /** The policies of one incident. */
    method ScheduleOne(i: nat, now: Time) returns (changed: bool)
      requires Delivering() && Numbered(incidents, nextIncidentId)
      requires i < |incidents| && Pageable(incidents[i])
      modifies this`outbox, this`nextDeliveryId, this`issued, this`escalated
      ensures Delivering()
      ensures old(Regular()) ==> Regular()
      ensures old(Accounted()) ==> Accounted()
      ensures old(escalated).Keys <= escalated.Keys && changed == (issued != old(issued))
      ensures forall p | p in policies && Due(incidents[i], p, now) :: (incidents[i].id, p.name) in escalated
      ensures old(issued) <= issued
      ensures DueOnly(policies, issued, |old(issued)|, incidents[i], now, old(escalated))
    {
      assert Configured();
      hide Delivering, Regular, Accounted, Numbered, SelectorMatches, Scheduled, IsPage, Page;
      changed := false;
      NothingScheduled(policies, incidents[i], now, escalated, issued);
      for j := 0 to |policies|
        invariant Delivering()
        invariant old(Regular()) ==> Regular()
        invariant old(Accounted()) ==> Accounted()
        invariant changed == (issued != old(issued))
        invariant Scheduled(policies, j, incidents[i], now, old(escalated), old(issued), escalated, issued)
      {
        SkipScheduled(policies, j, incidents[i], now, old(escalated), old(issued), escalated, issued);
        var policy := policies[j];
        var key := (incidents[i].id, policy.name);
        if key in escalated || now < incidents[i].openedAt + policy.after {
          continue;
        }
        if !SelectorMatches(incidents[i].alert, policy.checks, policy.components, policy.probers, policy.kinds) {
          continue;
        }
        if incidents[i].kind == KindWarning && KindWarning !in policy.kinds {
          continue;
        }
        ghost var keys, before := escalated, issued;
        Escalate(i, policy, now);
        Paged(issued[|before|], incidents[i], policy, now);
        PageScheduled(policies, j, incidents[i], now, old(escalated), old(issued), keys, before, issued[|before|]);
        assert issued == before + [issued[|before|]];
        changed := true;
      }
      AllScheduled(policies, incidents[i], now, old(escalated), old(issued), escalated, issued);
    }

    /**
     * Afterwards everything that is due has been escalated, and what was issued is exactly what was due and
     * had not been escalated before.
     */
    method ScheduleEscalations(now: Time) returns (changed: bool)
      requires Delivering() && Numbered(incidents, nextIncidentId)
      modifies this`outbox, this`nextDeliveryId, this`issued, this`escalated
      ensures Delivering()
      ensures old(Regular()) ==> Regular()
      ensures old(Accounted()) ==> Accounted()
      ensures changed == (issued != old(issued))
      ensures forall i, p | 0 <= i < |incidents| && p in policies && Due(incidents[i], p, now) ::
                (incidents[i].id, p.name) in escalated
      ensures old(issued) <= issued
      ensures DuePages(policies, issued, |old(issued)|, incidents, now, old(escalated))
    {
      hide Delivering, Tied, Accounted, Numbered, SelectorMatches;
      changed := false;
      if |policies| == 0 {
        return;
      }
      for i := 0 to |incidents|
        invariant Delivering()
        invariant old(Regular()) ==> Regular()
        invariant old(Accounted()) ==> Accounted()
        invariant old(escalated).Keys <= escalated.Keys && changed == (issued != old(issued))
        invariant forall k, p | 0 <= k < i && p in policies && Due(incidents[k], p, now) ::
                    (incidents[k].id, p.name) in escalated
        invariant old(issued) <= issued
        invariant DuePages(policies, issued, |old(issued)|, incidents[..i], now, old(escalated))
      {
        ghost var was, keys := issued, escalated;
        if Pageable(incidents[i]) {
          var more := ScheduleOne(i, now);
          changed := changed || more;
        }
        MoreDuePages(policies, was, issued, |old(issued)|, incidents, i, now, old(escalated), keys);
      }
      assert incidents[..|incidents|] == incidents;
    }

    /** One round of the delivery loop. */
    method ProcessDeliveries(now: Time)
      requires Valid() && now >= clock
      modifies this`outbox, this`nextDeliveryId, this`issued, this`escalated, this`sent, this`tried, this`cancelled,
               this`clock
      ensures Valid() && clock >= now
      ensures cancelled == old(cancelled) && old(sent) <= sent && old(issued) <= issued
      ensures HeadsWait(outbox, now)
      ensures forall i, p | 0 <= i < |incidents| && p in policies && Due(incidents[i], p, now) ::
                (incidents[i].id, p.name) in escalated
      ensures DuePages(policies, issued, |old(issued)|, incidents, now, old(escalated))
      ensures forall i, p | 0 <= i < |incidents| && p in policies && Warranted(incidents[i], p, now) ::
                (incidents[i].id, p.name) in escalated
      ensures forall k | |old(issued)| <= k < |issued| ::
                CalledFor(policies, issued[k], incidents, now, old(escalated))
    {
      hide Queue, BackedOff, PagesMarked, PagedOnce, Marked, Tied, Numbered, Timed, OutagesDisjoint, OutagesCurrent,
           HandedOver, Told, Single, Accounted, Due, Warranted, CalledFor,
           PagesSome;
      LedgerTick(incidents, nextIncidentId, subjects, states, clock, now);
      clock := now;
      var changed := ScheduleEscalations(now);
      WorkOff(now);
      LedgerTick(incidents, nextIncidentId, subjects, states, now, clock);
      forall i, p | 0 <= i < |incidents| && p in policies && Warranted(incidents[i], p, now)
        ensures (incidents[i].id, p.name) in escalated
      {
        DueExactly(incidents[i], p, now);
      }
      forall k | |old(issued)| <= k < |issued|
        ensures CalledFor(policies, issued[k], incidents, now, old(escalated))
      {
        PagesExactly(policies, issued[k], incidents, now, old(escalated));
      }
    }

    // ----- incidents -----

    method FilterOut(items: seq<Delivery>, incidentId: nat) returns (kept: seq<Delivery>)
      requires Increasing(items)
      ensures kept == Without(items, PageIds(items, incidentId))
    {
      ghost var ids := PageIds(items, incidentId);
      kept := [];
      for i := 0 to |items|
        invariant kept == Without(items[..i], ids)
      {
        assert items[..i + 1][..i] == items[..i];
        PageIdsExact(items, incidentId, items[i]);
        if !Pages(items[i], incidentId) {
          kept := kept + [items[i]];
        }
      }
      assert items[..|items|] == items;
    }

    /** `cancelEscalationsLocked`: filters the incident's pending escalations out of the outbox. */
    method CancelEscalations(incidentId: nat)
      requires Delivering()
      modifies this`outbox, this`cancelled
      ensures Delivering()
      ensures outbox == Without(old(outbox), PageIds(old(outbox), incidentId))
      ensures cancelled == old(cancelled) + PageIds(old(outbox), incidentId)
    {
      hide Queue, BackedOff, PagesMarked, PagedOnce, Marked;
      ghost var ids := PageIds(outbox, incidentId);
      QueueIncreasing(issued, sent, outbox, cancelled, nextDeliveryId);
      var kept := FilterOut(outbox, incidentId);
      CancelKeepsQueue(issued, sent, outbox, cancelled, nextDeliveryId, ids);
      MarkedCancel(issued, sent, outbox, cancelled, nextDeliveryId, incidentId);
      KeptDeliveries(outbox, ids, retryInitial as int, retryMax as int);
      cancelled := cancelled + ids;
      outbox := kept;
    }

    /** No window before this one is active and covers the alert, but this one does. */
    ghost predicate FirstWindow(a: Alert, now: Time, i: int)
      reads this`maintenance
    {
      && 0 <= i < |maintenance| && maintenance[i].Active(now) && maintenance[i].Covers(a)
      && forall k | 0 <= k < i :: !(maintenance[k].Active(now) && maintenance[k].Covers(a))
    }

    ghost predicate FirstSilence(a: Alert, now: Time, i: int)
      reads this`silences
    {
      && 0 <= i < |silences| && silences[i].Active(now) && silences[i].Covers(a)
      && forall k | 0 <= k < i :: !(silences[k].Active(now) && silences[k].Covers(a))
    }

    /** The name of the first active window that covers the alert, or "". */
    method ActiveMaintenance(a: Alert, now: Time) returns (name: string)
      ensures if forall m | m in maintenance :: !(m.Active(now) && m.Covers(a)) then name == ""
              else exists i :: FirstWindow(a, now, i) && name == maintenance[i].name
    {
      for i := 0 to |maintenance|
        invariant forall k | 0 <= k < i :: !(maintenance[k].Active(now) && maintenance[k].Covers(a))
      {
        if maintenance[i].Active(now) && maintenance[i].Covers(a) {
          assert maintenance[i] in maintenance && FirstWindow(a, now, i);
          return maintenance[i].name;
        }
      }
      return "";
    }

    /** The number of the first active silence that covers the alert, or 0. */
    method ActiveSilence(a: Alert, now: Time) returns (id: nat)
      ensures if forall s | s in silences :: !(s.Active(now) && s.Covers(a)) then id == 0
              else exists i :: FirstSilence(a, now, i) && id == silences[i].id
    {
      for i := 0 to |silences|
        invariant forall k | 0 <= k < i :: !(silences[k].Active(now) && silences[k].Covers(a))
      {
        if silences[i].Active(now) && silences[i].Covers(a) {
          assert silences[i] in silences && FirstSilence(a, now, i);
          return silences[i].id;
        }
      }
      return 0;
    }

    /** The index of the subject's newest active incident, or -1. */
    method FindLatest(subject: string) returns (i: int)
      ensures i == LatestActive(incidents, subject)
    {
      i := |incidents| - 1;
      while i >= 0
        invariant -1 <= i < |incidents|
        invariant LatestActive(incidents, subject) == LatestActive(incidents[..i + 1], subject)
      {
        assert incidents[..i + 1][..i] == incidents[..i];
        if incidents[i].subject == subject && incidents[i].active {
          return;
        }
        i := i - 1;
      }
    }

    method OpenIncident(a: Alert, maintenanceName: string, silenceId: nat, ghost before: map<string, Status>)
      requires Regular() && !Closes(a.kind)
      requires Ledger(incidents, nextIncidentId, subjects, before, clock) && clock > ZERO_TIME
      requires a.at == clock && Consistent(a, subjects, before, states)
      modifies this`incidents, this`nextIncidentId
      ensures Regular() && Ledger(incidents, nextIncidentId, subjects, states, clock)
      ensures nextIncidentId == old(nextIncidentId) + 1
      ensures incidents == old(incidents) + [Opened(nextIncidentId, a, maintenanceName, silenceId)]
    {
      hide Numbered, Timed, OutagesDisjoint, OutagesCurrent, Tied, Consistent;
      OpenKeepsLedger(incidents, nextIncidentId, subjects, before, states, clock, a, maintenanceName, silenceId);
      TiedOpen(incidents, issued, cancelled, outbox, Opened(nextIncidentId + 1, a, maintenanceName, silenceId));
      nextIncidentId := nextIncidentId + 1;
      incidents := incidents + [Opened(nextIncidentId, a, maintenanceName, silenceId)];
    }

    lemma WithdrawTied(i: nat, changed: Incident)
      requires Delivering() && Regular() && i < |incidents| && Dismissed(changed)
      requires changed.id == incidents[i].id && changed.alert == incidents[i].alert
      ensures var ids := PageIds(outbox, incidents[i].id);
              Tied(incidents[i := changed], issued, cancelled + ids, Without(outbox, ids))
    {
      hide Queue, BackedOff, PagesMarked, PagedOnce, Tied, Numbered;
      TiedWithdraw(incidents, nextIncidentId, issued, sent, outbox, cancelled, nextDeliveryId, i, changed);
    }

    method CloseIncident(a: Alert, ghost before: map<string, Status>)
      requires Delivering() && Regular() && Closes(a.kind)
      requires Ledger(incidents, nextIncidentId, subjects, before, clock)
      requires a.at == clock && Consistent(a, subjects, before, states)
      modifies this`incidents, this`outbox, this`cancelled
      ensures Delivering() && Regular() && Ledger(incidents, nextIncidentId, subjects, states, clock)
      ensures var i := LatestActive(old(incidents), a.Subject());
              incidents == if i < 0 then old(incidents) else old(incidents)[i := Closed(old(incidents)[i], clock)]
      ensures var ids := ClosedPages(old(incidents), old(outbox), a);
              cancelled == old(cancelled) + ids && outbox == Without(old(outbox), ids)
    {
      hide Delivering, Tied, Numbered, Timed, OutagesDisjoint, OutagesCurrent, Consistent, LatestActive, Without;
      CloseKeepsLedger(incidents, nextIncidentId, subjects, before, states, clock, a);
      var i := FindLatest(a.Subject());
      if i >= 0 {
        WithdrawTied(i, Closed(incidents[i], a.at));
        CancelEscalations(incidents[i].id);
        incidents := incidents[i := Closed(incidents[i], a.at)];
      } else {
        WithoutNone(outbox, {});
      }
    }

    /** Opens an incident, or closes the newest active one of the subject and cancels its escalations. */
    method RecordIncident(a: Alert, maintenanceName: string, silenceId: nat, ghost before: map<string, Status>)
      requires Delivering() && Regular()
      requires Ledger(incidents, nextIncidentId, subjects, before, clock) && clock > ZERO_TIME
      requires a.at == clock && Consistent(a, subjects, before, states)
      modifies this`incidents, this`nextIncidentId, this`outbox, this`cancelled
      ensures Delivering() && Regular() && Ledger(incidents, nextIncidentId, subjects, states, clock)
      ensures if Closes(a.kind)
              then var i := LatestActive(old(incidents), a.Subject());
                   && nextIncidentId == old(nextIncidentId)
                   && incidents == (if i < 0 then old(incidents)
                                    else old(incidents)[i := Closed(old(incidents)[i], clock)])
              else && nextIncidentId == old(nextIncidentId) + 1
                   && incidents == old(incidents) + [Opened(nextIncidentId, a, maintenanceName, silenceId)]
      ensures var ids := ClosedPages(old(incidents), old(outbox), a);
              cancelled == old(cancelled) + ids && outbox == Without(old(outbox), ids)
    {
      hide Queue, BackedOff, PagesMarked, PagedOnce, Marked, Tied, Ledger, Consistent;
      WithoutNone(outbox, {});
      if Closes(a.kind) {
        CloseIncident(a, before);
      } else {
        OpenIncident(a, maintenanceName, silenceId, before);
      }
    }

    /** The window and the silence that cover the alert now. */
    method Suppression(a: Alert) returns (maintenanceName: string, silenceId: nat)
      ensures !Covered(a) ==> maintenanceName == "" && silenceId == 0
      ensures Labelled() && Covered(a) ==> maintenanceName != "" || silenceId != 0
      ensures Holders(a, maintenanceName, silenceId, maintenance, silences, clock)
    {
      hide AlertMatches, Concerns, Occurs;
      maintenanceName := ActiveMaintenance(a, clock);
      silenceId := ActiveSilence(a, clock);
      forall m | m in maintenance ensures m.Active(clock) && m.Covers(a) <==> WindowHolds(m, a, clock) {
        WindowExactly(m, a, clock);
      }
      forall s | s in silences ensures s.Active(clock) && s.Covers(a) <==> SilenceHolds(s, a, clock) {
        SilenceExactly(s, a, clock);
      }
    }

    /** The alert is covered exactly if some window or silence is on and concerns it. */
    lemma CoveredExactly(a: Alert)
      ensures Covered(a) <==> Muted(a, maintenance, silences, clock)
    {
      hide AlertMatches, Concerns, Occurs;
      forall m | m in maintenance ensures m.Active(clock) && m.Covers(a) <==> WindowHolds(m, a, clock) {
        WindowExactly(m, a, clock);
      }
      forall s | s in silences ensures s.Active(clock) && s.Covers(a) <==> SilenceHolds(s, a, clock) {
        SilenceExactly(s, a, clock);
      }
    }

    /** The alert goes into the ledger; an incident that is not suppressed is about to be handed over. */
    method Enter(a: Alert, maintenanceName: string, silenceId: nat, ghost before: map<string, Status>)
      requires Delivering() && Regular() && HandedOver(incidents, handed) && Told(incidents, handed, raised)
      requires Ledger(incidents, nextIncidentId, subjects, before, clock) && clock > ZERO_TIME
      requires Holders(a, maintenanceName, silenceId, maintenance, silences, clock)
      requires a.at == clock && Consistent(a, subjects, before, states)
      modifies this`incidents, this`nextIncidentId, this`outbox, this`cancelled
      ensures Delivering() && Regular() && Ledger(incidents, nextIncidentId, subjects, states, clock)
      ensures Recorded(old(incidents), incidents, a)
      ensures Ledgered(old(incidents), incidents, a, maintenance, silences)
      ensures !Closes(a.kind) ==> nextIncidentId > 0 && |incidents| == |old(incidents)| + 1
                                  && incidents[|old(incidents)|].id == nextIncidentId
      ensures var ids := ClosedPages(old(incidents), old(outbox), a);
              cancelled == old(cancelled) + ids && outbox == Without(old(outbox), ids)
      ensures var own := Handover(a, if Closes(a.kind) then 0 else nextIncidentId);
              var later := if maintenanceName != "" || silenceId != 0 then handed else handed + [own];
              HandedOver(incidents, later) && Told(incidents, later, raised + [a])
    {
      hide Queue, BackedOff, PagesMarked, PagedOnce, Marked, Tied, Ledger, HandedOver, Consistent, Told, Holders,
           Ledgered, LatestActive;
      assert Numbered(incidents, nextIncidentId);
      ghost var was, next := incidents, nextIncidentId;
      RecordIncident(a, maintenanceName, silenceId, before);
      RecordedRightly(was, incidents, a, maintenanceName, silenceId, maintenance, silences);
      if Closes(a.kind) {
        EnterClosed(was, next, handed, raised, a, maintenanceName != "" || silenceId != 0);
      } else {
        EnterOpened(was, next, handed, raised, Opened(nextIncidentId, a, maintenanceName, silenceId));
      }
    }

    /** Records the alert and, unless a window or a silence covers it, delivers it. */
    method Emit(a: Alert, ghost before: map<string, Status>)
      requires Delivering() && Regular() && Accounted()
      requires HandedOver(incidents, handed) && Told(incidents, handed, raised)
      requires Ledger(incidents, nextIncidentId, subjects, before, clock) && clock > ZERO_TIME
      requires a.at == clock && Consistent(a, subjects, before, states)
      requires Single(incidents, subjects, before, overlapped)
      requires a.Subject() in subjects && Overlaps(incidents, StatusIn(before, a.Subject()), a.kind, a.Subject()) ==>
                 a.Subject() in overlapped
      modifies this`incidents, this`nextIncidentId, this`outbox, this`nextDeliveryId, this`issued, this`sent,
               this`tried, this`cancelled, this`handed, this`raised
      ensures Valid()
      ensures Announced(old(State()), State(), a, Covered(a), Labelled())
      ensures Ledgered(old(incidents), incidents, a, maintenance, silences)
    {
      hide Delivering, Regular, Accounted, HandedOver, Told, Ledger, Consistent, Single, Overlaps, Recorded, Covered,
           Labelled, Holders, Ledgered, Took, IssuedAs, Copies, Spread, ClosedPages, Announced, Plain, Targets,
           Without, LatestActive, Closes;
      ghost var was, covered, labelled := State(), Covered(a), Labelled();
      var maintenanceName, silenceId := Suppression(a);
      Enter(a, maintenanceName, silenceId, before);
      RecordKeepsSingle(was.incidents, incidents, subjects, before, states, overlapped, a);
      RecordedSize(was.incidents, incidents, a);
      raised := raised + [a];
      if maintenanceName != "" || silenceId != 0 {
        NothingTaken(issued, sent, outbox);
        HeldBack(was, State(), a, covered, labelled);
        return;
      }
      ghost var own := Handover(a, if Closes(a.kind) then 0 else nextIncidentId);
      Deliver(a, own.incident);
      PassedOn(was, State(), a, covered, labelled);
    }

    /** An alert that is covered is only recorded. */
    lemma HeldBack(before: Books, after: Books, a: Alert, covered: bool, labelled: bool)
      requires Recorded(before.incidents, after.incidents, a) && after.raised == before.raised + [a] && covered
      requires after.issued == before.issued && after.handed == before.handed
      requires var ids := ClosedPages(before.incidents, before.outbox, a);
               && after.cancelled == before.cancelled + ids
               && Took(before.issued, after.issued, before.sent, after.sent, Without(before.outbox, ids), after.outbox)
      ensures Announced(before, after, a, covered, labelled)
    {
      hide Took, ClosedPages, LatestActive, Spread, Without;
      NothingIssued(before.issued);
      SpreadNone(AllTargets);
      assert after.handed[|before.handed|..] == [];
    }

    /** An alert that is not is handed over and issued. */
    lemma PassedOn(before: Books, after: Books, a: Alert, covered: bool, labelled: bool)
      requires Recorded(before.incidents, after.incidents, a) && after.raised == before.raised + [a]
      requires covered ==> !labelled
      requires |after.incidents| > |before.incidents| || Closes(a.kind)
      requires after.handed == before.handed
                               + [Handover(a, if Closes(a.kind) then 0 else after.incidents[|before.incidents|].id)]
      requires IssuedAs(before.issued, after.issued, Copies(AllTargets(a), a))
      requires var ids := ClosedPages(before.incidents, before.outbox, a);
               && after.cancelled == before.cancelled + ids
               && Took(before.issued, after.issued, before.sent, after.sent, Without(before.outbox, ids), after.outbox)
      ensures Announced(before, after, a, covered, labelled)
    {
      hide Took, ClosedPages, LatestActive, Spread, IssuedAs, Without;
      var own := after.handed[|before.handed|];
      SpreadOne(own, AllTargets);
      assert after.handed[|before.handed|..] == [own];
    }

    /** A verdict about a check or component: its status moves, and the move is announced. */
    method Conclude(about: Alert, verdict: Status, now: Time)
      requires Valid() && now >= clock && about.Subject() in subjects
      modifies this`states, this`incidents, this`nextIncidentId, this`outbox, this`nextDeliveryId, this`issued,
               this`sent, this`tried, this`cancelled, this`handed, this`raised, this`overlapped, this`clock
      ensures Valid() && clock == now
      ensures var subject, current := about.Subject(), StatusIn(old(states), about.Subject());
              var (next, kind) := Transition(current, verdict);
              && states == old(states)[subject := next]
              && next == (if verdict == Unknown then current else verdict) && CallsFor(current, verdict, kind)
              && (kind.None? ==> State() == old(State()) && overlapped == old(overlapped))
              && (kind.Some? ==>
                    var a := about.(kind := kind.value, at := now);
                    var crosses := Overlaps(old(incidents), current, kind.value, subject);
                    && Announced(old(State()), State(), a, Covered(a), Labelled())
                    && Ledgered(old(incidents), incidents, a, maintenance, silences)
                    && overlapped == old(overlapped) + (if crosses then {subject} else {})
                    && (crosses ==> TwoActive(incidents, subject))
                    && (Closes(a.kind) ==> (HasActive(incidents, subject) <==> TwoActive(old(incidents), subject))))
    {
      hide Delivering, Regular, Accounted, HandedOver, Told, Ledger, Single, Overlaps, Recorded, Announced, Covered,
           Labelled, Ledgered, HasActive, TwoActive, Transition, Raises, CallsFor;
      LedgerTick(incidents, nextIncidentId, subjects, states, clock, now);
      clock := now;
      var subject := about.Subject();
      var current := StatusIn(states, subject);
      var (next, kind) := Transition(current, verdict);
      TransitionRaises(current, verdict);
      TransitionExactly(current, verdict);
      ghost var before := states;
      states := states[subject := next];
      if kind.None? {
        QuietKeepsLedger(incidents, nextIncidentId, subjects, before, clock, subject, next);
        QuietKeepsSingle(incidents, subjects, before, overlapped, subject, next);
        return;
      }
      var a := about.(kind := kind.value, at := now);
      ghost var was := State();
      if Overlaps(incidents, current, a.kind, subject) {
        MoreOverlapped(incidents, subjects, before, overlapped, overlapped + {subject});
        overlapped := overlapped + {subject};
      }
      Emit(a, before);
      AnnouncedActive(was, State(), a, Covered(a), Labelled(), current);
    }

    /** An alert about something else than a check or component: a prober, or the watch itself. */
    method Announce(a: Alert, now: Time)
      requires Valid() && now >= clock && a.at == now && a.Subject() !in subjects
      modifies this`incidents, this`nextIncidentId, this`outbox, this`nextDeliveryId, this`issued, this`sent,
               this`tried, this`cancelled, this`handed, this`raised, this`clock
      ensures Valid() && clock == now
      ensures Announced(old(State()), State(), a, Covered(a), Labelled())
      ensures Ledgered(old(incidents), incidents, a, maintenance, silences)
    {
      hide Delivering, Regular, Accounted, HandedOver, Told, Ledger, Overlaps, Recorded, Announced, Covered, Labelled,
           Ledgered;
      LedgerTick(incidents, nextIncidentId, subjects, states, clock, now);
      clock := now;
      Emit(a, states);
    }

    // ----- operators -----

    method FindIncident(id: nat) returns (i: int)
      ensures -1 <= i < |incidents|
      ensures if i >= 0 then incidents[i].id == id else forall k | 0 <= k < |incidents| :: incidents[k].id != id
    {
      i := 0;
      while i < |incidents|
        invariant 0 <= i <= |incidents|
        invariant forall k | 0 <= k < i :: incidents[k].id != id
      {
        if incidents[i].id == id {
          return;
        }
        i := i + 1;
      }
      i := -1;
    }

    /** Who acknowledges an active incident stops its escalations. */
    method AcknowledgeIncident(id: nat, actor: string, now: Time) returns (outcome: Outcome)
      requires Valid() && now >= clock
      modifies this`incidents, this`outbox, this`cancelled, this`clock
      ensures Valid() && clock == now
      ensures outcome == ActorRequired <==> TrimSpace(actor) == ""
      ensures outcome != Done ==> State() == old(State())
      ensures outcome == NotFound ==> forall i | 0 <= i < |incidents| :: incidents[i].id != id
      ensures outcome == Inactive ==> exists i :: 0 <= i < |incidents| && incidents[i].id == id && !incidents[i].active
      ensures outcome == Done ==>
                && Acknowledged(old(incidents), incidents, id, now)
                && outbox == Without(old(outbox), PageIds(old(outbox), id))
                && cancelled == old(cancelled) + PageIds(old(outbox), id)
    {
      hide Delivering, Tied, Accounted, HandedOver, Told, Single, Timed, OutagesDisjoint, OutagesCurrent;
      LedgerTick(incidents, nextIncidentId, subjects, states, clock, now);
      clock := now;
      if TrimSpace(actor) == "" {
        return ActorRequired;
      }
      var i := FindIncident(id);
      if i < 0 {
        return NotFound;
      }
      if !incidents[i].active {
        return Inactive;
      }
      var noted := incidents[i].(acknowledgedAt := Some(now));
      AnnotateKeepsLedger(incidents, nextIncidentId, subjects, states, clock, i, noted);
      Withdraw(i, noted);
      return Done;
    }

    /** Closing an incident by hand does not move the status of its subject. */
    method ResolveIncident(id: nat, actor: string, now: Time) returns (outcome: Outcome)
      requires Valid() && now >= clock
      modifies this`incidents, this`outbox, this`cancelled, this`clock
      ensures Valid() && clock == now
      ensures outcome == ActorRequired <==> TrimSpace(actor) == ""
      ensures outcome != Done ==> State() == old(State())
      ensures outcome == NotFound ==> forall i | 0 <= i < |incidents| :: incidents[i].id != id
      ensures outcome == Inactive ==> exists i :: 0 <= i < |incidents| && incidents[i].id == id && !incidents[i].active
      ensures outcome == Done ==>
                && Resolved(old(incidents), incidents, id, now)
                && outbox == Without(old(outbox), PageIds(old(outbox), id))
                && cancelled == old(cancelled) + PageIds(old(outbox), id)
    {
      hide Delivering, Tied, Accounted, HandedOver, Told, Single, Timed, OutagesDisjoint, OutagesCurrent;
      LedgerTick(incidents, nextIncidentId, subjects, states, clock, now);
      clock := now;
      if TrimSpace(actor) == "" {
        return ActorRequired;
      }
      var i := FindIncident(id);
      if i < 0 {
        return NotFound;
      }
      if !incidents[i].active {
        return Inactive;
      }
      var resolved := Closed(incidents[i], now).(manualResolution := true);
      ResolveKeepsLedger(incidents, nextIncidentId, subjects, states, clock, i, resolved);
      Withdraw(i, resolved);
      return Done;
    }

    /** Replaces an incident by one that no longer warrants a page. */
    method Withdraw(i: nat, changed: Incident)
      requires Valid() && i < |incidents| && incidents[i].active && Dismissed(changed)
      requires changed.id == incidents[i].id && changed.suppressed == incidents[i].suppressed
      requires changed.alert == incidents[i].alert && changed.subject == incidents[i].subject
      requires Ledger(incidents[i := changed], nextIncidentId, subjects, states, clock)
      modifies this`incidents, this`outbox, this`cancelled
      ensures Valid() && incidents == old(incidents)[i := changed]
      ensures outbox == Without(old(outbox), PageIds(old(outbox), changed.id))
      ensures cancelled == old(cancelled) + PageIds(old(outbox), changed.id)
    {
      hide Queue, BackedOff, PagesMarked, PagedOnce, Tied, Accounted, HandedOver, Told, Single, Timed,
           OutagesDisjoint, OutagesCurrent;
      WithdrawTied(i, changed);
      ChangeHandedOver(incidents, handed, i, changed);
      ChangeTold(incidents, handed, raised, i, changed);
      ChangeKeepsSingle(incidents, incidents[i := changed], subjects, states, overlapped);
      CancelEscalations(incidents[i].id);
      incidents := incidents[i := changed];
    }

    /** Is the reason for which the incident was suppressed still in force? */
    predicate SuppressionActive(incident: Incident, now: Time)
      reads this`maintenance, this`silences
    {
      || (incident.maintenance != ""
          && exists m :: m in maintenance && m.name == incident.maintenance && m.Active(now)
                         && m.Covers(incident.alert))
      || (incident.silenceId != 0
          && exists s :: s in silences && s.id == incident.silenceId && s.Active(now))
    }

    /** The incident's own alert, as it is sent when its suppression ends. */
    function Late(incident: Incident, now: Time): Alert {
      incident.alert.(at := now)
    }

    /** The reason is in force exactly if the window or the silence that is recorded is on. */
    lemma HeldExactly(incident: Incident, now: Time)
      ensures SuppressionActive(incident, now) <==> StillHeld(incident, maintenance, silences, now)
      ensures Releases(incident, now) <==> Ends(incident, maintenance, silences, now)
    {
      hide Occurs, Concerns, AlertMatches;
      forall m | m in maintenance
        ensures m.Active(now) && m.Covers(incident.alert) <==> WindowHolds(m, incident.alert, now)
      {
        WindowExactly(m, incident.alert, now);
      }
      forall s | s in silences ensures s.Active(now) <==> Lasts(s, now) {
        SilenceExactly(s, incident.alert, now);
      }
    }

    predicate Releases(incident: Incident, now: Time)
      reads this`maintenance, this`silences
    {
      incident.active && incident.suppressed && !SuppressionActive(incident, now)
    }

    function Released(incident: Incident): Incident {
      incident.(suppressed := false, maintenance := "", silenceId := 0)
    }

    /** The first `k` incidents have been released as far as they are due, and nothing else has changed. */
    ghost predicate ReleasedTo(before: seq<Incident>, after: seq<Incident>, k: nat, now: Time)
      reads this`maintenance, this`silences
    {
      && |after| == |before|
      && (forall i | 0 <= i < |after| ::
            after[i] == if i < k && Releases(before[i], now) then Released(before[i]) else before[i])
    }

    lemma NothingReleased(incidents: seq<Incident>, now: Time)
      ensures ReleasedTo(incidents, incidents, 0, now)
    {
    }

    lemma ReleaseStep(before: seq<Incident>, after: seq<Incident>, i: nat, now: Time)
      requires ReleasedTo(before, after, i, now) && i < |before|
      ensures |after| == |before| && after[i] == before[i]
      ensures var more := if Releases(before[i], now) then after[i := Released(before[i])] else after;
              ReleasedTo(before, more, i + 1, now)
    {
    }

    /** What is handed over when the suppressions of the first `k` incidents end. */
    ghost function LateOnes(before: seq<Incident>, k: nat, now: Time): seq<Handover>
      requires k <= |before|
      reads this`maintenance, this`silences
    {
      if k == 0 then []
      else
        var x := before[k - 1];
        LateOnes(before, k - 1, now) + if Releases(x, now) then [Handover(Late(x, now), x.id)] else []
    }

    /** Marks the incidents whose suppression has ended, and lists their alerts. */
    method CollectReleased(now: Time) returns (alerts: seq<Alert>, ghost late: seq<Handover>)
      requires Valid()
      modifies this`incidents
      ensures Delivering() && Regular() && Accounted() && Ledger(incidents, nextIncidentId, subjects, states, clock)
      ensures HandedOver(incidents, handed + late) && Told(incidents, handed + late, raised)
      ensures Single(incidents, subjects, states, overlapped)
      ensures ReleasedTo(old(incidents), incidents, |old(incidents)|, now)
      ensures late == LateOnes(old(incidents), |old(incidents)|, now)
      ensures |alerts| == |late| && forall k | 0 <= k < |alerts| :: alerts[k] == late[k].alert
    {
      hide Delivering, Tied, Accounted, HandedOver, Told, Single, OutagesDisjoint, OutagesCurrent, Timed, Numbered,
           SuppressionActive, ReleasedTo;
      NothingReleased(incidents, now);
      alerts, late := [], [];
      assert handed + late == handed;
      for i := 0 to |incidents|
        invariant |incidents| == |old(incidents)|
        invariant Delivering() && Regular() && Accounted() && Ledger(incidents, nextIncidentId, subjects, states, clock)
        invariant HandedOver(incidents, handed + late) && Told(incidents, handed + late, raised)
        invariant Single(incidents, subjects, states, overlapped)
        invariant late == LateOnes(old(incidents), i, now)
        invariant |alerts| == |late| && forall k | 0 <= k < |alerts| :: alerts[k] == late[k].alert
        invariant ReleasedTo(old(incidents), incidents, i, now)
      {
        ReleaseStep(old(incidents), incidents, i, now);
        if !incidents[i].active || !incidents[i].suppressed {
          continue;
        }
        if SuppressionActive(incidents[i], now) {
          continue;
        }
        ghost var own := Handover(Late(incidents[i], now), incidents[i].id);
        assert (handed + late) + [own] == handed + (late + [own]);
        alerts := alerts + [Late(incidents[i], now)];
        Release(i, now, handed + late);
        late := late + [own];
      }
    }

    /** Ends the suppression of one incident. */
    method Release(i: nat, now: Time, ghost given: seq<Handover>)
      requires Regular() && Ledger(incidents, nextIncidentId, subjects, states, clock)
      requires HandedOver(incidents, given) && Told(incidents, given, raised)
      requires Single(incidents, subjects, states, overlapped)
      requires i < |incidents| && incidents[i].suppressed
      modifies this`incidents
      ensures Regular() && Ledger(incidents, nextIncidentId, subjects, states, clock)
      ensures Single(incidents, subjects, states, overlapped)
      ensures incidents == old(incidents)[i := Released(old(incidents)[i])]
      ensures var later := given + [Handover(Late(old(incidents)[i], now), old(incidents)[i].id)];
              HandedOver(incidents, later) && Told(incidents, later, raised)
    {
      hide Tied, HandedOver, Told, Single, OutagesDisjoint, OutagesCurrent, Timed;
      var released := Released(incidents[i]);
      AnnotateKeepsLedger(incidents, nextIncidentId, subjects, states, clock, i, released);
      TiedRelease(incidents, issued, cancelled, outbox, i, released);
      ReleaseHandedOver(incidents, nextIncidentId, given, i, released, now);
      ReleaseTold(incidents, nextIncidentId, given, raised, i, released, now);
      ChangeKeepsSingle(incidents, incidents[i := released], subjects, states, overlapped);
      incidents := incidents[i := released];
    }

    /**
     * The alert of every incident whose suppression has ended is issued to its targets, once and in order, and
     * nothing else is. Afterwards each active incident has either been handed over or is still covered by the
     * window or silence that suppressed it.
     */
    method ReleaseSuppressions(now: Time)
      requires Valid() && now >= clock
      modifies this`incidents, this`outbox, this`nextDeliveryId, this`issued, this`sent, this`tried, this`handed,
               this`clock
      ensures Valid() && clock == now
      ensures ReleasedTo(old(incidents), incidents, |old(incidents)|, now)
      ensures var late := LateOnes(old(incidents), |old(incidents)|, now);
              && handed == old(handed) + late
              && IssuedAs(old(issued), issued, Spread(late, AllTargets))
              && Took(old(issued), issued, old(sent), sent, old(outbox), outbox)
      ensures EndedBy(old(incidents), incidents, maintenance, silences, now)
      ensures forall h :: h in handed[|old(handed)|..] <==> HandedLate(old(incidents), maintenance, silences, now, h)
      ensures forall i | 0 <= i < |incidents| && incidents[i].active ::
                if incidents[i].suppressed
                then old(incidents)[i].suppressed && StillHeld(old(incidents)[i], maintenance, silences, now)
                else WasHanded(handed, incidents[i].id)
    {
      hide Delivering, Regular, Accounted, Told, Single, Timed, OutagesDisjoint, OutagesCurrent, Numbered, Took,
           IssuedAs, Spread, WasHanded, OwnAlert, Once, LateOnes, StillHeld, ReleasedTo, HandedLate;
      LedgerTick(incidents, nextIncidentId, subjects, states, clock, now);
      clock := now;
      var alerts;
      ghost var late;
      alerts, late := CollectReleased(now);
      DeliverAll(alerts, late);
      EndedExactly(old(incidents), incidents, now);
      LateExactly(old(incidents), |old(incidents)|, now);
      assert handed[|old(handed)|..] == late && old(incidents)[..|old(incidents)|] == old(incidents);
    }

    lemma EndedExactly(before: seq<Incident>, after: seq<Incident>, now: Time)
      requires ReleasedTo(before, after, |before|, now)
      ensures EndedBy(before, after, maintenance, silences, now)
    {
      hide Ends, Releases;
      forall i | 0 <= i < |before| ensures Ends(before[i], maintenance, silences, now) <==> Releases(before[i], now) {
        HeldExactly(before[i], now);
      }
    }

    lemma {:induction false} LateExactly(before: seq<Incident>, k: nat, now: Time)
      requires k <= |before|
      ensures forall h :: h in LateOnes(before, k, now) <==> HandedLate(before[..k], maintenance, silences, now, h)
    {
      hide Ends, Releases;
      if k > 0 {
        LateExactly(before, k - 1, now);
        HeldExactly(before[k - 1], now);
        assert before[..k] == before[..k - 1] + [before[k - 1]];
        forall h ensures h in LateOnes(before, k, now) <==> HandedLate(before[..k], maintenance, silences, now, h) {
          HandedLateMore(before[..k - 1], before[k - 1], maintenance, silences, now, h);
        }
      }
    }

    method DeliverAll(alerts: seq<Alert>, ghost late: seq<Handover>)
      requires Delivering() && Regular() && Accounted()
      requires |alerts| == |late| && forall k | 0 <= k < |alerts| :: alerts[k] == late[k].alert
      modifies this`outbox, this`nextDeliveryId, this`issued, this`sent, this`tried, this`handed
      ensures Delivering() && Regular() && Accounted()
      ensures handed == old(handed) + late
      ensures IssuedAs(old(issued), issued, Spread(late, AllTargets))
      ensures Took(old(issued), issued, old(sent), sent, old(outbox), outbox)
    {
      hide Delivering, Regular, Accounted, IssuedAs, Took, Spread, Copies;
      NothingIssued(issued);
      NothingTaken(issued, sent, outbox);
      SpreadNone(AllTargets);
      for k := 0 to |alerts|
        invariant Delivering() && Regular() && Accounted()
        invariant handed == old(handed) + late[..k]
        invariant IssuedAs(old(issued), issued, Spread(late[..k], AllTargets))
        invariant Took(old(issued), issued, old(sent), sent, old(outbox), outbox)
      {
        ghost var was, wasSent, wasQueued := issued, sent, outbox;
        assert late[..k + 1] == late[..k] + [late[k]];
        assert late[k] == Handover(alerts[k], late[k].incident);
        Deliver(alerts[k], late[k].incident);
        SpreadMore(late[..k], late[k], AllTargets);
        IssuedThen(old(issued), was, issued, Spread(late[..k], AllTargets), Copies(AllTargets(alerts[k]), alerts[k]));
        TookThen(old(issued), was, issued, old(sent), wasSent, sent, old(outbox), wasQueued, outbox);
      }
      assert late[..|late|] == late;
    }

    /** Operators may schedule, change, cancel and delete windows and silences at will. */
    method EditSuppression(windows: seq<Maintenance>, newSilences: seq<Silence>)
      requires Valid()
      modifies this`maintenance, this`silences
      ensures Valid() && maintenance == windows && silences == newSilences
    {
      hide Delivering, Regular, Accounted, HandedOver, Told, Ledger, Single;
      maintenance, silences := windows, newSilences;
    }

    /**
     * Any interleaving of verdicts, announcements, delivery rounds, operators' actions and releases. The time of
     * a step counts unless a later one has been read already. What must hold in between is said outright at the end.
     */
    method Perform(steps: seq<Step>) returns (ghost doubled: set<string>)
      requires Valid() && forall s | s in steps :: Apt(s)
      modifies this
      ensures Valid() && clock >= old(clock) && Continues(old(State()), State())
      // Each destination gets what was issued to it, in order, but for what was cancelled.
      ensures forall destination ::
                On(sent, destination) + On(Pending(outbox), destination) == On(Live(issued, cancelled), destination)
      // Only escalations are cancelled, and only those of incidents that warrant no page any more.
      ensures forall x | x in issued && x.id in cancelled :: x.incidentId != 0 && !Relevant(incidents, x.incidentId)
      ensures forall d | d in outbox && d.escalation != "" :: Relevant(incidents, d.incidentId)
      ensures forall i, j | 0 <= i < j < |issued| && issued[i].incidentId != 0 && issued[j].incidentId != 0 ::
                PageKey(issued[i]) != PageKey(issued[j])
      // Everything else that was issued are the alerts handed over, each once to each of its targets.
      ensures Plain(issued) == Spread(handed, AllTargets) && CopiedOnce(Plain(issued), Owners(handed, AllTargets))
      ensures HandedOver(incidents, handed)
      ensures forall x | x in issued :: exists a :: a in raised && SameNews(x.alert, a)
      // Outages do not overlap. More than one active incident, or one while up, takes an outage that began while
      // the warning before it was open; those are the subjects that have had two active incidents after a step.
      ensures OutagesDisjoint(incidents, subjects) && OutagesCurrent(incidents, subjects, states)
      ensures forall s | s in subjects && s !in overlapped ::
                !TwoActive(incidents, s) && (StatusIn(states, s) in {Up, Unknown} ==> !HasActive(incidents, s))
      ensures overlapped == old(overlapped) + doubled
      // Status and alerts of every check and component are those of the state machine run on the verdicts about it.
      ensures forall s | s in subjects ::
                Follows(old(states), old(raised), states, raised, VerdictsOf(steps, s), s)
      ensures forall s | s in subjects ::
                StatusIn(states, s) == if LastConclusive(VerdictsOf(steps, s)) != Unknown
                                       then LastConclusive(VerdictsOf(steps, s)) else StatusIn(old(states), s)
      ensures forall s | s in subjects && KindsOf(old(raised), s) == [] && StatusIn(old(states), s) != Down ::
                Alternates(Outages(KindsOf(raised, s)), KindDown)
    {
      hide Follows, Alternates, KindsOf, VerdictsOf, LastConclusive, Relevant, Repeats, Withdrawn, WasHanded, OwnAlert,
           Spread, Plain, Owners, CopiedOnce, Distinct, HandedOver, TwoActive, HasActive, BackedOff, Pageable,
           SameNews;
      doubled := PerformAll(steps);
      forall x | x in issued && x.id in cancelled ensures x.incidentId != 0 && !Relevant(incidents, x.incidentId) {
        CancelledIrrelevant(incidents, nextIncidentId, x.incidentId);
      }
      HandedOnce(incidents, handed);
      TargetsDistinct();
      SpreadOnce(handed, AllTargets);
      forall x | x in issued ensures exists a :: a in raised && SameNews(x.alert, a) {
        IssuesAreRaised(incidents, handed, raised, issued, AllTargets, x);
      }
      forall s | s in subjects
        ensures StatusIn(states, s) == if LastConclusive(VerdictsOf(steps, s)) != Unknown
                                       then LastConclusive(VerdictsOf(steps, s)) else StatusIn(old(states), s)
      {
        FollowsLast(old(states), old(raised), states, raised, VerdictsOf(steps, s), s);
      }
      forall s | s in subjects && KindsOf(old(raised), s) == [] && StatusIn(old(states), s) != Down
        ensures Alternates(Outages(KindsOf(raised, s)), KindDown)
      {
        FollowsAlternates(old(states), old(raised), states, raised, VerdictsOf(steps, s), s);
      }
    }

    method PerformAll(steps: seq<Step>) returns (ghost doubled: set<string>)
      requires Valid() && forall s | s in steps :: Apt(s)
      modifies this
      ensures Valid() && clock >= old(clock) && Continues(old(State()), State())
      ensures overlapped == old(overlapped) + doubled
      ensures forall s | s in subjects ::
                Follows(old(states), old(raised), states, raised, VerdictsOf(steps, s), s)
    {
      hide Valid, TwoActive, Follows, VerdictsOf, Stepped, Apt;
      doubled := {};
      NothingSaid();
      forall s ensures Follows(states, raised, states, raised, [], s) {
        FollowsNothing(states, raised, s);
      }
      for k := 0 to |steps|
        invariant Valid() && clock >= old(clock) && Continues(old(State()), State())
        invariant overlapped == old(overlapped) + doubled
        invariant forall s | s in subjects ::
                    Follows(old(states), old(raised), states, raised, VerdictsOf(steps[..k], s), s)
      {
        ghost var later, more := states, raised;
        PerformOne(steps[k]);
        DoubledOverlap();
        doubled := doubled + Doubled();
        forall s | s in subjects
          ensures Follows(old(states), old(raised), states, raised, VerdictsOf(steps[..k + 1], s), s)
        {
          AnnouncesOthers(steps[k], s);
          FollowsStep(old(states), old(raised), later, more, states, raised, steps, k, s);
        }
      }
      assert steps[..|steps|] == steps;
    }

    lemma AnnouncesOthers(step: Step, s: string)
      requires Apt(step) && s in subjects
      ensures step.Announcement? ==> step.about.Subject() != s
    {
    }

    /** The subjects with two active incidents. */
    ghost function Doubled(): set<string>
      reads this`incidents
    {
      set s | s in subjects && TwoActive(incidents, s)
    }

    lemma DoubledOverlap()
      requires Valid()
      ensures Doubled() <= overlapped
    {
    }

    ghost predicate Apt(s: Step) {
      match s
      case Verdict(about, _, _) => about.Subject() in subjects
      case Announcement(about, _) => about.Subject() !in subjects
      case _ => true
    }

    method PerformOne(s: Step)
      requires Valid() && Apt(s)
      modifies this
      ensures Valid() && clock >= old(clock) && Continues(old(State()), State())
      ensures old(overlapped) <= overlapped <= old(overlapped) + Doubled()
      ensures Stepped(old(states), old(raised), states, raised, s)
    {
      hide Valid, Stepped, TwoActive;
      var now := if s.Edit? || s.at < clock then clock else s.at;
      if s.Verdict? || s.Announcement? {
        Say(s, now);
      } else {
        Act(s, now);
        ActedQuietly(states, raised, s);
      }
    }

    /** A verdict or an announcement. */
    method Say(s: Step, now: Time)
      requires Valid() && Apt(s) && (s.Verdict? || s.Announcement?) && now >= clock
      modifies this
      ensures Valid() && clock == now && Continues(old(State()), State())
      ensures old(overlapped) <= overlapped <= old(overlapped) + Doubled()
      ensures Stepped(old(states), old(raised), states, raised, s)
    {
      hide Valid, Announced, TwoActive, Transition, Overlaps, HasActive, Covered, Labelled;
      ghost var was := State();
      match s {
        case Verdict(about, verdict, _) =>
          ghost var kind := Transition(StatusIn(states, about.Subject()), verdict).1;
          Conclude(about, verdict, now);
          if kind.Some? {
            AnnouncedContinues(was, State(), about.(kind := kind.value, at := now));
            assert RaisedOne(was.raised, raised, about.(kind := kind.value));
          }
        case Announcement(about, _) =>
          Announce(about.(at := now), now);
          AnnouncedContinues(was, State(), about.(at := now));
          assert RaisedOne(was.raised, raised, about);
      }
    }

    /** A step that raises no alert and decides nothing. */
    method Act(s: Step, now: Time)
      requires Valid() && !s.Verdict? && !s.Announcement? && now >= clock
      modifies this`incidents, this`maintenance, this`silences, this`outbox, this`nextDeliveryId, this`escalated,
               this`clock, this`issued, this`sent, this`tried, this`cancelled, this`handed
      ensures Valid() && clock >= old(clock) && Continues(old(State()), State())
    {
      hide Valid, HeadsWait, DuePages, Acknowledged, Resolved, Took, IssuedAs, ReleasedTo, WasHanded,
           SuppressionActive, Due;
      match s {
        case Round(_) => ProcessDeliveries(now);
        case Acknowledgement(id, actor, _) => var outcome := AcknowledgeIncident(id, actor, now);
        case Resolution(id, actor, _) => var outcome := ResolveIncident(id, actor, now);
        case Release(_) =>
          ReleaseSuppressions(now);
          TookGrows(old(issued), issued, old(sent), sent, old(outbox), outbox);
        case Edit(windows, newSilences) => EditSuppression(windows, newSilences);
      }
    }

    lemma ActedQuietly(states: map<string, Status>, raised: seq<Alert>, s: Step)
      requires !s.Verdict? && !s.Announcement?
      ensures Stepped(states, raised, states, raised, s)
    {
    }

    /** Validation gives every window a name, and silences are numbered from 1. */
    ghost predicate Labelled()
      reads this`maintenance, this`silences
    {
      (forall m | m in maintenance :: m.name != "") && (forall s | s in silences :: s.id != 0)
    }

    /**
     * What becomes of an alert: it is recorded, the escalations of the incident it closes are cancelled, and
     * unless it is covered it is handed over and issued. Nothing else is cancelled or issued.
     */
    ghost predicate Announced(before: Books, after: Books, a: Alert, covered: bool, labelled: bool) {
      && Recorded(before.incidents, after.incidents, a)
      && (var ids := ClosedPages(before.incidents, before.outbox, a);
          && after.cancelled == before.cancelled + ids
          && Took(before.issued, after.issued, before.sent, after.sent, Without(before.outbox, ids), after.outbox))
      && (var own := Handover(a, if Closes(a.kind) then 0 else after.incidents[|before.incidents|].id);
          && (after.handed == before.handed || after.handed == before.handed + [own])
          && (!covered ==> after.handed == before.handed + [own])
          && (covered && labelled ==> after.handed == before.handed))
      && IssuedAs(before.issued, after.issued, Spread(after.handed[|before.handed|..], AllTargets))
      && after.raised == before.raised + [a]
    }

    lemma AnnouncedContinues(before: Books, after: Books, a: Alert)
      requires exists covered, labelled :: Announced(before, after, a, covered, labelled)
      ensures Continues(before, after)
      ensures after.raised == before.raised + [a]
    {
    }

    lemma AnnouncedActive(before: Books, after: Books, a: Alert, covered: bool, labelled: bool, current: Status)
      requires Announced(before, after, a, covered, labelled)
      ensures Overlaps(before.incidents, current, a.kind, a.Subject()) ==> TwoActive(after.incidents, a.Subject())
      ensures Closes(a.kind) ==> (HasActive(after.incidents, a.Subject()) <==> TwoActive(before.incidents, a.Subject()))
    {
      if Closes(a.kind) {
        RecoveryLeavesOpen(before.incidents, after.incidents, a);
      }
      if Overlaps(before.incidents, current, a.kind, a.Subject()) {
        OverlapMakesTwo(before.incidents, after.incidents, a);
      }
    }

    /** Is the alert covered by an active window or silence? */
    ghost predicate Covered(a: Alert)
      reads this`maintenance, this`silences, this`clock
    {
      || (exists m :: m in maintenance && m.Active(clock) && m.Covers(a))
      || (exists s :: s in silences && s.Active(clock) && s.Covers(a))
    }
  }

  /** A warning, an outage and a recovery: the check ends up, and the incident of the warning is still active. */
  method WarningLeftOpen() returns (machine: Operations)
    ensures fresh(machine) && machine.Valid()
    ensures StatusIn(machine.states, "web") == Up && "web" in machine.overlapped
    ensures |machine.incidents| == 2 && machine.incidents[0].kind == KindWarning && machine.incidents[0].active
            && !machine.incidents[1].active && forall i | 0 <= i < 2 :: machine.incidents[i].subject == "web"
  {
    hide Operations.Valid, Recorded, Took, IssuedAs, ClosedPages, HasActive, TwoActive, Spread, Operations.Covered,
         Operations.Labelled;
    machine := new Operations({"web"}, [], [], [], 1, 1, 1);
    var about := Alert("", [], "", "web", KindWarning, 1, ZERO_TIME, "");
    machine.Conclude(about, Warning, 1);
    ghost var warned := machine.incidents;
    FirstActive(warned, about);
    machine.Conclude(about, Down, 2);
    ghost var down := machine.incidents;
    machine.Conclude(about, Up, 3);
    WarningStays(warned, down, machine.incidents, about);
  }

  lemma FirstActive(warned: seq<Incident>, a: Alert)
    requires !Closes(a.kind) && Recorded([], warned, a)
    ensures HasActive(warned, a.Subject())
  {
    HasActiveAt(warned, 0, a.Subject());
  }

  lemma WarningStays(warned: seq<Incident>, down: seq<Incident>, up: seq<Incident>, a: Alert)
    requires Recorded([], warned, a.(kind := KindWarning, at := 1))
    requires Recorded(warned, down, a.(kind := KindDown, at := 2))
    requires Recorded(down, up, a.(kind := KindRecovered, at := 3))
    ensures |up| == 2 && up[0].kind == KindWarning && up[0].active && !up[1].active
    ensures forall i | 0 <= i < 2 :: up[i].subject == a.Subject()
  {
    assert down[..1][0] == down[0];
    assert LatestActive(down, a.Subject()) == 1;
  }

  lemma HasActiveAt(incidents: seq<Incident>, i: nat, subject: string)
    requires i < |incidents| && ActiveOn(incidents[i], subject)
    ensures HasActive(incidents, subject)
  {
  }

  /** The active incident with the given id is acknowledged, and nothing else changes. */
  ghost predicate Acknowledged(before: seq<Incident>, after: seq<Incident>, id: nat, now: Time) {
    exists i :: 0 <= i < |before| && before[i].id == id && before[i].active
                && after == before[i := before[i].(acknowledgedAt := Some(now))]
  }

  /** The active incident with the given id is closed by hand, and nothing else changes. */
  ghost predicate Resolved(before: seq<Incident>, after: seq<Incident>, id: nat, now: Time) {
    exists i :: 0 <= i < |before| && before[i].id == id && before[i].active
                && after == before[i := before[i].(active := false, resolvedAt := now, manualResolution := true)]
  }

  /** Does the issue escalate this incident by one of the policies, for the first time? */
  ghost predicate DuePage(policies: seq<Policy>, x: Issue, incident: Incident, now: Time, before: Escalated) {
    exists p :: p in policies && Due(incident, p, now) && IsPage(x, incident, p, now)
                && (incident.id, p.name) !in before
  }

  /** From number `first` on, only due escalations of this incident were issued. */
  ghost predicate DueOnly(policies: seq<Policy>, issues: seq<Issue>, first: nat, incident: Incident, now: Time,
                          before: Escalated) {
    forall k | first <= k < |issues| :: DuePage(policies, issues[k], incident, now, before)
  }

  /** The first `k` policies have escalated the incident as far as it was due, and issued nothing else. */
  ghost predicate Scheduled(policies: seq<Policy>, k: nat, incident: Incident, now: Time, before: Escalated,
                            issuedBefore: seq<Issue>, later: Escalated, issued: seq<Issue>)
    requires k <= |policies|
  {
    && before.Keys <= later.Keys && issuedBefore <= issued
    && (forall j | 0 <= j < k && Due(incident, policies[j], now) :: (incident.id, policies[j].name) in later)
    && DueOnly(policies, issued, |issuedBefore|, incident, now, before)
  }

  lemma Paged(x: Issue, incident: Incident, p: Policy, now: Time)
    requires x == Issue(p.destination, Page(incident, p, now), x.id, incident.id)
    ensures IsPage(x, incident, p, now)
  {
  }

  lemma NothingScheduled(policies: seq<Policy>, incident: Incident, now: Time, before: Escalated, issued: seq<Issue>)
    ensures Scheduled(policies, 0, incident, now, before, issued, before, issued)
  {
  }

  lemma SkipScheduled(policies: seq<Policy>, k: nat, incident: Incident, now: Time, before: Escalated,
                      issuedBefore: seq<Issue>, later: Escalated, issued: seq<Issue>)
    requires k < |policies| && Scheduled(policies, k, incident, now, before, issuedBefore, later, issued)
    ensures !Due(incident, policies[k], now) || (incident.id, policies[k].name) in later ==>
              Scheduled(policies, k + 1, incident, now, before, issuedBefore, later, issued)
  {
  }

  lemma PageScheduled(policies: seq<Policy>, k: nat, incident: Incident, now: Time, before: Escalated,
                      issuedBefore: seq<Issue>, later: Escalated, issued: seq<Issue>, x: Issue)
    requires k < |policies| && Scheduled(policies, k, incident, now, before, issuedBefore, later, issued)
    requires Due(incident, policies[k], now) && IsPage(x, incident, policies[k], now)
    requires (incident.id, policies[k].name) !in later
    ensures Scheduled(policies, k + 1, incident, now, before, issuedBefore,
                      later[(incident.id, policies[k].name) := now], issued + [x])
  {
    hide Due, IsPage, DueOnly;
    DueOnlyMore(policies, issued, |issuedBefore|, incident, now, before, policies[k], x);
  }

  lemma AllScheduled(policies: seq<Policy>, incident: Incident, now: Time, before: Escalated, issuedBefore: seq<Issue>,
                     later: Escalated, issued: seq<Issue>)
    requires Scheduled(policies, |policies|, incident, now, before, issuedBefore, later, issued)
    ensures before.Keys <= later.Keys && issuedBefore <= issued
    ensures forall p | p in policies && Due(incident, p, now) :: (incident.id, p.name) in later
    ensures DueOnly(policies, issued, |issuedBefore|, incident, now, before)
  {
  }

  lemma DueOnlyMore(policies: seq<Policy>, issues: seq<Issue>, first: nat, incident: Incident, now: Time,
                    before: Escalated,
                    p: Policy, x: Issue)
    requires DueOnly(policies, issues, first, incident, now, before)
    requires p in policies && Due(incident, p, now) && IsPage(x, incident, p, now) && (incident.id, p.name) !in before
    ensures DueOnly(policies, issues + [x], first, incident, now, before)
  {
    assert DuePage(policies, x, incident, now, before);
  }

  /** From number `first` on, only due escalations of these incidents were issued. */
  ghost predicate DuePages(policies: seq<Policy>, issues: seq<Issue>, first: nat, incidents: seq<Incident>, now: Time,
                           before: Escalated) {
    forall k | first <= k < |issues| :: PagesSome(policies, issues[k], incidents, now, before)
  }

  ghost predicate PagesSome(policies: seq<Policy>, x: Issue, incidents: seq<Incident>, now: Time, before: Escalated) {
    exists incident :: incident in incidents && DuePage(policies, x, incident, now, before)
  }

  /** By fields: the alert of incident number `i`, dated and marked, for the destination of a policy that is due. */
  ghost predicate PagesBy(x: Issue, incidents: seq<Incident>, i: int, p: Policy, now: Time) {
    && 0 <= i < |incidents| && Warranted(incidents[i], p, now)
    && x.incidentId == incidents[i].id && x.destination == p.destination
    && x.alert == incidents[i].alert.(at := now, escalation := p.name)
  }

  /** It escalates one of these incidents by one of the policies, for the first time. */
  ghost predicate CalledFor(policies: seq<Policy>, x: Issue, incidents: seq<Incident>, now: Time, before: Escalated) {
    exists i, p :: PagesBy(x, incidents, i, p, now) && p in policies && (incidents[i].id, p.name) !in before
  }

  lemma PagesExactly(policies: seq<Policy>, x: Issue, incidents: seq<Incident>, now: Time, before: Escalated)
    requires PagesSome(policies, x, incidents, now, before)
    ensures CalledFor(policies, x, incidents, now, before)
  {
    hide Due, Warranted;
    var incident :| incident in incidents && DuePage(policies, x, incident, now, before);
    var p :| p in policies && Due(incident, p, now) && IsPage(x, incident, p, now) && (incident.id, p.name) !in before;
    var i :| 0 <= i < |incidents| && incidents[i] == incident;
    DueExactly(incident, p, now);
    assert PagesBy(x, incidents, i, p, now);
  }

  lemma MoreDuePages(policies: seq<Policy>, was: seq<Issue>, issues: seq<Issue>, first: nat, incidents: seq<Incident>,
                     i: nat,
                     now: Time, before: Escalated, later: Escalated)
    requires i < |incidents| && was <= issues && before.Keys <= later.Keys
    requires DuePages(policies, was, first, incidents[..i], now, before)
    requires DueOnly(policies, issues, |was|, incidents[i], now, later)
    ensures DuePages(policies, issues, first, incidents[..i + 1], now, before)
  {
    PrefixStep(incidents, i);
    forall k | first <= k < |issues| ensures PagesSome(policies, issues[k], incidents[..i + 1], now, before) {
      if k < |was| {
        assert issues[k] == was[k];
        assert PagesSome(policies, was[k], incidents[..i], now, before);
      } else {
        assert DuePage(policies, issues[k], incidents[i], now, before);
      }
    }
  }

  ghost predicate IsPage(x: Issue, incident: Incident, p: Policy, now: Time) {
    x.destination == p.destination && x.alert == Page(incident, p, now) && x.incidentId == incident.id
  }

  /** The first delivery of every destination is due after `now` only. */
  ghost predicate HeadsWait(outbox: seq<Delivery>, now: Time) {
    forall i {:trigger Heads(outbox, i)} | 0 <= i < |outbox| && Heads(outbox, i) :: outbox[i].nextAttempt > now
  }

  /** No earlier delivery has the same destination. */
  ghost predicate Heads(outbox: seq<Delivery>, i: nat)
    requires i < |outbox|
  {
    forall j | 0 <= j < i :: outbox[j].destination != outbox[i].destination
  }

  ghost predicate Waits(outbox: seq<Delivery>, destination: string) {
    exists i :: 0 <= i < |outbox| && outbox[i].destination == destination
  }

  /** What the round has left behind: blocked are exactly the destinations of the deliveries that remain. */
  ghost predicate Worked(done: seq<Delivery>, blocked: set<string>, now: Time) {
    && (forall d | d in done :: d.destination in blocked)
    && (forall b {:trigger Waits(done, b)} | b in blocked :: Waits(done, b))
    && HeadsWait(done, now)
  }

  lemma NothingWorked(now: Time)
    ensures Worked([], {}, now)
  {
  }

  lemma WorkedOthers(done: seq<Delivery>, blocked: set<string>, now: Time, destination: string)
    requires Worked(done, blocked, now)
    ensures destination !in blocked ==> forall d | d in done :: d.destination != destination
  {
  }

  lemma WorkedHeads(done: seq<Delivery>, blocked: set<string>, now: Time)
    requires Worked(done, blocked, now)
    ensures HeadsWait(done, now)
  {
  }

  lemma WorkedMore(done: seq<Delivery>, blocked: set<string>, now: Time, d: Delivery)
    requires Worked(done, blocked, now)
    requires d.nextAttempt > now || d.destination in blocked
    ensures Worked(done + [d], blocked + {d.destination}, now)
  {
    var more := done + [d];
    forall b | b in blocked ensures exists i :: 0 <= i < |done| && more[i].destination == b {
      assert Waits(done, b);
      var i :| 0 <= i < |done| && done[i].destination == b;
      assert more[i].destination == b;
    }
    assert more[|done|].destination == d.destination;
    forall i | 0 <= i < |more| && Heads(more, i) ensures more[i].nextAttempt > now {
      if i < |done| {
        assert Heads(done, i) by {
          assert forall j | 0 <= j <= i :: done[j] == more[j];
        }
      }
    }
  }

  lemma Split(outbox: seq<Delivery>, done: seq<Delivery>, items: seq<Delivery>, i: nat)
    requires i < |items| && outbox == done + items[i..]
    ensures outbox == done + [items[i]] + items[i + 1..]
  {
  }

  lemma UpdatedDelivery(outbox: seq<Delivery>, i: nat, d: Delivery, initial: int, maximum: int)
    requires BackedOff(outbox, initial, maximum) && PagesMarked(outbox) && i < |outbox|
    requires d.attempts > 0 ==> d.nextAttempt == d.lastAttempt + Delay(initial, maximum, d.attempts)
    requires d.incidentId == outbox[i].incidentId && d.escalation == outbox[i].escalation
    ensures BackedOff(outbox[i := d], initial, maximum) && PagesMarked(outbox[i := d])
  {
    assert forall e | e in outbox[i := d] :: e == d || e in outbox;
    assert outbox[i] in outbox;
  }

  lemma MoreDeliveries(outbox: seq<Delivery>, d: Delivery, initial: int, maximum: int)
    requires BackedOff(outbox, initial, maximum) && PagesMarked(outbox)
    requires d.attempts > 0 ==> d.nextAttempt == d.lastAttempt + Delay(initial, maximum, d.attempts)
    requires d.incidentId != 0 <==> d.escalation != ""
    ensures BackedOff(outbox + [d], initial, maximum) && PagesMarked(outbox + [d])
  {
  }

  lemma KeptDeliveries(outbox: seq<Delivery>, ids: set<nat>, initial: int, maximum: int)
    requires BackedOff(outbox, initial, maximum) && PagesMarked(outbox)
    ensures BackedOff(Without(outbox, ids), initial, maximum) && PagesMarked(Without(outbox, ids))
  {
    WithoutContains(outbox, ids);
  }

  lemma Removed(issued: seq<Issue>, sent: seq<Issue>, done: seq<Delivery>, item: Delivery, rest: seq<Delivery>,
                cancelled: set<nat>, next: nat)
    requires Queue(issued, sent, done + [item] + rest, cancelled, next)
    ensures Queue(issued, sent, done + rest, cancelled + {item.id}, next)
  {
    WithoutOne(done, item, rest);
    CancelKeepsQueue(issued, sent, done + [item] + rest, cancelled, next, {item.id});
  }

  lemma FewerDeliveries(done: seq<Delivery>, item: Delivery, rest: seq<Delivery>, initial: int, maximum: int)
    requires BackedOff(done + [item] + rest, initial, maximum) && PagesMarked(done + [item] + rest)
    ensures BackedOff(done + rest, initial, maximum) && PagesMarked(done + rest)
  {
    assert forall d | d in done + rest :: d in done + [item] + rest;
  }

  lemma PageHasIncident(outbox: seq<Delivery>, item: Delivery)
    requires PagesMarked(outbox) && item in outbox && item.escalation != ""
    ensures item.incidentId != 0
  {
  }

  lemma Dropped(done: seq<Delivery>, item: Delivery, rest: seq<Delivery>)
    ensures var all := done + [item] + rest; all[|done|] == item && all[..|done|] + all[|done| + 1..] == done + rest
  {
  }

  lemma Replaced(done: seq<Delivery>, item: Delivery, rest: seq<Delivery>, other: Delivery)
    ensures (done + [item] + rest)[|done| := other] == done + [other] + rest
  {
  }

  lemma InsertLast(front: seq<Delivery>, last: Delivery)
    requires front == [] || ById(front[|front| - 1], last)
    ensures Insert(front, last, ById) == front + [last]
  {
  }

  lemma IncreasingFront(outbox: seq<Delivery>)
    requires Increasing(outbox) && outbox != []
    ensures Increasing(outbox[..|outbox| - 1])
    ensures |outbox| > 1 ==> ById(outbox[|outbox| - 2], outbox[|outbox| - 1])
  {
  }

  /** The outbox is kept in the order of its numbers, so sorting it changes nothing. */
  lemma {:induction false} SortIncreasing(outbox: seq<Delivery>)
    requires Increasing(outbox)
    ensures Sort(outbox, ById) == outbox
  {
    if outbox != [] {
      var front, last := outbox[..|outbox| - 1], outbox[|outbox| - 1];
      hide Increasing;
      IncreasingFront(outbox);
      SortIncreasing(front);
      InsertLast(front, last);
    }
  }

  lemma FirstDelay(initial: int, maximum: int)
    requires 0 < initial <= maximum
    ensures Delay(initial, maximum, 1) == initial
  {
    assert Pow2(0) == 1;
  }
}
