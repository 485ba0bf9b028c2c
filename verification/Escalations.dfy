// Escalations of incidents as values (internal/coordinator/delivery.go).

/** Escalations: which are due, and which may be pending. */
module Escalations {
  import opened Wrappers
  import opened Types
  import opened Alerts
  import opened Windows
  import opened Incidents
  import opened Outboxes
  import opened SuppressionLaws

  datatype Policy = Policy(
    name: string,
    destination: string,
    after: int,
    checks: seq<string>,
    components: seq<string>,
    probers: seq<string>,
    kinds: seq<Kind>)

  predicate Pageable(incident: Incident) {
    incident.active && incident.acknowledgedAt.None? && !incident.suppressed
  }

  /** Warnings are escalated only by policies that name them. */
  predicate Due(incident: Incident, policy: Policy, now: Time) {
    && Pageable(incident)
    && incident.openedAt + policy.after <= now
    && SelectorMatches(incident.alert, policy.checks, policy.components, policy.probers, policy.kinds)
    && (incident.kind == KindWarning ==> KindWarning in policy.kinds)
  }

  /** The same by fields: the incident waits unanswered for long enough, and the policy is meant for it. */
  ghost predicate Warranted(incident: Incident, policy: Policy, now: Time) {
    && incident.active && !incident.suppressed && incident.acknowledgedAt == None
    && now >= incident.openedAt + policy.after
    && Concerns(incident.alert, policy.checks, policy.components, policy.probers)
    && (|policy.kinds| == 0 || Lists(policy.kinds, incident.alert.kind))
    && (incident.kind == KindWarning ==> Lists(policy.kinds, KindWarning))
  }

  ghost predicate Lists(kinds: seq<Kind>, kind: Kind) {
    exists i :: 0 <= i < |kinds| && kinds[i] == kind
  }

  lemma DueExactly(incident: Incident, policy: Policy, now: Time)
    ensures Due(incident, policy, now) <==> Warranted(incident, policy, now)
  {
    hide AlertMatches, Concerns;
    ConcernsExactly(incident.alert, policy.checks, policy.components, policy.probers);
  }

  function Page(incident: Incident, policy: Policy, now: Time): Alert {
    incident.alert.(at := now, escalation := policy.name)
  }

  /** `escalationRelevant`: the incident of the delivery still warrants a page. */
  ghost predicate Relevant(incidents: seq<Incident>, id: nat) {
    exists i :: 0 <= i < |incidents| && incidents[i].id == id && Pageable(incidents[i])
  }

  /** By fields: it is active, not acknowledged and not suppressed. */
  lemma RelevantExactly(incidents: seq<Incident>, id: nat)
    ensures Relevant(incidents, id)
            <==> exists i :: 0 <= i < |incidents| && incidents[i].id == id && incidents[i].active
                             && incidents[i].acknowledgedAt == None && !incidents[i].suppressed
  {
  }

  ghost predicate PagesRelevant(incidents: seq<Incident>, outbox: seq<Delivery>) {
    forall d | d in outbox && d.escalation != "" :: Relevant(incidents, d.incidentId)
  }

  /** A delivery belongs to an incident exactly if it escalates it. */
  ghost predicate PagesMarked(outbox: seq<Delivery>) {
    forall d | d in outbox :: d.incidentId != 0 <==> d.escalation != ""
  }

  type Escalated = map<(nat, string), Time>

  function PageKey(x: Issue): (nat, string) {
    (x.incidentId, x.alert.escalation)
  }

  /** No incident was escalated twice by the same policy. */
  ghost predicate PagedOnce(issued: seq<Issue>, escalated: Escalated) {
    && (forall i, j | 0 <= i < j < |issued| && issued[i].incidentId != 0 && issued[j].incidentId != 0 ::
          PageKey(issued[i]) != PageKey(issued[j]))
    && (forall i | 0 <= i < |issued| && issued[i].incidentId != 0 :: PageKey(issued[i]) in escalated)
  }

  /** The pending escalations of one incident. */
  ghost function PageIds(outbox: seq<Delivery>, incidentId: nat): set<nat> {
    set d | d in outbox && Pages(d, incidentId) :: d.id
  }

  predicate Pages(d: Delivery, incidentId: nat) {
    d.incidentId == incidentId && d.escalation != ""
  }

  lemma PageIdsExact(outbox: seq<Delivery>, incidentId: nat, d: Delivery)
    requires Increasing(outbox) && d in outbox
    ensures d.id in PageIds(outbox, incidentId) <==> Pages(d, incidentId)
  {
    if d.id in PageIds(outbox, incidentId) {
      var e :| e in outbox && Pages(e, incidentId) && e.id == d.id;
      var i :| 0 <= i < |outbox| && outbox[i] == d;
      var j :| 0 <= j < |outbox| && outbox[j] == e;
    }
  }

  /** Changing one incident and cancelling its escalations leaves only relevant ones. */
  lemma CancelKeepsRelevant(incidents: seq<Incident>, next: nat, outbox: seq<Delivery>, i: nat, changed: Incident)
    requires Numbered(incidents, next) && Increasing(outbox)
    requires i < |incidents| && changed.id == incidents[i].id
    requires PagesRelevant(incidents, outbox) && PagesMarked(outbox)
    ensures var kept := Without(outbox, PageIds(outbox, incidents[i].id));
            PagesRelevant(incidents[i := changed], kept) && PagesMarked(kept)
  {
    var kept := Without(outbox, PageIds(outbox, incidents[i].id));
    WithoutContains(outbox, PageIds(outbox, incidents[i].id));
    forall d | d in kept && d.escalation != "" ensures Relevant(incidents[i := changed], d.incidentId) {
      PageIdsExact(outbox, incidents[i].id, d);
      var k :| 0 <= k < |incidents| && incidents[k].id == d.incidentId && Pageable(incidents[k]);
      assert incidents[i := changed][k] == incidents[k];
    }
  }

  /** A new incident takes nothing from the older ones. */
  lemma OpenKeepsRelevant(incidents: seq<Incident>, outbox: seq<Delivery>, added: Incident)
    requires PagesRelevant(incidents, outbox)
    ensures PagesRelevant(incidents + [added], outbox)
  {
    forall d | d in outbox && d.escalation != "" ensures Relevant(incidents + [added], d.incidentId) {
      var k :| 0 <= k < |incidents| && incidents[k].id == d.incidentId && Pageable(incidents[k]);
      assert (incidents + [added])[k] == incidents[k];
    }
  }

  /** Ending a suppression only makes more incidents warrant a page. */
  lemma ReleaseKeepsRelevant(incidents: seq<Incident>, outbox: seq<Delivery>, i: nat, released: Incident)
    requires PagesRelevant(incidents, outbox) && i < |incidents|
    requires released == incidents[i].(suppressed := false, maintenance := "", silenceId := 0)
    ensures PagesRelevant(incidents[i := released], outbox)
  {
    forall d | d in outbox && d.escalation != "" ensures Relevant(incidents[i := released], d.incidentId) {
      var k :| 0 <= k < |incidents| && incidents[k].id == d.incidentId && Pageable(incidents[k]);
      assert Pageable(incidents[i := released][k]);
    }
  }

  lemma PageOnce(issued: seq<Issue>, escalated: Escalated, x: Issue, now: Time)
    requires PagedOnce(issued, escalated)
    requires x.incidentId != 0 ==> PageKey(x) !in escalated
    ensures PagedOnce(issued + [x], if x.incidentId == 0 then escalated else escalated[PageKey(x) := now])
  {
  }

  // ----- what is cancelled -----

  /** Only escalations are ever cancelled. */
  ghost predicate OnlyPagesCancelled(issued: seq<Issue>, cancelled: set<nat>) {
    forall x | x in issued && x.id in cancelled :: x.incidentId != 0
  }

  /** Numbers identify what was queued, and only escalations are cancelled. */
  ghost predicate Marked(issued: seq<Issue>, cancelled: set<nat>, next: nat) {
    Identified(issued, next) && OnlyPagesCancelled(issued, cancelled)
  }

  lemma MarkedMore(issued: seq<Issue>, cancelled: set<nat>, next: nat, x: Issue, later: nat)
    requires Marked(issued, cancelled, next) && x.id !in cancelled
    requires if x.id == 0 then later == next else later == x.id == next + 1
    ensures Marked(issued + [x], cancelled, later)
  {
    var more := issued + [x];
    assert forall y | y in more :: y in issued || y == x;
    forall i, j | 0 <= i < j < |more| && more[i].id != 0 ensures more[i].id != more[j].id {
      assert more[i] in issued;
    }
  }

  /** The pending escalations of an incident are the issues with their numbers. */
  lemma PageIssues(issued: seq<Issue>, sent: seq<Issue>, outbox: seq<Delivery>, cancelled: set<nat>, next: nat,
                   incidentId: nat)
    requires Queue(issued, sent, outbox, cancelled, next) && Identified(issued, next)
    ensures forall x | x in issued && x.id in PageIds(outbox, incidentId) :: x.incidentId == incidentId
  {
    forall x | x in issued && x.id in PageIds(outbox, incidentId) ensures x.incidentId == incidentId {
      var d :| d in outbox && Pages(d, incidentId) && d.id == x.id;
      PendingIssued(issued, sent, outbox, cancelled, next, d);
      SameIssue(issued, next, x, Queued(d));
    }
  }

  lemma MarkedCancel(issued: seq<Issue>, sent: seq<Issue>, outbox: seq<Delivery>, cancelled: set<nat>, next: nat,
                     incidentId: nat)
    requires Queue(issued, sent, outbox, cancelled, next) && Marked(issued, cancelled, next) && PagesMarked(outbox)
    ensures Marked(issued, cancelled + PageIds(outbox, incidentId), next)
  {
    PageIssues(issued, sent, outbox, cancelled, next, incidentId);
    forall x | x in issued && x.id in PageIds(outbox, incidentId) ensures x.incidentId != 0 {
      var d :| d in outbox && Pages(d, incidentId) && d.id == x.id;
    }
  }

  lemma MarkedDrop(issued: seq<Issue>, sent: seq<Issue>, outbox: seq<Delivery>, cancelled: set<nat>, next: nat,
                   d: Delivery)
    requires Queue(issued, sent, outbox, cancelled, next) && Marked(issued, cancelled, next)
    requires d in outbox && d.incidentId != 0
    ensures Marked(issued, cancelled + {d.id}, next)
  {
    forall x | x in issued && x.id == d.id ensures x.incidentId != 0 {
      PendingIssued(issued, sent, outbox, cancelled, next, d);
      SameIssue(issued, next, x, Queued(d));
    }
  }

  // ----- escalations and their incidents -----

  /** An incident that will never warrant a page again. */
  predicate Dismissed(incident: Incident) {
    !incident.active || incident.acknowledgedAt.Some?
  }

  ghost predicate Withdrawn(incidents: seq<Incident>, id: nat) {
    exists i :: 0 <= i < |incidents| && incidents[i].id == id && Dismissed(incidents[i])
  }

  /** Escalations are cancelled only for incidents that are closed or acknowledged. */
  ghost predicate CancelledWithdrawn(incidents: seq<Incident>, issued: seq<Issue>, cancelled: set<nat>) {
    forall x | x in issued && x.id in cancelled :: Withdrawn(incidents, x.incidentId)
  }

  /** The escalation repeats the alert of its incident. */
  ghost predicate Repeats(incidents: seq<Incident>, x: Issue) {
    exists i :: 0 <= i < |incidents| && incidents[i].id == x.incidentId
                && x.alert == incidents[i].alert.(at := x.alert.at, escalation := x.alert.escalation)
  }

  ghost predicate PagesRepeat(incidents: seq<Incident>, issued: seq<Issue>) {
    forall x | x in issued && x.incidentId != 0 :: Repeats(incidents, x)
  }

  /** Pending, issued and cancelled escalations fit the incidents. */
  ghost predicate Tied(incidents: seq<Incident>, issued: seq<Issue>, cancelled: set<nat>, outbox: seq<Delivery>) {
    && PagesRelevant(incidents, outbox)
    && CancelledWithdrawn(incidents, issued, cancelled)
    && PagesRepeat(incidents, issued)
  }

  /** Whatever happens to an incident, it keeps its number and its alert. */
  ghost predicate Persist(before: seq<Incident>, after: seq<Incident>) {
    && |before| <= |after|
    && forall i | 0 <= i < |before| :: after[i].id == before[i].id && after[i].alert == before[i].alert
                                       && (Dismissed(before[i]) ==> Dismissed(after[i]))
  }

  lemma PersistTied(before: seq<Incident>, after: seq<Incident>, issued: seq<Issue>, cancelled: set<nat>)
    requires Persist(before, after)
    requires CancelledWithdrawn(before, issued, cancelled) && PagesRepeat(before, issued)
    ensures CancelledWithdrawn(after, issued, cancelled) && PagesRepeat(after, issued)
  {
    forall x | x in issued && x.id in cancelled ensures Withdrawn(after, x.incidentId) {
      var i :| 0 <= i < |before| && before[i].id == x.incidentId && Dismissed(before[i]);
      assert after[i].id == x.incidentId && Dismissed(after[i]);
    }
    forall x | x in issued && x.incidentId != 0 ensures Repeats(after, x) {
      assert Repeats(before, x);
      var i :| 0 <= i < |before| && before[i].id == x.incidentId
               && x.alert == before[i].alert.(at := x.alert.at, escalation := x.alert.escalation);
      assert after[i].id == x.incidentId;
    }
  }

  lemma PendingRelevant(incidents: seq<Incident>, issued: seq<Issue>, cancelled: set<nat>, outbox: seq<Delivery>,
                        d: Delivery)
    requires Tied(incidents, issued, cancelled, outbox) && d in outbox && d.escalation != ""
    ensures Relevant(incidents, d.incidentId)
  {
  }

  lemma TiedPlain(incidents: seq<Incident>, issued: seq<Issue>, cancelled: set<nat>, outbox: seq<Delivery>,
                  x: Issue, later: seq<Delivery>)
    requires Tied(incidents, issued, cancelled, outbox) && x.incidentId == 0 && x.id !in cancelled
    requires forall d | d in later && d.escalation != "" :: d in outbox
    ensures Tied(incidents, issued + [x], cancelled, later)
  {
    assert forall y | y in issued + [x] :: y in issued || y == x;
  }

  lemma TiedPage(incidents: seq<Incident>, issued: seq<Issue>, cancelled: set<nat>, outbox: seq<Delivery>, i: nat,
                 d: Delivery)
    requires Tied(incidents, issued, cancelled, outbox) && i < |incidents| && Pageable(incidents[i])
    requires d.incidentId == incidents[i].id && d.id !in cancelled
    requires d.alert == incidents[i].alert.(at := d.alert.at, escalation := d.alert.escalation)
    ensures Tied(incidents, issued + [Queued(d)], cancelled, outbox + [d])
  {
    assert Relevant(incidents, d.incidentId);
    assert Repeats(incidents, Queued(d));
    assert forall y | y in issued + [Queued(d)] :: y in issued || y == Queued(d);
  }

  lemma TiedFewer(incidents: seq<Incident>, issued: seq<Issue>, cancelled: set<nat>, outbox: seq<Delivery>,
                  item: Delivery,
                  later: seq<Delivery>, kept: seq<Delivery>)
    requires Tied(incidents, issued, cancelled, outbox) && item in outbox
    requires forall d | d in later :: d in outbox || d in kept
    requires forall k | k in kept :: k.escalation == item.escalation && k.incidentId == item.incidentId
    ensures Tied(incidents, issued, cancelled, later)
  {
  }

  lemma TiedOpen(incidents: seq<Incident>, issued: seq<Issue>, cancelled: set<nat>, outbox: seq<Delivery>,
                 added: Incident)
    requires Tied(incidents, issued, cancelled, outbox)
    ensures Tied(incidents + [added], issued, cancelled, outbox)
  {
    OpenKeepsRelevant(incidents, outbox, added);
    PersistTied(incidents, incidents + [added], issued, cancelled);
  }

  lemma TiedRelease(incidents: seq<Incident>, issued: seq<Issue>, cancelled: set<nat>, outbox: seq<Delivery>, i: nat,
                    released: Incident)
    requires Tied(incidents, issued, cancelled, outbox) && i < |incidents|
    requires released == incidents[i].(suppressed := false, maintenance := "", silenceId := 0)
    ensures Tied(incidents[i := released], issued, cancelled, outbox)
  {
    ReleaseKeepsRelevant(incidents, outbox, i, released);
    PersistTied(incidents, incidents[i := released], issued, cancelled);
  }

  /** An incident is closed or acknowledged, and its pending escalations are cancelled. */
  lemma TiedWithdraw(incidents: seq<Incident>, nextIncident: nat, issued: seq<Issue>, sent: seq<Issue>,
                     outbox: seq<Delivery>,
                     cancelled: set<nat>, next: nat, i: nat, changed: Incident)
    requires Tied(incidents, issued, cancelled, outbox) && Numbered(incidents, nextIncident)
    requires Queue(issued, sent, outbox, cancelled, next) && Identified(issued, next) && PagesMarked(outbox)
    requires i < |incidents| && Dismissed(changed)
    requires changed.id == incidents[i].id && changed.alert == incidents[i].alert
    ensures var ids := PageIds(outbox, incidents[i].id);
            Tied(incidents[i := changed], issued, cancelled + ids, Without(outbox, ids))
  {
    var ids, after := PageIds(outbox, incidents[i].id), incidents[i := changed];
    QueueIncreasing(issued, sent, outbox, cancelled, next);
    CancelKeepsRelevant(incidents, nextIncident, outbox, i, changed);
    PersistTied(incidents, after, issued, cancelled);
    PageIssues(issued, sent, outbox, cancelled, next, incidents[i].id);
    forall x | x in issued && x.id in cancelled + ids ensures Withdrawn(after, x.incidentId) {
      if x.id in ids {
        assert after[i].id == x.incidentId;
      }
    }
  }

  /** The incident of a cancelled escalation does not warrant a page. */
  lemma CancelledIrrelevant(incidents: seq<Incident>, next: nat, id: nat)
    requires Numbered(incidents, next) && Withdrawn(incidents, id)
    ensures !Relevant(incidents, id)
  {
    var i :| 0 <= i < |incidents| && incidents[i].id == id && Dismissed(incidents[i]);
    forall k | 0 <= k < |incidents| && incidents[k].id == id ensures k == i {
    }
  }
}
