// From alerts to what is issued (internal/coordinator/operations.go, internal/coordinator/delivery.go).

/** Which alerts were handed to delivery, for which incidents, and what that issued. */
module Handovers {
  import opened Types
  import opened Sorting
  import opened Alerts
  import opened Incidents
  import opened Outboxes
  import opened Escalations

  /** An alert handed to delivery; `incident` is the one it opened, or 0 if it closes one. */
  datatype Handover = Handover(alert: Alert, incident: nat)

  /** One alert for one destination. */
  type Copy = (string, Alert)

  // ----- what a handover issues -----

  function Copies(targets: seq<string>, a: Alert): (copies: seq<Copy>)
    ensures |copies| == |targets| && forall i | 0 <= i < |targets| :: copies[i] == (targets[i], a)
  {
    seq(|targets|, i requires 0 <= i < |targets| => (targets[i], a))
  }

  /** Every handed alert for each of its targets, in order. */
  function Spread(handed: seq<Handover>, targets: Alert -> seq<string>): seq<Copy> {
    if handed == [] then []
    else
      var last := handed[|handed| - 1].alert;
      Spread(handed[..|handed| - 1], targets) + Copies(targets(last), last)
  }

  /** The incident behind each copy. */
  ghost function Owners(handed: seq<Handover>, targets: Alert -> seq<string>): (owners: seq<nat>)
    ensures |owners| == |Spread(handed, targets)|
  {
    if handed == [] then []
    else
      var last := handed[|handed| - 1];
      Owners(handed[..|handed| - 1], targets) + seq(|targets(last.alert)|, i => last.incident)
  }

  lemma SpreadOne(h: Handover, targets: Alert -> seq<string>)
    ensures Spread([h], targets) == Copies(targets(h.alert), h.alert)
  {
    assert [h][..0] == [];
  }

  lemma SpreadMore(handed: seq<Handover>, h: Handover, targets: Alert -> seq<string>)
    ensures Spread(handed + [h], targets) == Spread(handed, targets) + Copies(targets(h.alert), h.alert)
  {
    assert (handed + [h])[..|handed|] == handed;
  }

  lemma SpreadNone(targets: Alert -> seq<string>)
    ensures Spread([], targets) == []
  {
  }

  lemma {:induction false} SpreadConcat(xs: seq<Handover>, ys: seq<Handover>, targets: Alert -> seq<string>)
    ensures Spread(xs + ys, targets) == Spread(xs, targets) + Spread(ys, targets)
  {
    hide Spread;
    SpreadNone(targets);
    if ys == [] {
      assert xs + ys == xs;
    } else {
      var front, last := ys[..|ys| - 1], ys[|ys| - 1];
      SpreadConcat(xs, front, targets);
      SpreadMore(front, last, targets);
      SpreadMore(xs + front, last, targets);
      Regroup(xs, front, [last]);
      Regroup(Spread(xs, targets), Spread(front, targets), Copies(targets(last.alert), last.alert));
      assert ys == front + [last];
    }
  }

  lemma {:induction false} SpreadMembers(handed: seq<Handover>, targets: Alert -> seq<string>, copy: Copy)
    requires copy in Spread(handed, targets)
    ensures exists h :: h in handed && h.alert == copy.1 && copy.0 in targets(h.alert)
  {
    var front, last := handed[..|handed| - 1], handed[|handed| - 1];
    if copy in Spread(front, targets) {
      SpreadMembers(front, targets, copy);
      var h :| h in front && h.alert == copy.1 && copy.0 in targets(h.alert);
      assert h in handed;
    } else {
      assert copy in Copies(targets(last.alert), last.alert);
      assert last in handed;
    }
  }

  /** Exactly the alerts handed over, each for exactly its targets. */
  lemma {:induction false} SpreadExactly(handed: seq<Handover>, targets: Alert -> seq<string>, copy: Copy)
    ensures copy in Spread(handed, targets)
            <==> exists h :: h in handed && h.alert == copy.1 && copy.0 in targets(h.alert)
  {
    if copy in Spread(handed, targets) {
      SpreadMembers(handed, targets, copy);
    }
    if handed != [] {
      var front, last := handed[..|handed| - 1], handed[|handed| - 1];
      assert handed == front + [last];
      SpreadExactly(front, targets, copy);
      if last.alert == copy.1 && copy.0 in targets(last.alert) {
        var k :| 0 <= k < |targets(last.alert)| && targets(last.alert)[k] == copy.0;
        assert Copies(targets(last.alert), last.alert)[k] == copy;
      }
    }
  }

  lemma {:induction false} OwnersMembers(handed: seq<Handover>, targets: Alert -> seq<string>, owner: nat)
    requires owner in Owners(handed, targets)
    ensures exists h :: h in handed && h.incident == owner
  {
    var front, last := handed[..|handed| - 1], handed[|handed| - 1];
    if owner in Owners(front, targets) {
      OwnersMembers(front, targets, owner);
      var h :| h in front && h.incident == owner;
      assert h in handed;
    } else {
      assert last in handed;
    }
  }

  /** No incident is handed over twice. */
  ghost predicate Once(handed: seq<Handover>) {
    forall i, j | 0 <= i < j < |handed| && handed[i].incident != 0 :: handed[i].incident != handed[j].incident
  }

  /** No two copies of one incident's own alert have the same destination. */
  ghost predicate CopiedOnce(copies: seq<Copy>, owners: seq<nat>)
    requires |owners| == |copies|
  {
    forall i, j | 0 <= i < j < |copies| && owners[i] == owners[j] != 0 :: copies[i].0 != copies[j].0
  }

  lemma OwnersEarlier(handed: seq<Handover>, targets: Alert -> seq<string>, owner: nat)
    requires Once(handed) && handed != []
    requires owner in Owners(handed[..|handed| - 1], targets) && owner != 0
    ensures owner != handed[|handed| - 1].incident
  {
    var front := handed[..|handed| - 1];
    OwnersMembers(front, targets, owner);
    var k :| 0 <= k < |front| && front[k].incident == owner;
    assert handed[k].incident == owner;
  }

  lemma {:induction false} SpreadOnce(handed: seq<Handover>, targets: Alert -> seq<string>)
    requires Once(handed) && forall a :: Distinct(targets(a))
    ensures CopiedOnce(Spread(handed, targets), Owners(handed, targets))
  {
    if handed != [] {
      var front, last := handed[..|handed| - 1], handed[|handed| - 1];
      SpreadOnce(front, targets);
      var copies, owners := Spread(handed, targets), Owners(handed, targets);
      var n := |Spread(front, targets)|;
      forall i | 0 <= i < n && owners[i] != 0 ensures owners[i] != last.incident {
        assert owners[i] == Owners(front, targets)[i];
        OwnersEarlier(handed, targets, owners[i]);
      }
      forall i, j | 0 <= i < j < |copies| && owners[i] == owners[j] != 0 ensures copies[i].0 != copies[j].0 {
        if j < n {
          assert owners[i] == Owners(front, targets)[i] && owners[j] == Owners(front, targets)[j];
        } else if i >= n {
          assert copies[i].0 == targets(last.alert)[i - n] && copies[j].0 == targets(last.alert)[j - n];
        }
      }
    }
  }

  // ----- what was issued -----

  /** Everything issued that is not an escalation. */
  ghost function Plain(issues: seq<Issue>): seq<Copy> {
    if issues == [] then []
    else
      var last := issues[|issues| - 1];
      Plain(issues[..|issues| - 1]) + if last.incidentId == 0 then [(last.destination, last.alert)] else []
  }

  ghost predicate IsCopy(x: Issue, copy: Copy) {
    x.incidentId == 0 && x.destination == copy.0 && x.alert == copy.1
  }

  /** Exactly these copies were issued, in order. */
  ghost predicate IssuedAs(before: seq<Issue>, after: seq<Issue>, copies: seq<Copy>) {
    && before <= after && |after| == |before| + |copies|
    && forall i | 0 <= i < |copies| :: IsCopy(after[|before| + i], copies[i])
  }

  lemma {:induction false} PlainIssued(before: seq<Issue>, after: seq<Issue>, copies: seq<Copy>)
    requires IssuedAs(before, after, copies)
    ensures Plain(after) == Plain(before) + copies
  {
    if copies == [] {
      assert before == after;
    } else {
      var front, last := copies[..|copies| - 1], copies[|copies| - 1];
      PlainIssued(before, after[..|after| - 1], front);
      assert IsCopy(after[|before| + |front|], last);
      assert copies == front + [last];
    }
  }

  lemma PlainPage(issues: seq<Issue>, x: Issue)
    requires x.incidentId != 0
    ensures Plain(issues + [x]) == Plain(issues)
  {
    assert (issues + [x])[..|issues|] == issues;
  }

  lemma {:induction false} PlainMembers(issues: seq<Issue>, x: Issue)
    requires x in issues && x.incidentId == 0
    ensures (x.destination, x.alert) in Plain(issues)
  {
    var front, last := issues[..|issues| - 1], issues[|issues| - 1];
    if x != last {
      assert issues == front + [last];
      PlainMembers(front, x);
    }
  }

  lemma IssuedThen(a: seq<Issue>, b: seq<Issue>, c: seq<Issue>, first: seq<Copy>, second: seq<Copy>)
    requires IssuedAs(a, b, first) && IssuedAs(b, c, second)
    ensures IssuedAs(a, c, first + second)
  {
    var copies := first + second;
    forall i | 0 <= i < |copies| ensures IsCopy(c[|a| + i], copies[i]) {
      if i < |first| {
        assert IsCopy(b[|a| + i], first[i]);
      } else {
        assert IsCopy(c[|b| + (i - |first|)], second[i - |first|]);
      }
    }
  }

  /** What was issued meanwhile has been sent or queued behind everything else, and nothing else has. */
  ghost predicate Took(issuedBefore: seq<Issue>, issued: seq<Issue>, sentBefore: seq<Issue>, sent: seq<Issue>,
                       before: seq<Delivery>, outbox: seq<Delivery>) {
    && issuedBefore <= issued && sentBefore <= sent && before <= outbox
    && |issued| - |issuedBefore| == (|sent| - |sentBefore|) + (|outbox| - |before|)
    && (forall k | |sentBefore| <= k < |sent| :: sent[k] in issued[|issuedBefore|..])
    && (forall k | |before| <= k < |outbox| :: Queued(outbox[k]) in issued[|issuedBefore|..])
  }

  /** Either the issue was sent past an empty queue, or it was queued behind everything else. */
  ghost predicate Passed(sentBefore: seq<Issue>, sent: seq<Issue>, before: seq<Delivery>, after: seq<Delivery>,
                         x: Issue) {
    || (sent == sentBefore + [x] && after == before && forall d | d in before :: d.destination != x.destination)
    || (sent == sentBefore && |after| == |before| + 1 && before <= after && Queued(after[|before|]) == x)
  }

  lemma NothingTaken(issued: seq<Issue>, sent: seq<Issue>, outbox: seq<Delivery>)
    ensures Took(issued, issued, sent, sent, outbox, outbox)
  {
  }

  lemma NothingIssued(issued: seq<Issue>)
    ensures IssuedAs(issued, issued, [])
  {
  }

  lemma TookGrows(issuedBefore: seq<Issue>, issued: seq<Issue>, sentBefore: seq<Issue>, sent: seq<Issue>,
                  before: seq<Delivery>, outbox: seq<Delivery>)
    requires Took(issuedBefore, issued, sentBefore, sent, before, outbox)
    ensures issuedBefore <= issued && sentBefore <= sent
  {
  }

  lemma TookThen(issuedFirst: seq<Issue>, issuedBefore: seq<Issue>, issued: seq<Issue>, sentFirst: seq<Issue>,
                 sentBefore: seq<Issue>, sent: seq<Issue>, first: seq<Delivery>, before: seq<Delivery>,
                 outbox: seq<Delivery>)
    requires Took(issuedFirst, issuedBefore, sentFirst, sentBefore, first, before)
    requires Took(issuedBefore, issued, sentBefore, sent, before, outbox)
    ensures Took(issuedFirst, issued, sentFirst, sent, first, outbox)
  {
    assert issued[|issuedFirst|..] == issuedBefore[|issuedFirst|..] + issued[|issuedBefore|..];
  }

  lemma TookMore(issuedFirst: seq<Issue>, issuedBefore: seq<Issue>, sentFirst: seq<Issue>, sentBefore: seq<Issue>,
                 sent: seq<Issue>, first: seq<Delivery>, before: seq<Delivery>, outbox: seq<Delivery>, x: Issue)
    requires Took(issuedFirst, issuedBefore, sentFirst, sentBefore, first, before)
    requires Passed(sentBefore, sent, before, outbox, x)
    ensures Took(issuedFirst, issuedBefore + [x], sentFirst, sent, first, outbox)
  {
    assert (issuedBefore + [x])[|issuedFirst|..] == issuedBefore[|issuedFirst|..] + [x];
  }

  // ----- what was handed over -----

  ghost predicate WasHanded(handed: seq<Handover>, id: nat) {
    exists h :: h in handed && h.incident == id
  }

  /** The alert is the one that opened the incident, at whatever time it was sent. */
  ghost predicate OwnAlert(incidents: seq<Incident>, h: Handover) {
    exists i :: 0 <= i < |incidents| && incidents[i].id == h.incident
                && h.alert == incidents[i].alert.(at := h.alert.at)
  }

  /** Handed over are closing alerts and, at most once and exactly if it is not held back, every incident's own. */
  ghost predicate HandedOver(incidents: seq<Incident>, handed: seq<Handover>) {
    && Once(handed)
    && (forall h | h in handed :: if h.incident == 0 then Closes(h.alert.kind) else OwnAlert(incidents, h))
    && (forall i | 0 <= i < |incidents| :: incidents[i].suppressed <==> !WasHanded(handed, incidents[i].id))
  }

  lemma WasHandedMore(handed: seq<Handover>, h: Handover, id: nat)
    ensures WasHanded(handed + [h], id) <==> WasHanded(handed, id) || h.incident == id
  {
    assert forall g :: g in handed + [h] <==> g in handed || g == h;
    if h.incident == id {
      assert h in handed + [h];
    }
    if WasHanded(handed, id) {
      var g :| g in handed && g.incident == id;
      assert g in handed + [h];
    }
  }

  lemma OwnAlertPersists(before: seq<Incident>, after: seq<Incident>, h: Handover)
    requires Persist(before, after) && OwnAlert(before, h)
    ensures OwnAlert(after, h)
  {
    var i :| 0 <= i < |before| && before[i].id == h.incident && h.alert == before[i].alert.(at := h.alert.at);
    assert after[i].id == h.incident;
  }

  lemma OnceMore(handed: seq<Handover>, h: Handover)
    requires Once(handed) && (h.incident == 0 || !WasHanded(handed, h.incident))
    ensures Once(handed + [h])
  {
    forall i | 0 <= i < |handed| && handed[i].incident != 0 ensures handed[i].incident != h.incident {
      assert handed[i] in handed;
    }
  }

  lemma OpenHandedOver(incidents: seq<Incident>, next: nat, handed: seq<Handover>, added: Incident)
    requires Numbered(incidents, next) && HandedOver(incidents, handed) && added.id == next + 1
    ensures HandedOver(incidents + [added],
                       if added.suppressed then handed else handed + [Handover(added.alert, added.id)])
  {
    var more, h := incidents + [added], Handover(added.alert, added.id);
    var now := if added.suppressed then handed else handed + [h];
    assert !WasHanded(handed, next + 1) by {
      assert forall g | g in handed && g.incident != 0 :: OwnAlert(incidents, g) && g.incident <= next;
    }
    OnceMore(handed, h);
    forall g | g in now && g.incident != 0 ensures OwnAlert(more, g) {
      if g in handed {
        OwnAlertPersists(incidents, more, g);
      } else {
        assert more[|incidents|].id == g.incident;
      }
    }
    forall i | 0 <= i < |more| ensures more[i].suppressed <==> !WasHanded(now, more[i].id) {
      WasHandedMore(handed, h, more[i].id);
    }
  }

  lemma ChangeHandedOver(incidents: seq<Incident>, handed: seq<Handover>, i: nat, changed: Incident)
    requires HandedOver(incidents, handed) && i < |incidents|
    requires changed.id == incidents[i].id && changed.suppressed == incidents[i].suppressed
    requires changed.alert == incidents[i].alert && (Dismissed(incidents[i]) ==> Dismissed(changed))
    ensures HandedOver(incidents[i := changed], handed)
  {
    forall h | h in handed && h.incident != 0 ensures OwnAlert(incidents[i := changed], h) {
      OwnAlertPersists(incidents, incidents[i := changed], h);
    }
  }

  lemma ReleaseHandedOver(incidents: seq<Incident>, next: nat, handed: seq<Handover>, i: nat, released: Incident,
                          now: Time)
    requires Numbered(incidents, next) && HandedOver(incidents, handed) && i < |incidents|
    requires incidents[i].suppressed
    requires released == incidents[i].(suppressed := false, maintenance := "", silenceId := 0)
    ensures HandedOver(incidents[i := released], handed + [Handover(released.alert.(at := now), released.id)])
  {
    var more, h := incidents[i := released], Handover(released.alert.(at := now), released.id);
    OnceMore(handed, h);
    forall g | g in handed + [h] && g.incident != 0 ensures OwnAlert(more, g) {
      if g in handed {
        OwnAlertPersists(incidents, more, g);
      } else {
        assert more[i].id == g.incident;
      }
    }
    forall k | 0 <= k < |more| ensures more[k].suppressed <==> !WasHanded(handed + [h], more[k].id) {
      WasHandedMore(handed, h, more[k].id);
    }
  }

  lemma CloseHandedOver(incidents: seq<Incident>, next: nat, handed: seq<Handover>, a: Alert)
    requires Numbered(incidents, next) && HandedOver(incidents, handed) && Closes(a.kind)
    ensures HandedOver(incidents, handed + [Handover(a, 0)])
  {
    OnceMore(handed, Handover(a, 0));
    forall i | 0 <= i < |incidents|
      ensures incidents[i].suppressed <==> !WasHanded(handed + [Handover(a, 0)], incidents[i].id)
    {
      WasHandedMore(handed, Handover(a, 0), incidents[i].id);
    }
  }

  lemma EnterClosed(incidents: seq<Incident>, next: nat, handed: seq<Handover>, raised: seq<Alert>, a: Alert,
                    suppressed: bool)
    requires Numbered(incidents, next) && HandedOver(incidents, handed) && Told(incidents, handed, raised)
    requires Closes(a.kind)
    ensures var i := LatestActive(incidents, a.Subject());
            var after := if i < 0 then incidents else incidents[i := Closed(incidents[i], a.at)];
            var later := if suppressed then handed else handed + [Handover(a, 0)];
            HandedOver(after, later) && Told(after, later, raised + [a])
  {
    var i := LatestActive(incidents, a.Subject());
    var after := if i < 0 then incidents else incidents[i := Closed(incidents[i], a.at)];
    if i >= 0 {
      ChangeHandedOver(incidents, handed, i, Closed(incidents[i], a.at));
    }
    CloseHandedOver(after, next, handed, a);
  }

  lemma EnterOpened(incidents: seq<Incident>, next: nat, handed: seq<Handover>, raised: seq<Alert>, added: Incident)
    requires Numbered(incidents, next) && HandedOver(incidents, handed) && Told(incidents, handed, raised)
    requires added.id == next + 1
    ensures var after := incidents + [added];
            var later := if added.suppressed then handed else handed + [Handover(added.alert, added.id)];
            HandedOver(after, later) && Told(after, later, raised + [added.alert])
  {
    OpenHandedOver(incidents, next, handed, added);
  }

  // ----- where it all comes from -----

  /** Incidents and closing alerts go back to alerts that were raised. */
  ghost predicate Told(incidents: seq<Incident>, handed: seq<Handover>, raised: seq<Alert>) {
    && (forall i | 0 <= i < |incidents| :: incidents[i].alert in raised)
    && (forall h | h in handed && h.incident == 0 :: h.alert in raised)
  }

  lemma ChangeTold(incidents: seq<Incident>, handed: seq<Handover>, raised: seq<Alert>, i: nat, changed: Incident)
    requires Told(incidents, handed, raised) && i < |incidents| && changed.alert == incidents[i].alert
    ensures Told(incidents[i := changed], handed, raised)
  {
  }

  lemma ReleaseTold(incidents: seq<Incident>, next: nat, handed: seq<Handover>, raised: seq<Alert>, i: nat,
                    released: Incident,
                    now: Time)
    requires Numbered(incidents, next) && Told(incidents, handed, raised) && i < |incidents|
    requires released.alert == incidents[i].alert && released.id == incidents[i].id
    ensures Told(incidents[i := released], handed + [Handover(released.alert.(at := now), released.id)], raised)
  {
  }

  lemma HandedOnce(incidents: seq<Incident>, handed: seq<Handover>)
    requires HandedOver(incidents, handed)
    ensures Once(handed)
  {
  }

  /** The same alert, but for when it was sent and whether it escalates. */
  predicate SameNews(a: Alert, b: Alert) {
    a == b.(at := a.at, escalation := a.escalation)
  }

  /** Every issue, of whatever kind, repeats an alert that was raised. */
  lemma IssuesAreRaised(incidents: seq<Incident>, handed: seq<Handover>, raised: seq<Alert>, issued: seq<Issue>,
                        targets: Alert -> seq<string>, x: Issue)
    requires HandedOver(incidents, handed) && Told(incidents, handed, raised) && PagesRepeat(incidents, issued)
    requires Plain(issued) == Spread(handed, targets) && x in issued
    ensures exists a :: a in raised && SameNews(x.alert, a)
  {
    if x.incidentId != 0 {
      assert Repeats(incidents, x);
      var i :| 0 <= i < |incidents| && incidents[i].id == x.incidentId
               && x.alert == incidents[i].alert.(at := x.alert.at, escalation := x.alert.escalation);
      assert SameNews(x.alert, incidents[i].alert);
    } else {
      PlainMembers(issued, x);
      SpreadMembers(handed, targets, (x.destination, x.alert));
      var h :| h in handed && h.alert == x.alert;
      if h.incident != 0 {
        assert OwnAlert(incidents, h);
        var i :| 0 <= i < |incidents| && incidents[i].id == h.incident
                 && h.alert == incidents[i].alert.(at := h.alert.at);
        assert SameNews(x.alert, incidents[i].alert);
      } else {
        assert SameNews(x.alert, h.alert);
      }
    }
  }
}
