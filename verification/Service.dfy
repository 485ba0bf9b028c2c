// Results in, notifications out (internal/coordinator/coordinator.go, internal/coordinator/operations.go).

/** The coordinator's decisions and the ledger, outbox and escalations they feed. */
module Service {
  import opened Wrappers
  import opened Types
  import opened Verdicts
  import opened VerdictProperties
  import opened Alerts
  import opened Transitions
  import opened Incidents
  import opened Outboxes
  import opened Handovers
  import opened Fleet
  import Deciding = Coordinator
  import Ledgers = Operations

  /** Why an alert about a check was raised. */
  datatype Proof = Proof(alert: Alert, evidence: seq<Result>, opts: Options)

  datatype View = View(status: Status, past: seq<Status>, told: seq<Kind>)

  /** One more verdict, and the alert that it calls for. */
  ghost predicate Ruled(before: View, after: View, status: Status) {
    var (next, kind) := Transition(before.status, status);
    after == View(next, before.past + [status], before.told + if kind.Some? then [kind.value] else [])
  }

  ghost predicate Followed(before: (Status, seq<Kind>), after: (Status, seq<Kind>), status: Status) {
    var (next, kind) := Transition(before.0, status);
    after == (next, before.1 + if kind.Some? then [kind.value] else [])
  }

  /** Both sides follow the same verdict alike. */
  lemma RuledAlike(seen: View, later: View, stand: (Status, seq<Kind>), moved: (Status, seq<Kind>), status: Status)
    requires stand == (seen.status, seen.told) && Ruled(seen, later, status) && Followed(stand, moved, status)
    ensures moved == (later.status, later.told)
  {
  }

  /** A result with the replies it may call for, or any other step of the machine. */
  datatype Input =
    | Report(result: Result, replies: map<string, Result>, isolated: set<string>, at: Time)
    | Other(step: Ledgers.Step)

  class Service {
    const coordinator: Deciding.Coordinator
    const machine: Ledgers.Operations
    /** The evidence of every alert about a check that alerts by itself. */
    ghost var proofs: seq<Proof>

    constructor (coordinator: Deciding.Coordinator, machine: Ledgers.Operations)
      requires coordinator.Valid() && coordinator.states == map[]
      requires machine.Valid() && machine.states == map[] && machine.raised == []
      requires forall n | n in coordinator.checks && n !in coordinator.grouped :: n != "" && n in machine.subjects
      ensures Valid() && this.coordinator == coordinator && this.machine == machine
    {
      this.coordinator, this.machine, proofs := coordinator, machine, [];
    }

    /** Does the check alert by itself rather than through a component? */
    predicate Alerting(name: string) {
      name in coordinator.checks && name !in coordinator.grouped
    }

    ghost predicate Valid()
      reads this, coordinator, coordinator.states.Values, machine
    {
      && coordinator.Valid() && machine.Valid()
      && (forall n | Alerting(n) :: n != "" && n in machine.subjects)
      && (forall n | Alerting(n) :: Agreed(n))
      && Backing(proofs, machine.raised)
    }

    /** Every alert raised about a check that alerts by itself has its proof. */
    ghost predicate Backing(proofs: seq<Proof>, raised: seq<Alert>) {
      && (forall p | p in proofs :: Proven(p))
      && (forall a | a in raised && Alerting(a.Subject()) :: HasProof(proofs, a))
    }

    lemma BackingMore(proofs: seq<Proof>, raised: seq<Alert>, p: Proof)
      requires Backing(proofs, raised) && Proven(p)
      ensures Backing(proofs + [p], raised + [p.alert])
    {
      hide Proven;
      var more := proofs + [p];
      assert more[|proofs|] == p;
      forall a | a in raised + [p.alert] && Alerting(a.Subject()) ensures HasProof(more, a) {
        if a != p.alert {
          assert HasProof(proofs, a);
          var q :| q in proofs && q.alert == a;
          assert q in more;
        } else {
          assert p in more;
        }
      }
    }

    /** What the coordinator has decided on a check: its status, all verdicts, and the alerts they called for. */
    ghost function Seen(n: string): View
      reads coordinator, coordinator.states.Values
    {
      View(Decided(n), coordinator.Past(n), coordinator.Told(n))
    }

    /** Status and alerts of a subject in the machine. */
    ghost function Stand(n: string): (Status, seq<Kind>)
      reads machine`states, machine`raised
    {
      (StatusIn(machine.states, n), KindsOf(machine.raised, n))
    }

    /** The machine has the status of the coordinator, and has raised its alerts about the check. */
    ghost predicate Agreed(n: string)
      reads coordinator, coordinator.states.Values, machine`states, machine`raised
    {
      Stand(n) == (Seen(n).status, Seen(n).told)
    }

    /** The status that the coordinator has decided. */
    ghost function Decided(name: string): Status
      reads coordinator, coordinator.states.Values
    {
      if name in coordinator.states then coordinator.states[name].status else Unknown
    }

    /** The evidence meets the quorum for what the alert claims, with registered providers and exits, at its time. */
    ghost predicate Proven(p: Proof) {
      && p.alert.Subject() in coordinator.checks && p.opts.now == p.alert.at
      && var chk := coordinator.checks[p.alert.Subject()];
         && Backed(chk, p.evidence, p.opts, Claims(p.alert.kind))
         && forall e | e in p.evidence :: Deciding.Registered(chk, coordinator.peers, e)
    }

    ghost predicate HasProof(proofs: seq<Proof>, a: Alert) {
      exists p :: p in proofs && p.alert == a
    }

    /** Is this a result that the coordinator takes into account? */
    predicate Heard(r: Result, isolated: set<string>) {
      r.check in coordinator.checks && r.prober in coordinator.byName && r.prober !in isolated
    }

    /** The verdict on a result, and the alert that the transition to it calls for. */
    ghost predicate Judged(r: Result, replies: map<string, Result>, isolated: set<string>, now: Time, current: Status,
                           verdict: Verdict, emitted: Option<Alert>, evidence: seq<Result>)
      requires Heard(r, isolated)
    {
      var chk, reporter := coordinator.checks[r.check], coordinator.byName[r.prober];
      var normal, opts := NormalizeRoute(chk, reporter, r), Options(now, coordinator.resultMaxAge, isolated);
      var kind := Transition(current, verdict.status).1;
      && Deciding.Gathered(chk, coordinator.peers, reporter, current, normal, replies, opts, evidence)
      && Deciding.DecidedOn(chk, current, normal, evidence, opts, verdict)
      && emitted.Some? == (kind.Some? && Alerting(r.check))
      && (emitted.Some? ==> emitted.value.Subject() == r.check && emitted.value.kind == kind.value
                            && emitted.value.at == now)
    }

    /** What the coordinator decides on a result moves the machine, and the alert that this raises has its proof. */
    method Handle(r: Result, replies: map<string, Result>, isolated: set<string>, now: Time)
      returns (verdict: Option<Verdict>, emitted: Option<Alert>, ghost evidence: seq<Result>)
      requires Valid() && now >= machine.clock
      modifies this, coordinator, coordinator.states.Values, machine
      ensures Valid() && fresh(coordinator.states.Values - old(coordinator.states.Values))
      ensures old(machine.issued) <= machine.issued && machine.clock >= old(machine.clock)
      ensures verdict.Some? <==> r.check in coordinator.checks && r.prober in coordinator.byName
      ensures if Heard(r, isolated)
              then Judged(r, replies, isolated, now, old(Decided(r.check)), verdict.value, emitted, evidence)
                   && Ruled(old(Seen(r.check)), Seen(r.check), verdict.value.status)
              else emitted == None && Seen(r.check) == old(Seen(r.check))
      ensures machine.raised == old(machine.raised) + if emitted.Some? then [emitted.value] else []
      ensures forall n | n != r.check :: Seen(n) == old(Seen(n))
      ensures forall n | n != r.check || !Alerting(n) :: Stand(n) == old(Stand(n))
    {
      hide Judged, Ruled, Followed, Proven, Seen, Stand, Due, Decided, Backing, Ledgers.Operations.Valid,
           Deciding.Coordinator.Valid;
      ghost var seen, stand := Seen(r.check), Stand(r.check);
      assert Alerting(r.check) ==> Agreed(r.check);
      SeenStatus(r.check);
      var suspectedAt;
      verdict, emitted, suspectedAt, evidence := Ask(r, replies, isolated, now);
      SeenStatus(r.check);
      if Heard(r, isolated) && Alerting(r.check) {
        Move(r.check, verdict.value.status, suspectedAt, now, emitted);
        RuledAlike(seen, Seen(r.check), stand, Stand(r.check), verdict.value.status);
      }
      Prove(emitted, evidence, Options(now, coordinator.resultMaxAge, isolated), old(machine.raised));
    }

    /** The coordinator's part. */
    method Ask(r: Result, replies: map<string, Result>, isolated: set<string>, now: Time)
      returns (verdict: Option<Verdict>, emitted: Option<Alert>, suspectedAt: Time, ghost evidence: seq<Result>)
      requires coordinator.Valid()
      modifies coordinator, coordinator.states.Values
      ensures coordinator.Valid() && fresh(coordinator.states.Values - old(coordinator.states.Values))
      ensures verdict.Some? <==> r.check in coordinator.checks && r.prober in coordinator.byName
      ensures if Heard(r, isolated)
              then Judged(r, replies, isolated, now, old(Decided(r.check)), verdict.value, emitted, evidence)
                   && Ruled(old(Seen(r.check)), Seen(r.check), verdict.value.status)
                   && emitted == Due(r.check, old(Decided(r.check)), verdict.value.status, suspectedAt, now)
              else emitted == None && Seen(r.check) == old(Seen(r.check))
      ensures forall n | n != r.check :: Seen(n) == old(Seen(n))
      ensures emitted.Some? ==>
                && Alerting(r.check)
                && Proven(Proof(emitted.value, evidence, Options(now, coordinator.resultMaxAge, isolated)))
    {
      hide Backed, Deciding.Registered, Deciding.DecidedOn, Deciding.Gathered, Transition, Claims, Deciding.Overrule,
           NormalizeRoute, Deciding.Coordinator.Valid;
      verdict, emitted, evidence := coordinator.Process(r, replies, now, isolated);
      suspectedAt := if r.check in coordinator.states then coordinator.states[r.check].suspectedSince else ZERO_TIME;
    }

    /** The alert that a verdict on a check calls for, if the check alerts by itself. */
    ghost function Due(n: string, current: Status, status: Status, suspectedAt: Time, now: Time): Option<Alert> {
      var kind := Transition(current, status).1;
      if kind.None? || !Alerting(n) then None else Some(Alert("", [], "", n, kind.value, now, suspectedAt, ""))
    }

    /** The machine's part. */
    method Move(n: string, status: Status, suspectedAt: Time, now: Time, ghost emitted: Option<Alert>)
      requires machine.Valid() && now >= machine.clock && n != "" && n in machine.subjects && Alerting(n)
      requires emitted == Due(n, StatusIn(machine.states, n), status, suspectedAt, now)
      modifies machine
      ensures machine.Valid() && machine.clock == now && old(machine.issued) <= machine.issued
      ensures machine.raised == old(machine.raised) + if emitted.Some? then [emitted.value] else []
      ensures Followed(old(Stand(n)), Stand(n), status) && forall s | s != n :: Stand(s) == old(Stand(s))
    {
      hide Transition, KindsOf, Ledgers.Operations.Valid, Ledgers.Operations.Announced;
      var about := Alert("", [], "", n, KindDown, now, suspectedAt, "");
      ghost var before := machine.State();
      machine.Conclude(about, status, now);
      if emitted.Some? {
        Told(before, machine.State(), emitted.value, machine.Covered(emitted.value), machine.Labelled());
      }
      KindsFed(old(machine.raised), emitted);
      assert old(Stand(n)).1 + [] == old(Stand(n)).1;
      assert machine.raised == old(machine.raised) + if emitted.Some? then [emitted.value] else [];
    }

    lemma Told(before: Ledgers.Books, after: Ledgers.Books, a: Alert, covered: bool, labelled: bool)
      requires machine.Announced(before, after, a, covered, labelled)
      ensures after.raised == before.raised + [a] && before.issued <= after.issued
    {
    }

    lemma KindsFed(raised: seq<Alert>, emitted: Option<Alert>)
      ensures forall n ::
                KindsOf(raised + (if emitted.Some? then [emitted.value] else []), n)
                == if emitted.Some? && emitted.value.Subject() == n then KindsOf(raised, n) + [emitted.value.kind]
                   else KindsOf(raised, n)
    {
      forall n
        ensures KindsOf(raised + (if emitted.Some? then [emitted.value] else []), n)
                == if emitted.Some? && emitted.value.Subject() == n then KindsOf(raised, n) + [emitted.value.kind]
                   else KindsOf(raised, n)
      {
        if emitted.Some? {
          KindsMore(raised, emitted.value, n);
        } else {
          assert raised + [] == raised;
        }
      }
    }

    /** The proof of what was emitted. */
    ghost method Prove(emitted: Option<Alert>, evidence: seq<Result>, opts: Options, before: seq<Alert>)
      requires Backing(proofs, before)
      requires machine.raised == before + if emitted.Some? then [emitted.value] else []
      requires emitted.Some? ==> Proven(Proof(emitted.value, evidence, opts))
      modifies this`proofs
      ensures Backing(proofs, machine.raised)
    {
      hide Proven, Backing;
      if emitted.Some? {
        BackingMore(proofs, before, Proof(emitted.value, evidence, opts));
        proofs := proofs + [Proof(emitted.value, evidence, opts)];
      } else {
        assert machine.raised == before;
      }
    }

    lemma SeenStatus(n: string)
      ensures Seen(n).status == Decided(n) && Stand(n).0 == StatusIn(machine.states, n)
    {
    }

    /** A step about something else than a check that alerts by itself. */
    method Carry(step: Ledgers.Step)
      requires Valid() && machine.Apt(step) && (step.Verdict? ==> !Alerting(step.about.Subject()))
      modifies machine
      ensures Valid() && old(machine.issued) <= machine.issued && machine.clock >= old(machine.clock)
      ensures Ledgers.Stepped(old(machine.states), old(machine.raised), machine.states, machine.raised, step)
    {
      hide Proven, HasProof, Transition, KindsOf, Ledgers.Operations.Valid, Ledgers.Stepped;
      machine.PerformOne(step);
      forall n | Alerting(n)
        ensures StatusIn(machine.states, n) == StatusIn(old(machine.states), n)
        ensures KindsOf(machine.raised, n) == KindsOf(old(machine.raised), n)
      {
        SteppedElsewhere(old(machine.states), old(machine.raised), machine.states, machine.raised, step, n);
      }
      SteppedMembers(old(machine.states), old(machine.raised), machine.states, machine.raised, step);
    }

    lemma SteppedElsewhere(states: map<string, Status>, raised: seq<Alert>, later: map<string, Status>,
                           more: seq<Alert>, step: Ledgers.Step, n: string)
      requires Ledgers.Stepped(states, raised, later, more, step)
      requires step.Verdict? || step.Announcement? ==> step.about.Subject() != n
      ensures StatusIn(later, n) == StatusIn(states, n) && KindsOf(more, n) == KindsOf(raised, n)
    {
      hide KindsOf;
      if a :| Ledgers.RaisedOne(raised, more, a) && a.Subject() != n {
        var at :| more == raised + [a.(at := at)];
        KindsMore(raised, a.(at := at), n);
      }
    }

    lemma SteppedMembers(states: map<string, Status>, raised: seq<Alert>, later: map<string, Status>, more: seq<Alert>,
                         step: Ledgers.Step)
      requires Ledgers.Stepped(states, raised, later, more, step)
      ensures forall a | a in more ::
                a in raised || ((step.Verdict? || step.Announcement?) && a.Subject() == step.about.Subject())
    {
    }

    /** How many of the inputs are results on the check that the coordinator takes into account. */
    ghost function Reports(inputs: seq<Input>, n: string): nat {
      if inputs == [] then 0
      else
        var last := inputs[|inputs| - 1];
        Reports(inputs[..|inputs| - 1], n)
        + if last.Report? && last.result.check == n && Heard(last.result, last.isolated) then 1 else 0
    }

    ghost function Steps(inputs: seq<Input>): seq<Ledgers.Step> {
      if inputs == [] then []
      else
        var last := inputs[|inputs| - 1];
        Steps(inputs[..|inputs| - 1]) + if last.Other? then [last.step] else []
    }

    /** What one input adds: a verdict on the check that it reports on, or a step of the machine. */
    lemma InputsStep(inputs: seq<Input>, k: nat)
      requires k < |inputs|
      ensures forall n ::
                Reports(inputs[..k + 1], n)
                == Reports(inputs[..k], n) + (if inputs[k].Report? && inputs[k].result.check == n
                                                 && Heard(inputs[k].result, inputs[k].isolated) then 1 else 0)
      ensures Steps(inputs[..k + 1]) == Steps(inputs[..k]) + if inputs[k].Other? then [inputs[k].step] else []
    {
      assert inputs[..k + 1][..k] == inputs[..k];
    }

    /**
     * Whatever happens, every result that is taken into account leads to one verdict, the alerts about each check
     * alternate, and everything ever issued about a check that alerts by itself, be it the alert, a repeated one or
     * an escalation, repeats an alert for which there was enough evidence when it was raised.
     */
    method Run(inputs: seq<Input>)
      requires Valid() && forall i | i in inputs && i.Other? ::
                 machine.Apt(i.step) && (i.step.Verdict? ==> !Alerting(i.step.about.Subject()))
      modifies this, coordinator, coordinator.states.Values, machine
      ensures Valid() && old(machine.issued) <= machine.issued
      ensures forall n :: |coordinator.Past(n)| == |old(coordinator.Past(n))| + Reports(inputs, n)
      ensures forall n | Alerting(n) ::
                && StatusIn(machine.states, n) == LastConclusive(coordinator.Past(n))
                && KindsOf(machine.raised, n) == Transitions.Run(Unknown, coordinator.Past(n))
                && Alternates(Outages(KindsOf(machine.raised, n)), KindDown)
      ensures forall s | s in machine.subjects && !Alerting(s) ::
                Ledgers.Follows(old(machine.states), old(machine.raised), machine.states, machine.raised,
                                Ledgers.VerdictsOf(Steps(inputs), s), s)
      ensures forall x | x in machine.issued && Alerting(x.alert.Subject()) ::
                exists p :: p in proofs && SameNews(x.alert, p.alert) && Proven(p)
    {
      RunAll(inputs);
      hide Proven, SameNews, Alternates, Outages;
      forall x | x in machine.issued && Alerting(x.alert.Subject())
        ensures exists p :: p in proofs && SameNews(x.alert, p.alert) && Proven(p)
      {
        IssueIsProven(x);
      }
      forall n | Alerting(n)
        ensures StatusIn(machine.states, n) == LastConclusive(coordinator.Past(n))
        ensures KindsOf(machine.raised, n) == Transitions.Run(Unknown, coordinator.Past(n))
        ensures Alternates(Outages(KindsOf(machine.raised, n)), KindDown)
      {
        AlertsAlternate(n);
      }
    }

    lemma AlertsAlternate(n: string)
      requires Valid() && Alerting(n)
      ensures StatusIn(machine.states, n) == LastConclusive(coordinator.Past(n))
      ensures KindsOf(machine.raised, n) == Transitions.Run(Unknown, coordinator.Past(n))
      ensures Alternates(Outages(KindsOf(machine.raised, n)), KindDown)
    {
      assert Agreed(n);
      OutagesAlternate(Unknown, coordinator.Past(n));
      FinalIsLast(Unknown, coordinator.Past(n));
    }

    method RunAll(inputs: seq<Input>)
      requires Valid() && forall i | i in inputs && i.Other? ::
                 machine.Apt(i.step) && (i.step.Verdict? ==> !Alerting(i.step.about.Subject()))
      modifies this, coordinator, coordinator.states.Values, machine
      ensures Valid() && old(machine.issued) <= machine.issued
      ensures forall n :: |coordinator.Past(n)| == |old(coordinator.Past(n))| + Reports(inputs, n)
      ensures forall s | s in machine.subjects && !Alerting(s) ::
                Ledgers.Follows(old(machine.states), old(machine.raised), machine.states, machine.raised,
                                Ledgers.VerdictsOf(Steps(inputs), s), s)
    {
      hide Valid, Reports, Steps, Ledgers.Follows, Ledgers.VerdictsOf, Ledgers.Stepped, Ledgers.Operations.Apt, KindsOf,
           StatusIn, Transition, NormalizeRoute, Deciding.Gathered, Deciding.DecidedOn, Heard;
      NothingRun();
      for k := 0 to |inputs|
        invariant Valid() && fresh(coordinator.states.Values - old(coordinator.states.Values))
        invariant old(machine.issued) <= machine.issued
        invariant forall n :: |coordinator.Past(n)| == |old(coordinator.Past(n))| + Reports(inputs[..k], n)
        invariant forall s | s in machine.subjects && !Alerting(s) ::
                    Ledgers.Follows(old(machine.states), old(machine.raised), machine.states, machine.raised,
                                    Ledgers.VerdictsOf(Steps(inputs[..k]), s), s)
      {
        ghost var states, raised := machine.states, machine.raised;
        RunOne(inputs[k]);
        InputsStep(inputs, k);
        forall s | s in machine.subjects && !Alerting(s)
          ensures Ledgers.Follows(old(machine.states), old(machine.raised), machine.states, machine.raised,
                                  Ledgers.VerdictsOf(Steps(inputs[..k + 1]), s), s)
        {
          FollowsInput(old(machine.states), old(machine.raised), states, raised, machine.states, machine.raised,
                       Steps(inputs[..k]), inputs[k], s);
        }
      }
      assert inputs[..|inputs|] == inputs;
    }

    /** What an input does to a subject other than a check that alerts by itself. */
    ghost predicate Moves(states: map<string, Status>, raised: seq<Alert>, later: map<string, Status>, more: seq<Alert>,
                          input: Input, s: string) {
      if input.Other? then Ledgers.Stepped(states, raised, later, more, input.step)
      else StatusIn(later, s) == StatusIn(states, s) && KindsOf(more, s) == KindsOf(raised, s)
    }

    method RunOne(input: Input)
      requires Valid()
      requires input.Other? ==>
                 machine.Apt(input.step) && (input.step.Verdict? ==> !Alerting(input.step.about.Subject()))
      modifies this, coordinator, coordinator.states.Values, machine
      ensures Valid() && fresh(coordinator.states.Values - old(coordinator.states.Values))
      ensures old(machine.issued) <= machine.issued
      ensures forall n ::
                |coordinator.Past(n)|
                == |old(coordinator.Past(n))|
                   + if input.Report? && input.result.check == n && Heard(input.result, input.isolated) then 1 else 0
      ensures forall s | !Alerting(s) ::
                Moves(old(machine.states), old(machine.raised), machine.states, machine.raised, input, s)
    {
      hide Valid, Ledgers.Stepped, Ledgers.Operations.Apt, KindsOf, StatusIn, Transition, NormalizeRoute,
           Deciding.Gathered, Deciding.DecidedOn, Heard;
      match input {
        case Report(r, replies, isolated, at) =>
          var verdict, emitted;
          ghost var evidence;
          verdict, emitted, evidence :=
            Handle(r, replies, isolated, if at < machine.clock then machine.clock else at);
          forall n
            ensures |coordinator.Past(n)|
                    == |old(coordinator.Past(n))| + if r.check == n && Heard(r, isolated) then 1 else 0
          {
            assert Seen(n).past == coordinator.Past(n);
          }
        case Other(step) =>
          Carry(step);
      }
    }

    lemma NothingRun()
      ensures Steps([]) == [] && forall n :: Reports([], n) == 0
      ensures forall s :: Ledgers.Follows(machine.states, machine.raised, machine.states, machine.raised,
                                          Ledgers.VerdictsOf([], s), s)
    {
      forall s ensures Ledgers.Follows(machine.states, machine.raised, machine.states, machine.raised,
                                       Ledgers.VerdictsOf([], s), s)
      {
        Ledgers.FollowsNothing(machine.states, machine.raised, s);
      }
    }

    lemma FollowsInput(states: map<string, Status>, raised: seq<Alert>, later: map<string, Status>, more: seq<Alert>,
                       last: map<string, Status>, most: seq<Alert>, steps: seq<Ledgers.Step>, input: Input, s: string)
      requires Ledgers.Follows(states, raised, later, more, Ledgers.VerdictsOf(steps, s), s)
      requires Moves(later, more, last, most, input, s)
      requires input.Other? ==> machine.Apt(input.step) && s in machine.subjects
      ensures Ledgers.Follows(states, raised, last, most,
                              Ledgers.VerdictsOf(steps + (if input.Other? then [input.step] else []), s), s)
    {
      hide Ledgers.Stepped, Ledgers.VerdictsOf, KindsOf;
      if input.Other? {
        var all := steps + [input.step];
        assert all[..|steps|] == steps && all[..|all|] == all;
        machine.AnnouncesOthers(input.step, s);
        Ledgers.FollowsStep(states, raised, later, more, last, most, all, |steps|, s);
      } else {
        assert steps + [] == steps;
      }
    }

    lemma IssueIsProven(x: Issue)
      requires Valid() && x in machine.issued && Alerting(x.alert.Subject())
      ensures exists p :: p in proofs && SameNews(x.alert, p.alert) && Proven(p)
    {
      IssuesAreRaised(machine.incidents, machine.handed, machine.raised, machine.issued, machine.AllTargets, x);
      var a :| a in machine.raised && SameNews(x.alert, a);
      assert a.Subject() == x.alert.Subject() && HasProof(proofs, a);
    }
  }
}
