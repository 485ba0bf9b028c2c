// The state machine of one check (internal/coordinator/coordinator.go, Process, decide and apply).

/** What the coordinator tells people. */
module Alerts {
  import opened Types

  datatype Kind =
    | KindDown | KindRecovered | KindWarning | KindWarningCleared
    | KindSilent | KindReporting | KindIsolated | KindRejoined
    | KindUnwatched | KindWatched | KindWatchLost | KindWatchRecovered

  /** Exactly one of `prober`, `component` and `check` names the subject; `members` are a component's checks. */
  datatype Alert = Alert(
    component: string,
    members: seq<string>,
    prober: string,
    check: string,
    kind: Kind,
    at: Time,
    suspectedAt: Time,
    escalation: string)
  {
    function Subject(): string {
      if prober != "" then prober else if component != "" then component else check
    }
  }

  /** Alerts that close an incident rather than open one. */
  predicate Closes(kind: Kind) {
    kind in {KindRecovered, KindWarningCleared, KindReporting, KindRejoined, KindWatched, KindWatchRecovered}
  }
}

/** When a decided status moves, and what is said about it. */
module Transitions {
  import opened Wrappers
  import opened Types
  import opened Sorting
  import opened Alerts
  import opened Verdicts
  import opened VerdictProperties

  /** The next decided status, and the alert for getting there. An inconclusive verdict moves nothing. */
  function Transition(current: Status, verdict: Status): (Status, Option<Kind>) {
    match verdict
    case Unknown => (current, None)
    case Down => (Down, if current == Down then None else Some(KindDown))
    case Warning => (Warning, match current
                              case Warning => None
                              case Down => Some(KindRecovered)
                              case _ => Some(KindWarning))
    case Up => (Up, match current
                    case Down => Some(KindRecovered)
                    case Warning => Some(KindWarningCleared)
                    case _ => None)
  }

  /** Is the reporter's result reason to ask others? `single` is the verdict on that result alone. */
  predicate MustAsk(chk: Check, current: Status, r: Result, single: Status) {
    || (r.status == Down && single != Down)
    || (r.status == Warning && single != Warning && current != Warning)
    || (r.status == Up && current in {Down, Warning} && chk.quorum.agree > 1)
  }

  /** A reporter that still sees the decided warning confirms it; a recovery short of the quorum is not one. */
  function Amended(chk: Check, current: Status, r: Result, v: Verdict): Status {
    if v.status != Up then v.status
    else if current == Warning && r.status == Warning then Warning
    else if current in {Down, Warning} && v.independentUp < chk.quorum.agree then Unknown
    else Up
  }

  /** The last verdict that decided something, or Unknown if none did. */
  function LastConclusive(verdicts: seq<Status>): Status {
    if verdicts == [] then Unknown
    else if verdicts[|verdicts| - 1] != Unknown then verdicts[|verdicts| - 1]
    else LastConclusive(verdicts[..|verdicts| - 1])
  }

  /** Which alert a verdict calls for when `before` was decided last. */
  ghost predicate CallsFor(before: Status, verdict: Status, alert: Option<Kind>) {
    && (alert == Some(KindDown) <==> verdict == Down && before != Down)
    && (alert == Some(KindRecovered) <==> verdict in {Up, Warning} && before == Down)
    && (alert == Some(KindWarning) <==> verdict == Warning && before in {Up, Unknown})
    && (alert == Some(KindWarningCleared) <==> verdict == Up && before == Warning)
    && (alert.Some? ==> alert.value in {KindDown, KindRecovered, KindWarning, KindWarningCleared})
  }

  /** A conclusive verdict becomes the status, an inconclusive one leaves it. */
  lemma TransitionExactly(current: Status, verdict: Status)
    ensures var (next, alert) := Transition(current, verdict);
            next == (if verdict == Unknown then current else verdict) && CallsFor(current, verdict, alert)
  {
  }

  lemma LastMore(verdicts: seq<Status>, verdict: Status)
    ensures LastConclusive(verdicts + [verdict]) == if verdict != Unknown then verdict else LastConclusive(verdicts)
  {
    assert (verdicts + [verdict])[..|verdicts|] == verdicts;
  }

  /** The status after any run of verdicts is the last conclusive one. */
  lemma {:induction false} FinalIsLast(current: Status, verdicts: seq<Status>)
    ensures Final(current, verdicts)
            == if LastConclusive(verdicts) != Unknown then LastConclusive(verdicts) else current
    decreases |verdicts|
  {
    if verdicts == [] {
      RunNothing(current);
    } else {
      var front, last := verdicts[..|verdicts| - 1], verdicts[|verdicts| - 1];
      assert verdicts == front + [last];
      hide Final, Run, LastConclusive;
      FinalIsLast(current, front);
      RunAppend(current, front, last);
      LastMore(front, last);
    }
  }

  /** Each verdict of a run raises the alert that the last conclusive verdict before it calls for, and no other. */
  lemma VerdictRaises(verdicts: seq<Status>, verdict: Status) returns (alert: Option<Kind>)
    ensures Run(Unknown, verdicts + [verdict]) == Run(Unknown, verdicts) + if alert.Some? then [alert.value] else []
    ensures CallsFor(LastConclusive(verdicts), verdict, alert)
  {
    hide Run, Final, LastConclusive, Transition, CallsFor;
    FinalIsLast(Unknown, verdicts);
    RunAppend(Unknown, verdicts, verdict);
    TransitionExactly(LastConclusive(verdicts), verdict);
    alert := Transition(LastConclusive(verdicts), verdict).1;
  }

  /** What the votes behind an alert say. */
  function Claims(kind: Kind): set<Status> {
    match kind
    case KindDown => {Down}
    case KindWarning => {Warning}
    case _ => {Up, Warning}
  }

  /**
   * Every alert about a check is backed, in the step that decides it, by as many independent votes for it as
   * the quorum rule asks for.
   */
  lemma AlertIsBacked(chk: Check, current: Status, r: Result, results: seq<Result>, opts: Options, v: Verdict)
    requires VerdictOn(chk, results, opts, v)
    ensures var alert := Transition(current, Amended(chk, current, r, v)).1;
            alert.Some? ==> Backed(chk, results, opts, Claims(alert.value))
  {
    hide Tally, Agreeing, Backed, VotesWith, Providers, Names, SuppressedNames, SuppressedCount;
    var alert := Transition(current, Amended(chk, current, r, v)).1;
    if alert.Some? {
      var tally := Tally(chk, results, opts);
      if v.status == Down {
        SatisfiedIsBacked(chk, results, opts, {Down});
      } else if v.status == Warning {
        SatisfiedIsBacked(chk, results, opts, {Warning});
        WarningsBackUp(chk, results, opts);
      } else {
        SatisfiedIsBacked(chk, results, opts, {Up, Warning});
      }
    }
  }

  lemma WarningsBackUp(chk: Check, results: seq<Result>, opts: Options)
    requires Backed(chk, results, opts, {Warning})
    ensures Backed(chk, results, opts, {Up, Warning})
  {
    var votes :| Evidence(chk, results, opts, {Warning}, votes);
    assert Evidence(chk, results, opts, {Up, Warning}, votes);
  }

  /** With a quorum of two or more, results that all come from one prober move nothing that has been decided. */
  lemma OneProberDecidesNothing(chk: Check, current: Status, r: Result, results: seq<Result>, opts: Options, v: Verdict)
    requires VerdictOn(chk, results, opts, v)
    requires chk.quorum.agree > 1
    requires forall a, b | a in results && b in results :: a.prober == b.prober
    ensures Transition(current, Amended(chk, current, r, v)).1 == None
  {
    AlertIsBacked(chk, current, r, results, opts, v);
    var alert := Transition(current, Amended(chk, current, r, v)).1;
    if alert.Some? {
      var votes :| Evidence(chk, results, opts, Claims(alert.value), votes);
      OneVoteAtMost(votes);
    }
  }

  lemma OneVoteAtMost(votes: set<Result>)
    requires forall a, b | a in votes && b in votes :: a.prober == b.prober
    requires forall a, b | a in votes && b in votes && a != b :: a.prober != b.prober
    ensures |votes| <= 1
  {
    if votes != {} {
      var a :| a in votes;
      assert votes == {a};
    }
  }

  /** Decided verdicts in order, and the alerts they raise. */
  function Run(current: Status, verdicts: seq<Status>): seq<Kind>
    decreases |verdicts|
  {
    if verdicts == [] then []
    else
      var (next, alert) := Transition(current, verdicts[0]);
      (if alert.Some? then [alert.value] else []) + Run(next, verdicts[1..])
  }

  /** Outages and recoveries alone. */
  function Outages(kinds: seq<Kind>): seq<Kind> {
    if kinds == [] then []
    else (if kinds[0] in {KindDown, KindRecovered} then [kinds[0]] else []) + Outages(kinds[1..])
  }

  /** Strictly alternating, and beginning with `first`. */
  predicate Alternates(kinds: seq<Kind>, first: Kind) {
    forall i | 0 <= i < |kinds| ::
      kinds[i] == if i % 2 == 0 then first else if first == KindDown then KindRecovered else KindDown
  }

  /**
   * Whatever the verdicts, outage and recovery alerts strictly alternate, and from the initial state on the
   * first is an outage.
   */
  lemma {:induction false} OutagesAlternate(current: Status, verdicts: seq<Status>)
    ensures Alternates(Outages(Run(current, verdicts)), if current == Down then KindRecovered else KindDown)
    decreases |verdicts|
  {
    if verdicts != [] {
      hide Transition, Alternates, Outages;
      var (next, alert) := Transition(current, verdicts[0]);
      OutagesAlternate(next, verdicts[1..]);
      StepAlternates(current, verdicts[0], Run(next, verdicts[1..]));
    }
  }

  lemma StepAlternates(current: Status, verdict: Status, rest: seq<Kind>)
    requires Alternates(Outages(rest), if Transition(current, verdict).0 == Down then KindRecovered else KindDown)
    ensures var alert := Transition(current, verdict).1;
            Alternates(Outages((if alert.Some? then [alert.value] else []) + rest),
                       if current == Down then KindRecovered else KindDown)
  {
    hide Alternates;
    var alert := Transition(current, verdict).1;
    if alert.Some? {
      OutagesMore(alert.value, rest);
      if alert.value in {KindDown, KindRecovered} {
        AlternatesMore(Outages(rest), alert.value);
      }
    } else {
      assert [] + rest == rest;
    }
  }

  lemma OutagesMore(kind: Kind, rest: seq<Kind>)
    ensures Outages([kind] + rest)
            == if kind in {KindDown, KindRecovered} then [kind] + Outages(rest) else Outages(rest)
  {
    assert ([kind] + rest)[1..] == rest;
    assert [] + Outages(rest) == Outages(rest);
  }

  lemma AlternatesMore(kinds: seq<Kind>, first: Kind)
    requires first in {KindDown, KindRecovered}
    requires Alternates(kinds, if first == KindDown then KindRecovered else KindDown)
    ensures Alternates([first] + kinds, first)
  {
  }

  /** The kinds of the alerts about one subject. */
  function KindsOf(raised: seq<Alert>, subject: string): seq<Kind> {
    if raised == [] then []
    else
      var last := raised[|raised| - 1];
      KindsOf(raised[..|raised| - 1], subject) + if last.Subject() == subject then [last.kind] else []
  }

  lemma KindsMore(raised: seq<Alert>, a: Alert, subject: string)
    ensures KindsOf(raised + [a], subject) == KindsOf(raised, subject) + if a.Subject() == subject then [a.kind] else []
  {
    assert (raised + [a])[..|raised|] == raised;
  }

  /** The status that a run ends in. */
  function Final(current: Status, verdicts: seq<Status>): Status
    decreases |verdicts|
  {
    if verdicts == [] then current else Final(Transition(current, verdicts[0]).0, verdicts[1..])
  }

  lemma {:induction false} RunAppend(current: Status, verdicts: seq<Status>, verdict: Status)
    ensures var (next, alert) := Transition(Final(current, verdicts), verdict);
            && Final(current, verdicts + [verdict]) == next
            && Run(current, verdicts + [verdict])
               == Run(current, verdicts) + if alert.Some? then [alert.value] else []
    decreases |verdicts|
  {
    hide Run, Final, Transition;
    RunNothing(current);
    if verdicts == [] {
      RunNothing(Transition(current, verdict).0);
      RunMore(current, verdict, []);
      assert [] + [verdict] == [verdict] == [verdict] + [];
    } else {
      var v, rest := verdicts[0], verdicts[1..];
      var (next, alert) := Transition(current, v);
      RunAppend(next, rest, verdict);
      RunMore(current, v, rest);
      RunMore(current, v, rest + [verdict]);
      Regroup([v], rest, [verdict]);
      assert [v] + rest == verdicts;
    }
  }

  lemma RunNothing(current: Status)
    ensures Run(current, []) == [] && Final(current, []) == current
  {
  }

  lemma RunMore(current: Status, verdict: Status, rest: seq<Status>)
    ensures var (next, alert) := Transition(current, verdict);
            && Final(current, [verdict] + rest) == Final(next, rest)
            && Run(current, [verdict] + rest) == (if alert.Some? then [alert.value] else []) + Run(next, rest)
  {
    assert ([verdict] + rest)[1..] == rest;
  }
}

/** The coordinator's handling of results. */
module Coordinator {
  import opened Wrappers
  import opened Types
  import opened Sorting
  import opened Independence
  import opened Matching
  import opened Verdicts
  import opened VerdictProperties
  import opened Quorum
  import opened Fleet
  import opened Acceptance
  import opened Corroboration
  import opened Reachability
  import opened Alerts
  import opened Transitions

  /** A failed attempt to turn suspicion into a verdict. */
  datatype Attempt = Attempt(at: Time, counted: nat, down: nat, up: nat)

  const MAX_INCONCLUSIVE_HISTORY := 32

  /** What is remembered about one check or component. `verdicts` and `raised` are its whole past. */
  class EntityState {
    var status: Status
    var stale: bool
    var since: Time
    var lastVerdict: Time
    var suspectedSince: Time
    var lastAttempt: Time
    var inconclusiveAttempts: nat
    var inconclusiveHistory: seq<Attempt>
    ghost var verdicts: seq<Status>
    ghost var raised: seq<Kind>

    ghost predicate Valid()
      reads this
    {
      && status == Final(Unknown, verdicts)
      && raised == Run(Unknown, verdicts)
      && |inconclusiveHistory| <= MAX_INCONCLUSIVE_HISTORY
    }

    constructor ()
      ensures Valid() && status == Unknown && verdicts == [] && raised == []
    {
      status, stale, since, lastVerdict := Unknown, false, ZERO_TIME, ZERO_TIME;
      suspectedSince, lastAttempt, inconclusiveAttempts, inconclusiveHistory := ZERO_TIME, ZERO_TIME, 0, [];
      verdicts, raised := [], [];
    }

    method ClearSuspicion()
      requires Valid()
      modifies this`suspectedSince, this`lastAttempt, this`inconclusiveAttempts, this`inconclusiveHistory
      ensures Valid()
      ensures suspectedSince == lastAttempt == ZERO_TIME && inconclusiveAttempts == 0 && inconclusiveHistory == []
    {
      suspectedSince, lastAttempt, inconclusiveAttempts, inconclusiveHistory := ZERO_TIME, ZERO_TIME, 0, [];
    }

    /** Records that a failure could not be confirmed; the last attempts are kept. */
    method RecordInconclusive(attempt: Attempt)
      requires Valid()
      modifies this`inconclusiveAttempts, this`inconclusiveHistory
      ensures Valid() && inconclusiveAttempts == old(inconclusiveAttempts) + 1
      ensures inconclusiveHistory != [] && inconclusiveHistory[|inconclusiveHistory| - 1] == attempt
      ensures var all := old(inconclusiveHistory) + [attempt];
              inconclusiveHistory == all[Max(0, |all| - MAX_INCONCLUSIVE_HISTORY)..]
    {
      inconclusiveAttempts := inconclusiveAttempts + 1;
      inconclusiveHistory := inconclusiveHistory + [attempt];
      if |inconclusiveHistory| > MAX_INCONCLUSIVE_HISTORY {
        inconclusiveHistory := inconclusiveHistory[|inconclusiveHistory| - MAX_INCONCLUSIVE_HISTORY..];
      }
    }

    method Apply(verdict: Status, now: Time) returns (alert: Option<Kind>)
      requires Valid()
      modifies this`status, this`since, this`verdicts, this`raised
      ensures Valid() && verdicts == old(verdicts) + [verdict]
      ensures (status, alert) == Transition(old(status), verdict)
      ensures raised == old(raised) + if alert.Some? then [alert.value] else []
      ensures since == if status != old(status) then now else old(since)
      ensures status == LastConclusive(verdicts) && CallsFor(LastConclusive(old(verdicts)), verdict, alert)
    {
      RunAppend(Unknown, verdicts, verdict);
      TransitionExactly(status, verdict);
      FinalIsLast(Unknown, verdicts);
      FinalIsLast(Unknown, verdicts + [verdict]);
      verdicts := verdicts + [verdict];
      alert := None;
      match verdict {
        case Down =>
          if status != Down {
            status, since, alert := Down, now, Some(KindDown);
          }
        case Warning =>
          match status {
            case Warning =>
            case Down => status, since, alert := Warning, now, Some(KindRecovered);
            case _ => status, since, alert := Warning, now, Some(KindWarning);
          }
        case Up =>
          var previous := status;
          if previous != Up {
            since := now;
          }
          status := Up;
          match previous {
            case Down => alert := Some(KindRecovered);
            case Warning => alert := Some(KindWarningCleared);
            case _ =>
          }
        case Unknown =>
      }
      raised := raised + if alert.Some? then [alert.value] else [];
    }
  }

  /** The vote carries the provider and the exit that its prober is registered with. */
  ghost predicate Registered(chk: Check, peers: seq<Peer>, r: Result) {
    exists p :: p in peers && r.prober == p.name && r.provider == p.provider
                && r.proxyProfile == chk.proxyProfile && r.egress == Exit(p, chk.proxyProfile)
  }

  /** `v` is what the quorum rule, and then the state machine, make of `evidence`. */
  ghost predicate DecidedOn(chk: Check, current: Status, r: Result, evidence: seq<Result>, opts: Options, v: Verdict) {
    exists raw :: VerdictOn(chk, evidence, opts, raw) && v == raw.(status := Amended(chk, current, r, raw))
  }

  /** Did the prober reply about this check in its own name? */
  predicate Replied(chk: Check, p: Peer, replies: map<string, Result>) {
    p.name in replies && replies[p.name].prober == p.name && replies[p.name].check == chk.name
  }

  ghost function AnswersOf(chk: Check, asked: seq<Peer>, replies: map<string, Result>): set<Result> {
    set p | p in asked && Replied(chk, p, replies) :: NormalizeRoute(chk, p, replies[p.name])
  }

  /** `answers` are the replies of a choice of probers, once each and in the order of their names. */
  ghost predicate Polled(chk: Check, peers: seq<Peer>, reporter: Peer, r: Result, replies: map<string, Result>,
                           asked: seq<Peer>, answers: seq<Result>) {
    && Chosen(chk, peers, r, RouteResult(chk, reporter), asked)
    && Elements(answers) == AnswersOf(chk, asked, replies) && Distinct(answers) && SortedBy(answers, ByProber)
  }

  ghost predicate Corroborated(chk: Check, peers: seq<Peer>, reporter: Peer, r: Result, replies: map<string, Result>,
                               answers: seq<Result>) {
    exists asked :: Polled(chk, peers, reporter, r, replies, asked, answers)
  }

  /** The evidence is the report, with the answers of those asked behind it when there was reason to ask. */
  ghost predicate Gathered(chk: Check, peers: seq<Peer>, reporter: Peer, current: Status, r: Result,
                           replies: map<string, Result>, opts: Options, evidence: seq<Result>) {
    && evidence != [] && evidence[0] == r
    && if MustAsk(chk, current, r, StatusOf(chk, Tally(chk, [r], opts)))
       then Corroborated(chk, peers, reporter, r, replies, evidence[1..])
       else evidence == [r]
  }

  lemma AnswersStep(chk: Check, peers: seq<Peer>, asked: seq<Peer>, replies: map<string, Result>, i: nat)
    requires UniqueNames(peers) && Distinct(asked) && i < |asked| && forall p | p in asked :: p in peers
    ensures if Replied(chk, asked[i], replies)
            then var x := NormalizeRoute(chk, asked[i], replies[asked[i].name]);
                 AnswersOf(chk, asked[..i + 1], replies) == AnswersOf(chk, asked[..i], replies) + {x}
                 && x !in AnswersOf(chk, asked[..i], replies)
            else AnswersOf(chk, asked[..i + 1], replies) == AnswersOf(chk, asked[..i], replies)
  {
  }

  /** One more failure that enough independent votes contradict, if this is one. */
  function Overrule(before: map<(string, string), nat>, chk: Check, r: Result, v: Verdict): map<(string, string), nat> {
    var key := (r.prober, chk.name);
    var count := if key in before then before[key] else 0;
    if r.status in {Down, Warning} && v.status !in {Down, r.status} && v.independentUp >= chk.quorum.agree
    then before[key := count + 1]
    else before
  }

  class Coordinator {
    const peers: seq<Peer>
    const byName: map<string, Peer>
    const checks: map<string, Check>
    const resultMaxAge: int
    /** The checks that alert through a component. */
    const grouped: set<string>
    var states: map<string, EntityState>
    var overruled: map<(string, string), nat>

    ghost predicate Valid()
      reads this, states.Values
    {
      && UniqueNames(peers) && Distinct(peers) && Registers(byName, peers)
      && (forall n | n in checks :: checks[n].name == n)
      && (forall n | n in states :: states[n].Valid())
      && (forall m, n | m in states && n in states && m != n :: states[m] != states[n])
    }

    /** The verdicts on a check so far, and the kinds of the alerts they raised. */
    ghost function Past(name: string): seq<Status>
      reads this`states, states.Values
    {
      if name in states then states[name].verdicts else []
    }

    ghost function Told(name: string): seq<Kind>
      reads this`states, states.Values
    {
      if name in states then states[name].raised else []
    }

    constructor (peers: seq<Peer>, byName: map<string, Peer>, checks: map<string, Check>, resultMaxAge: int,
                 grouped: set<string>)
      requires UniqueNames(peers) && Distinct(peers) && Registers(byName, peers)
      requires forall n | n in checks :: checks[n].name == n
      ensures Valid() && states == map[] && overruled == map[]
    {
      this.peers, this.byName, this.checks := peers, byName, checks;
      this.resultMaxAge, this.grouped := resultMaxAge, grouped;
      states, overruled := map[], map[];
    }

    method StateFor(name: string) returns (st: EntityState)
      requires Valid()
      modifies this`states
      ensures Valid() && name in states && states[name] == st
      ensures name in old(states) ==> states == old(states)
      ensures name !in old(states) ==>
                && fresh(st) && st.status == Unknown && st.verdicts == [] && st.raised == []
                && states == old(states)[name := st]
    {
      if name !in states {
        var created := new EntityState();
        states := states[name := created];
      }
      st := states[name];
    }

    /** The answers of those who were asked, as far as they replied about this check in their own name. */
    method Corroborate(chk: Check, reported: Result, replies: map<string, Result>) returns (answers: seq<Result>)
      requires Valid() && reported.prober in byName
      ensures Corroborated(chk, peers, byName[reported.prober], reported, replies, answers)
      ensures forall a | a in answers :: a.check == chk.name && Registered(chk, peers, a)
    {
      hide AnswersOf, Distinct, SortedBy, TotalPreorder;
      var asked := Corroborators(chk, peers, byName, reported);
      AskedArePeers(chk, peers, reported, RouteResult(chk, byName[reported.prober]), asked);
      NoAnswers(chk, replies);
      answers := [];
      for i := 0 to |asked|
        invariant Elements(answers) == AnswersOf(chk, asked[..i], replies) && Distinct(answers)
        invariant forall a | a in answers :: a.check == chk.name && Registered(chk, peers, a)
      {
        var p := asked[i];
        AnswersStep(chk, peers, asked, replies, i);
        if Replied(chk, p, replies) {
          var x := NormalizeRoute(chk, p, replies[p.name]);
          ElementsAppend(answers, x);
          DistinctAppend(answers, x);
          answers := answers + [x];
        }
      }
      assert asked[..|asked|] == asked;
      ByProberOrder();
      SortSorted(answers, ByProber);
      SameElements(answers, Sort(answers, ByProber));
      SameDistinct(answers, Sort(answers, ByProber));
      answers := Sort(answers, ByProber);
      assert Polled(chk, peers, byName[reported.prober], reported, replies, asked, answers);
    }

    /** The verdict on the result, with corroboration where it takes some, as it stands for the decided status. */
    method Judge(chk: Check, current: Status, r: Result, replies: map<string, Result>, opts: Options)
      returns (v: Verdict, ghost evidence: seq<Result>)
      requires Valid() && r.prober in byName && Registered(chk, peers, r)
      ensures DecidedOn(chk, current, r, evidence, opts, v)
      ensures var alert := Transition(current, v.status).1;
              alert.Some? ==> Backed(chk, evidence, opts, Claims(alert.value))
      ensures r in evidence && forall e | e in evidence :: Registered(chk, peers, e)
      ensures Gathered(chk, peers, byName[r.prober], current, r, replies, opts, evidence)
    {
      var results := [r];
      var single := Evaluate(chk, results, opts);
      if MustAsk(chk, current, r, single.status) {
        var answers := Corroborate(chk, r, replies);
        results := results + answers;
        assert results[1..] == answers;
      }
      evidence := results;
      v := Evaluate(chk, results, opts);
      AlertIsBacked(chk, current, r, results, opts, v);
      ghost var raw := v;
      if current == Warning && r.status == Warning && v.status == Up {
        v := v.(status := Warning);
      }
      if current in {Down, Warning} && v.status == Up && !(v.independentUp >= chk.quorum.agree) {
        v := v.(status := Unknown);
      }
      assert v == raw.(status := Amended(chk, current, r, raw));
    }

    method Decide(chk: Check, st: EntityState, r: Result, replies: map<string, Result>, opts: Options)
      returns (v: Verdict, alert: Option<Kind>, suspectedAt: Time, ghost evidence: seq<Result>)
      requires Valid() && st.Valid() && r.prober in byName && Registered(chk, peers, r)
      modifies st
      ensures st.Valid()
      ensures DecidedOn(chk, old(st.status), r, evidence, opts, v)
      ensures (st.status, alert) == Transition(old(st.status), v.status)
      ensures st.raised == old(st.raised) + if alert.Some? then [alert.value] else []
      ensures st.verdicts == old(st.verdicts) + [v.status]
      ensures st.status == LastConclusive(st.verdicts) && CallsFor(LastConclusive(old(st.verdicts)), v.status, alert)
      ensures alert.Some? ==> Backed(chk, evidence, opts, Claims(alert.value))
      ensures r in evidence && forall e | e in evidence :: Registered(chk, peers, e)
      ensures Gathered(chk, peers, byName[r.prober], old(st.status), r, replies, opts, evidence)
      ensures st.lastVerdict == opts.now && !st.stale
      ensures suspectedAt == st.suspectedSince
      ensures st.suspectedSince == if r.status == Down
                                   then (if old(st.suspectedSince) == ZERO_TIME then opts.now
                                         else old(st.suspectedSince))
                                   else if v.status in {Up, Warning} then ZERO_TIME else old(st.suspectedSince)
    {
      v, evidence := Judge(chk, st.status, r, replies, opts);
      Remember(st, r, v, opts.now);
      suspectedAt := st.suspectedSince;
      alert := st.Apply(v.status, opts.now);
    }

    method Remember(st: EntityState, r: Result, v: Verdict, now: Time)
      requires st.Valid()
      modifies st`lastVerdict, st`stale, st`suspectedSince, st`lastAttempt, st`inconclusiveAttempts,
               st`inconclusiveHistory
      ensures st.Valid() && st.lastVerdict == now && !st.stale
      ensures st.suspectedSince == if r.status == Down
                                   then (if old(st.suspectedSince) == ZERO_TIME then now else old(st.suspectedSince))
                                   else if v.status in {Up, Warning} then ZERO_TIME else old(st.suspectedSince)
      ensures st.lastAttempt == if r.status == Down then now
                                else if v.status in {Up, Warning} then ZERO_TIME else old(st.lastAttempt)
      ensures var all := old(st.inconclusiveHistory) + [Attempt(now, v.counted, v.down, v.up)];
              st.inconclusiveHistory == if r.status == Down
                                        then (if v.status == Unknown
                                              then all[Max(0, |all| - MAX_INCONCLUSIVE_HISTORY)..]
                                              else old(st.inconclusiveHistory))
                                        else if v.status in {Up, Warning} then [] else old(st.inconclusiveHistory)
      ensures st.inconclusiveAttempts == if r.status == Down
                                         then old(st.inconclusiveAttempts) + (if v.status == Unknown then 1 else 0)
                                         else if v.status in {Up, Warning} then 0 else old(st.inconclusiveAttempts)
    {
      st.lastVerdict := now;
      st.stale := false;
      if r.status == Down {
        if st.suspectedSince == ZERO_TIME {
          st.suspectedSince := now;
        }
        st.lastAttempt := now;
        if v.status == Unknown {
          st.RecordInconclusive(Attempt(now, v.counted, v.down, v.up));
        }
      } else if v.status in {Up, Warning} {
        st.ClearSuspicion();
      }
    }

    /**
     * One result. Unknown checks and probers are refused, a result of an isolated prober changes nothing, and
     * whatever is emitted is backed by evidence that carries registered providers and exits.
     */
    method Process(r: Result, replies: map<string, Result>, now: Time, isolated: set<string>)
      returns (verdict: Option<Verdict>, emitted: Option<Alert>, ghost evidence: seq<Result>)
      requires Valid()
      modifies this, states.Values
      ensures Valid() && fresh(states.Values - old(states.Values))
      ensures verdict.Some? <==> r.check in checks && r.prober in byName
      ensures forall n | n in old(states) :: n in states && states[n] == old(states[n])
      ensures forall n | n in states && n != r.check :: n in old(states) && unchanged(states[n])
      ensures verdict.None? || r.prober in isolated ==> emitted == None && states == old(states)
      ensures verdict.None? || r.prober in isolated ==> forall n | n in states :: unchanged(states[n])
      ensures verdict.Some? && r.prober !in isolated ==>
                var chk, current := checks[r.check], old(if r.check in states then states[r.check].status else Unknown);
                var opts := Options(now, resultMaxAge, isolated);
                var (next, kind) := Transition(current, verdict.value.status);
                && Gathered(chk, peers, byName[r.prober], current, NormalizeRoute(chk, byName[r.prober], r), replies,
                            opts, evidence)
                && DecidedOn(chk, current, NormalizeRoute(chk, byName[r.prober], r), evidence, opts, verdict.value)
                && r.check in states && states[r.check].status == next
                && Past(r.check) == old(Past(r.check)) + [verdict.value.status]
                && states[r.check].status == LastConclusive(Past(r.check))
                && CallsFor(LastConclusive(old(Past(r.check))), verdict.value.status, kind)
                && Told(r.check) == old(Told(r.check)) + (if kind.Some? then [kind.value] else [])
                && overruled == Overrule(old(overruled), chk, NormalizeRoute(chk, byName[r.prober], r), verdict.value)
                && emitted == if kind.None? || r.check in grouped then None
                              else Some(Alert("", [], "", r.check, kind.value, now, states[r.check].suspectedSince, ""))
      ensures verdict.None? || r.prober in isolated ==> overruled == old(overruled)
      ensures verdict.Some? && r.prober in isolated ==>
                && verdict.value.status == Unknown && verdict.value.counted == 0
                && verdict.value.suppressed == 1 && verdict.value.suppressedProbers == {r.prober}
      ensures emitted.Some? ==>
                && verdict.Some? && r.check !in grouped
                && Backed(checks[r.check], evidence, Options(now, resultMaxAge, isolated), Claims(emitted.value.kind))
                && (forall e | e in evidence :: Registered(checks[r.check], peers, e))
    {
      hide DecidedOn, Gathered, Backed, Transition, Claims, Overrule, CallsFor, LastConclusive;
      evidence, verdict, emitted := [], None, None;
      if r.check !in checks || r.prober !in byName {
        return;
      }
      var chk := checks[r.check];
      var normal := NormalizeRoute(chk, byName[r.prober], r);
      if r.prober in isolated {
        verdict := Some(IsolatedVerdict(chk, r.prober));
        return;
      }
      var opts := Options(now, resultMaxAge, isolated);
      var v, alert, suspectedAt;
      v, alert, suspectedAt, evidence := Handle(chk, normal, replies, opts);
      verdict := Some(v);
      CountOverruled(chk, normal, v);
      if alert.Some? && chk.name !in grouped {
        emitted := Some(Alert("", [], "", chk.name, alert.value, now, suspectedAt, ""));
      }
    }

    method Handle(chk: Check, r: Result, replies: map<string, Result>, opts: Options)
      returns (v: Verdict, alert: Option<Kind>, suspectedAt: Time, ghost evidence: seq<Result>)
      requires Valid() && r.prober in byName && Registered(chk, peers, r)
      modifies this`states, states.Values
      ensures Valid() && fresh(states.Values - old(states.Values))
      ensures forall n | n in old(states) :: n in states && states[n] == old(states[n])
      ensures forall n | n in states && n != chk.name :: n in old(states) && unchanged(states[n])
      ensures var current := old(if chk.name in states then states[chk.name].status else Unknown);
              && chk.name in states && (states[chk.name].status, alert) == Transition(current, v.status)
              && Gathered(chk, peers, byName[r.prober], current, r, replies, opts, evidence)
              && DecidedOn(chk, current, r, evidence, opts, v)
      ensures alert.Some? ==> Backed(chk, evidence, opts, Claims(alert.value))
      ensures forall e | e in evidence :: Registered(chk, peers, e)
      ensures suspectedAt == states[chk.name].suspectedSince
      ensures Past(chk.name) == old(Past(chk.name)) + [v.status]
      ensures states[chk.name].status == LastConclusive(Past(chk.name))
      ensures CallsFor(LastConclusive(old(Past(chk.name))), v.status, alert)
      ensures Told(chk.name) == old(Told(chk.name)) + if alert.Some? then [alert.value] else []
    {
      hide DecidedOn, Gathered, Backed, Registered, Transition, Claims, CallsFor, LastConclusive, EntityState.Valid,
           UniqueNames, Registers, Distinct;
      var st := StateFor(chk.name);
      v, alert, suspectedAt, evidence := Decide(chk, st, r, replies, opts);
    }

    /** Counts the failures that a prober reported and enough others contradicted. */
    method CountOverruled(chk: Check, r: Result, v: Verdict)
      modifies this`overruled
      ensures overruled == Overrule(old(overruled), chk, r, v)
    {
      if r.status in {Down, Warning} && v.status != Down && v.status != r.status
         && v.independentUp >= chk.quorum.agree {
        var key := (r.prober, chk.name);
        overruled := overruled[key := (if key in overruled then overruled[key] else 0) + 1];
      }
    }
  }

  lemma AskedArePeers(chk: Check, peers: seq<Peer>, reported: Result, seed: Result, asked: seq<Peer>)
    requires Chosen(chk, peers, reported, seed, asked)
    ensures Distinct(asked) && forall p | p in asked :: p in peers
  {
    assert forall p | p in asked :: p in Elements(asked);
  }

  lemma NoAnswers(chk: Check, replies: map<string, Result>)
    ensures AnswersOf(chk, [], replies) == {} && Distinct<Result>([])
  {
  }

  function IsolatedVerdict(chk: Check, prober: string): Verdict {
    Verdict(chk.name, Unknown, 0, 0, 0, 0, 0, 0, 0, 0, 1, {prober}, {}, {})
  }
}
