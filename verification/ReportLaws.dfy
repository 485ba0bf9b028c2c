// What becomes of one prober's report (internal/coordinator/coordinator.go, decide and normalizeProxyRoute).

/** From a report to the verdict on it, said about the results, the quorum rule and the probers' routes. */
module ReportLaws {
  import opened Types
  import opened Sorting
  import opened Independence
  import opened Verdicts
  import opened VerdictProperties
  import opened VerdictLaws
  import opened Fleet
  import opened Acceptance
  import opened Corroboration
  import opened Reachability
  import opened Alerts
  import opened Transitions
  import opened Coordinator

  /** A report worth a second opinion: a failure, a warning not known yet, or the end of either. */
  predicate News(current: Status, status: Status) {
    || status == Down
    || (status == Warning && current != Warning)
    || (status == Up && current in {Down, Warning})
  }

  /** The prober answered over its registered route, and nothing keeps its answer from being counted. */
  predicate Sound(chk: Check, p: Peer, r: Result, opts: Options) {
    r.prober == p.name && r.egress == Exit(p, chk.proxyProfile) && !Defective(chk, r, opts)
  }

  /** Everyone asked gives a sound answer of this status. */
  ghost predicate Confirm(chk: Check, asked: seq<Peer>, replies: map<string, Result>, opts: Options, status: Status) {
    forall p | p in asked ::
      p.name in replies && Sound(chk, p, replies[p.name], opts) && replies[p.name].status == status
  }

  /** The reporter's own result, as it is after its route has been checked. */
  ghost predicate Reports(chk: Check, reporter: Peer, r: Result, opts: Options) {
    Sound(chk, reporter, r, opts) && r.provider == reporter.provider && r.status != Unknown
  }

  /**
   * A result over the prober's registered route keeps its status, any other says nothing. The provider and the
   * route are those of the registration in either case, and nothing else changes.
   */
  lemma NormalizedExactly(chk: Check, p: Peer, r: Result)
    ensures var x := NormalizeRoute(chk, p, r);
            && (x.check, x.prober, x.vantage, x.at) == (r.check, r.prober, r.vantage, r.at)
            && (x.provider, x.proxyProfile, x.egress) == (p.provider, chk.proxyProfile, Exit(p, chk.proxyProfile))
            && x.status == if r.proxyProfile == chk.proxyProfile && r.egress == Exit(p, chk.proxyProfile)
                              && (chk.proxyProfile != "" ==> r.egress != "") then r.status else Unknown
  {
  }

  /** A sound answer is a usable vote of its status, and its prober replied. */
  lemma SoundCounts(chk: Check, p: Peer, replies: map<string, Result>, opts: Options)
    requires p.name in replies && Sound(chk, p, replies[p.name], opts)
    ensures Replied(chk, p, replies)
    ensures var x := NormalizeRoute(chk, p, replies[p.name]);
            Counts(chk, x, opts) && x.status == replies[p.name].status && Answers(chk, p, x)
  {
    NormalizedExactly(chk, p, replies[p.name]);
    CountsUnlessDefective(chk, NormalizeRoute(chk, p, replies[p.name]), opts);
  }

  /**
   * When others are asked: about a failure or a new warning that cannot be decided on this result alone, and
   * about the end of a decided failure or warning if more than one must agree.
   */
  lemma AskedExactly(chk: Check, peers: seq<Peer>, reporter: Peer, current: Status, r: Result,
                     replies: map<string, Result>, opts: Options, evidence: seq<Result>)
    requires chk.quorum.agree >= 1 && Gathered(chk, peers, reporter, current, r, replies, opts, evidence)
    ensures if News(current, r.status) && (chk.quorum.agree > 1 || (r.status != Up && Defective(chk, r, opts)))
            then Corroborated(chk, peers, reporter, r, replies, evidence[1..])
            else evidence == [r]
  {
    hide Corroborated, Defective, StatusOf, Tally;
    AloneExactly(chk, r, opts);
  }

  /** A failure or warning is decided on one result exactly if the result can be counted and one is enough. */
  lemma AloneExactly(chk: Check, r: Result, opts: Options)
    requires chk.quorum.agree >= 1
    ensures r.status in {Down, Warning} ==>
              (StatusOf(chk, Tally(chk, [r], opts)) == r.status
               <==> chk.quorum.agree == 1 && !Defective(chk, r, opts))
  {
    hide Counts, Defective, IndependentCount, Routed;
    CountsUnlessDefective(chk, r, opts);
    assert [r][..0] == [];
    assert Tally(chk, [], opts) == map[];
    var tally := Tally(chk, [r], opts);
    assert tally == if Counts(chk, r, opts) then map[r.prober := r] else map[];
    forall s ensures VotesWith(tally, s) == if Counts(chk, r, opts) && r.status in s then {r} else {} {
      assert Counts(chk, r, opts) ==> tally[r.prober] == r;
    }
    OneVoteCounts(chk, r, opts);
  }

  lemma OneVoteCounts(chk: Check, r: Result, opts: Options)
    ensures IndependentCount({}, chk.quorum.distinctProviders) == 0
    ensures Counts(chk, r, opts) ==> IndependentCount({r}, chk.quorum.distinctProviders) == 1
  {
    var d := chk.quorum.distinctProviders;
    var none := CountIsMaximum({}, d);
    assert none == {};
    var best := CountIsMaximum({r}, d);
    SubsetSize(best, {r});
    if Counts(chk, r, opts) {
      assert Selection({r}, {r}, d);
    }
  }

  /** What a verdict becomes for the decided status, on the votes themselves. */
  lemma JudgedExactly(chk: Check, current: Status, r: Result, evidence: seq<Result>, opts: Options, v: Verdict)
    requires DecidedOn(chk, current, r, evidence, opts, v)
    ensures v.status == Down <==> Enough(chk, evidence, opts, {Down})
    ensures var calm := !Enough(chk, evidence, opts, {Down}) && !Says(chk, evidence, opts, {Down})
                        && Says(chk, evidence, opts, {Up, Warning});
            var warned := Enough(chk, evidence, opts, {Warning});
            var still := current == Warning && r.status == Warning;
            && (v.status == Warning <==> calm && (warned || still))
            && (v.status == Up <==> calm && !warned && !still
                                    && (current in {Down, Warning} ==> Enough(chk, evidence, opts, {Up, Warning})))
  {
    hide Enough, Says, Tally, Agreeing, VotesWith, Providers, Names, SuppressedNames, SuppressedCount, StatusOf;
    var raw :| VerdictOn(chk, evidence, opts, raw) && v == raw.(status := Amended(chk, current, r, raw));
    StatusExactly(chk, evidence, opts, raw);
    EnoughExactly(chk, evidence, opts, {Up, Warning});
  }

  /**
   * A report of a failure is counted against its prober exactly if the verdict is neither Down nor what it said, and
   * enough independent votes contradict it. Nothing else is counted.
   */
  lemma OverruledExactly(before: map<(string, string), nat>, chk: Check, current: Status, r: Result,
                         evidence: seq<Result>, opts: Options, v: Verdict)
    requires DecidedOn(chk, current, r, evidence, opts, v)
    ensures var after, key := Overrule(before, chk, r, v), (r.prober, chk.name);
            && (forall k | k != key :: (k in after <==> k in before) && (k in before ==> after[k] == before[k]))
            && if r.status in {Down, Warning} && v.status != Down && v.status != r.status
                  && Enough(chk, evidence, opts, {Up, Warning})
               then key in after && after[key] == (if key in before then before[key] else 0) + 1
               else after == before
  {
    hide Enough, Tally, VotesWith, IndependentCount, Providers, Names, SuppressedNames, SuppressedCount, StatusOf;
    EnoughExactly(chk, evidence, opts, {Up, Warning});
  }

  /** Nobody else is asked, or the answers of a choice of probers are behind the report. */
  ghost predicate Consulted(chk: Check, peers: seq<Peer>, reporter: Peer, current: Status, r: Result,
                            replies: map<string, Result>, evidence: seq<Result>, asked: seq<Peer>) {
    if News(current, r.status) && chk.quorum.agree > 1
    then evidence != [] && Polled(chk, peers, reporter, r, replies, asked, evidence[1..])
    else asked == [] && evidence == [r]
  }

  /** As many independent votes as the routes of the reporter and those asked hold. */
  ghost function RouteVotes(chk: Check, asked: seq<Peer>, reporter: Peer): nat {
    IndependentCount(Routes(chk, Elements(asked) + {reporter}), chk.quorum.distinctProviders)
  }

  /**
   * From report to decision, for any check and any decided status: if everyone asked confirms the report, it is
   * decided exactly if the routes of the reporter and those asked hold enough independent votes, or if it is no
   * news.
   */
  lemma UnanimousIsDecidedExactly(chk: Check, peers: seq<Peer>, reporter: Peer, current: Status, r: Result,
                                  replies: map<string, Result>, opts: Options, evidence: seq<Result>, v: Verdict)
    returns (asked: seq<Peer>)
    requires UniqueNames(peers) && reporter in EligibleSet(chk, peers) && chk.quorum.agree >= 1
    requires Reports(chk, reporter, r, opts)
    requires Gathered(chk, peers, reporter, current, r, replies, opts, evidence)
    requires DecidedOn(chk, current, r, evidence, opts, v)
    ensures Consulted(chk, peers, reporter, current, r, replies, evidence, asked)
    ensures Confirm(chk, asked, replies, opts, r.status) ==>
              (v.status == r.status
               <==> RouteVotes(chk, asked, reporter) >= chk.quorum.agree || !News(current, r.status))
  {
    asked := WhoIsAsked(chk, peers, reporter, current, r, replies, opts, evidence);
    hide Gathered, Consulted, DecidedOn, EligibleSet, Elements, Confirm, RouteVotes, AllSay, RoutesKnown;
    if Confirm(chk, asked, replies, opts, r.status) {
      AllConfirm(chk, peers, reporter, current, r, replies, opts, evidence, asked);
      UnanimousVerdict(chk, current, reporter, r, evidence, opts, v, asked);
    }
  }

  lemma WhoIsAsked(chk: Check, peers: seq<Peer>, reporter: Peer, current: Status, r: Result,
                   replies: map<string, Result>, opts: Options, evidence: seq<Result>)
    returns (asked: seq<Peer>)
    requires chk.quorum.agree >= 1 && Reports(chk, reporter, r, opts)
    requires Gathered(chk, peers, reporter, current, r, replies, opts, evidence)
    ensures Consulted(chk, peers, reporter, current, r, replies, evidence, asked)
  {
    hide Polled, Defective, StatusOf, Tally, MustAsk;
    AskedExactly(chk, peers, reporter, current, r, replies, opts, evidence);
    asked := [];
    if News(current, r.status) && chk.quorum.agree > 1 {
      asked :| Polled(chk, peers, reporter, r, replies, asked, evidence[1..]);
    }
  }

  /** The evidence then holds one vote for the report from everybody involved, and no other. */
  lemma AllConfirm(chk: Check, peers: seq<Peer>, reporter: Peer, current: Status, r: Result,
                   replies: map<string, Result>, opts: Options, evidence: seq<Result>, asked: seq<Peer>)
    requires UniqueNames(peers) && reporter in EligibleSet(chk, peers) && Reports(chk, reporter, r, opts)
    requires Gathered(chk, peers, reporter, current, r, replies, opts, evidence)
    requires Consulted(chk, peers, reporter, current, r, replies, evidence, asked)
    requires Confirm(chk, asked, replies, opts, r.status)
    ensures AllSay(chk, Elements(asked) + {reporter}, evidence, opts, r.status)
    ensures RoutesKnown(chk, Elements(asked) + {reporter})
  {
    hide StatusOf, Tally, MustAsk, Corroborated, Defective, Counts, NormalizeRoute;
    var members, answers := Elements(asked) + {reporter}, evidence[1..];
    CountsUnlessDefective(chk, r, opts);
    assert r in evidence && evidence == [r] + answers;
    assert Elements(answers) == AnswersOf(chk, asked, replies);
    forall p | p in asked
      ensures Answered(p, evidence) && p in peers && (chk.proxyProfile == "" || Exit(p, chk.proxyProfile) != "")
    {
      SoundCounts(chk, p, replies, opts);
      assert p in Elements(asked);
      var x := NormalizeRoute(chk, p, replies[p.name]);
      assert x in Elements(answers) && x in evidence && x.prober == p.name;
    }
    forall e | e in evidence ensures FromMember(chk, members, e) && Counts(chk, e, opts) && e.status == r.status {
      if e == r {
        RegisteredRoute(chk, reporter, r, opts);
        assert reporter in members && Answers(chk, reporter, r);
      } else {
        assert e in Elements(answers);
        var p :| p in asked && Replied(chk, p, replies) && e == NormalizeRoute(chk, p, replies[p.name]);
        SoundCounts(chk, p, replies, opts);
        assert p in members && Answers(chk, p, e);
      }
    }
  }

  lemma RegisteredRoute(chk: Check, reporter: Peer, r: Result, opts: Options)
    requires Reports(chk, reporter, r, opts)
    ensures Answers(chk, reporter, r)
  {
  }

  /** What follows from such evidence. */
  lemma UnanimousVerdict(chk: Check, current: Status, reporter: Peer, r: Result, evidence: seq<Result>, opts: Options,
                         v: Verdict, asked: seq<Peer>)
    requires chk.quorum.agree >= 1 && r.status != Unknown
    requires AllSay(chk, Elements(asked) + {reporter}, evidence, opts, r.status)
    requires RoutesKnown(chk, Elements(asked) + {reporter})
    requires DecidedOn(chk, current, r, evidence, opts, v)
    ensures v.status == r.status <==> RouteVotes(chk, asked, reporter) >= chk.quorum.agree || !News(current, r.status)
  {
    hide Tally, VotesWith, Routes, IndependentCount, Providers, Names, SuppressedNames, SuppressedCount, RoutesKnown,
         Elements, AllSay;
    var members, tally, d := Elements(asked) + {reporter}, Tally(chk, evidence, opts), chk.quorum.distinctProviders;
    MembersAgree(chk, members, evidence, opts, r.status);
    OnlyThese(chk, members, reporter, evidence, opts, r.status);
    OneVoteCounts(chk, r, opts);
    var raw :| VerdictOn(chk, evidence, opts, raw) && v == raw.(status := Amended(chk, current, r, raw));
    assert VotesWith(tally, {Up, Warning})
        == if r.status in {Up, Warning} then VotesWith(tally, {r.status}) else {};
  }

  /** Nobody votes for anything else, and somebody votes. */
  lemma OnlyThese(chk: Check, members: set<Peer>, reporter: Peer, evidence: seq<Result>, opts: Options, status: Status)
    requires AllSay(chk, members, evidence, opts, status) && reporter in members
    ensures var tally := Tally(chk, evidence, opts);
            forall s :: VotesWith(tally, s) == if status in s then VotesWith(tally, {status}) else {}
    ensures VotesWith(Tally(chk, evidence, opts), {status}) != {}
  {
    hide Counts, Tally;
    TallyIsNewest(chk, evidence, opts);
    var tally := Tally(chk, evidence, opts);
    assert forall p | p in tally :: tally[p].status == status;
    assert Answered(reporter, evidence);
    var r :| r in evidence && r.prober == reporter.name;
    assert tally[r.prober] in VotesWith(tally, {status});
  }

  /**
   * An accepted direct check decides whatever the reporter and everyone asked agree on, be it a failure, a
   * warning or a recovery, as long as those who vote spell one provider in one way; and that becomes its status.
   */
  lemma DirectReportIsDecided(chk: Check, peers: seq<Peer>, reporter: Peer, past: seq<Status>, r: Result,
                              replies: map<string, Result>, opts: Options, evidence: seq<Result>, v: Verdict)
    returns (asked: seq<Peer>)
    requires UniqueNames(peers) && Accepted(chk, peers) && chk.proxyProfile == ""
    requires reporter in EligibleSet(chk, peers) && Reports(chk, reporter, r, opts)
    requires Gathered(chk, peers, reporter, LastConclusive(past), r, replies, opts, evidence)
    requires DecidedOn(chk, LastConclusive(past), r, evidence, opts, v)
    ensures Consulted(chk, peers, reporter, LastConclusive(past), r, replies, evidence, asked)
    ensures Confirm(chk, asked, replies, opts, r.status) && PlainProviders(Elements(asked) + {reporter}) ==>
              v.status == r.status == LastConclusive(past + [v.status])
  {
    hide Gathered, DecidedOn, Elements, Confirm, RoutesComplete, NamedProviders, PlainProviders, Chosen, LastConclusive,
         IndependentCount;
    var current := LastConclusive(past);
    asked := UnanimousIsDecidedExactly(chk, peers, reporter, current, r, replies, opts, evidence, v);
    if PlainProviders(Elements(asked) + {reporter}) && News(current, r.status) && chk.quorum.agree > 1 {
      DirectMembersSuffice(chk, peers, reporter, r, asked);
    }
    ReporterSuffices(chk, reporter);
    LastMore(past, v.status);
  }

  /** For a proxied check it does, if the fleet holds enough independent routes beside the reporter's. */
  lemma ProxyReportIsDecided(chk: Check, peers: seq<Peer>, reporter: Peer, past: seq<Status>, r: Result,
                             replies: map<string, Result>, opts: Options, evidence: seq<Result>, v: Verdict)
    returns (asked: seq<Peer>)
    requires UniqueNames(peers) && ValidCheck(chk) && chk.proxyProfile != ""
    requires reporter in EligibleSet(chk, peers) && Reports(chk, reporter, r, opts)
    requires PlainBeside(chk, Candidates(chk, peers, reporter.name), reporter)
    requires With(chk, Candidates(chk, peers, reporter.name), reporter) >= chk.quorum.agree
    requires Gathered(chk, peers, reporter, LastConclusive(past), r, replies, opts, evidence)
    requires DecidedOn(chk, LastConclusive(past), r, evidence, opts, v)
    ensures Consulted(chk, peers, reporter, LastConclusive(past), r, replies, evidence, asked)
    ensures Confirm(chk, asked, replies, opts, r.status) ==> v.status == r.status == LastConclusive(past + [v.status])
  {
    hide Gathered, DecidedOn, Elements, Confirm, PlainBeside, With, Chosen, LastConclusive, IndependentCount;
    var current := LastConclusive(past);
    asked := UnanimousIsDecidedExactly(chk, peers, reporter, current, r, replies, opts, evidence, v);
    if News(current, r.status) && chk.quorum.agree > 1 {
      ProxyMembersSuffice(chk, peers, reporter, r, asked);
    }
    ReporterSuffices(chk, reporter);
    LastMore(past, v.status);
  }

  /** The reporter alone gives one vote. */
  lemma ReporterSuffices(chk: Check, reporter: Peer)
    requires chk.proxyProfile == "" || Exit(reporter, chk.proxyProfile) != ""
    ensures RouteVotes(chk, [], reporter) == 1
  {
    var seed, d := RouteResult(chk, reporter), chk.quorum.distinctProviders;
    assert Routes(chk, Elements<Peer>([]) + {reporter}) == {seed};
    var best := CountIsMaximum({seed}, d);
    SubsetSize(best, {seed});
    assert Selection({seed}, {seed}, d);
  }
}
