// Whether the probers that are asked can establish the verdict they are asked for.

/** Validation, selection and counting fit together. */
module Reachability {
  import opened Types
  import opened Sorting
  import opened Independence
  import opened Verdicts
  import opened VerdictProperties
  import opened Fleet
  import opened Acceptance
  import opened Corroboration

  /** A vote for each vote, with the same keys, carries the count over. */
  lemma CountTransfer(xs: set<Result>, ys: set<Result>, distinctProviders: bool)
    requires forall x | x in xs && Routed(x) :: exists y :: y in ys && SameKeys(x, y, distinctProviders)
    ensures IndependentCount(xs, distinctProviders) <= IndependentCount(ys, distinctProviders)
  {
    var best := CountIsMaximum(xs, distinctProviders);
    var to := map x | x in best :: var y :| y in ys && SameKeys(x, y, distinctProviders); y;
    TransferSelection(best, to, distinctProviders);
    Pigeonhole(best, to, to.Values);
    assert Selection(to.Values, ys, distinctProviders);
    var other := CountIsMaximum(ys, distinctProviders);
  }

  lemma TransferSelection(best: set<Result>, to: map<Result, Result>, distinctProviders: bool)
    requires Independent(best, distinctProviders) && to.Keys == best
    requires forall x | x in best :: SameKeys(x, to[x], distinctProviders)
    ensures Independent(to.Values, distinctProviders)
    ensures forall x, y | x in best && y in best && x != y :: to[x] != to[y]
    ensures forall y | y in to.Values :: Routed(y)
  {
    forall a, b | a in to.Values && b in to.Values && a != b
      ensures LeftKey(a, distinctProviders) != LeftKey(b, distinctProviders) && RightKey(a) != RightKey(b)
    {
      var x :| x in to && to[x] == a;
      var y :| y in to && to[y] == b;
      assert SameKeys(x, a, distinctProviders) && SameKeys(y, b, distinctProviders);
    }
    forall x, y | x in best && y in best && x != y ensures to[x] != to[y] {
      assert SameKeys(x, to[x], distinctProviders) && SameKeys(y, to[y], distinctProviders);
    }
  }

  ghost predicate SameKeys(x: Result, y: Result, distinctProviders: bool) {
    && LeftKey(x, distinctProviders) == LeftKey(y, distinctProviders)
    && RightKey(x) == RightKey(y)
    && Routed(x) && Routed(y)
  }

  /** Every member, and nobody else, answered over its registered route with a usable result of this status. */
  ghost predicate AllSay(chk: Check, members: set<Peer>, results: seq<Result>, opts: Options, status: Status) {
    && (forall p {:trigger Answered(p, results)} | p in members :: Answered(p, results))
    && (forall r {:trigger FromMember(chk, members, r)} | r in results :: FromMember(chk, members, r))
    && (forall r | r in results :: Counts(chk, r, opts) && r.status == status)
  }

  ghost predicate Answered(p: Peer, results: seq<Result>) {
    exists r :: r in results && r.prober == p.name
  }

  ghost predicate FromMember(chk: Check, members: set<Peer>, r: Result) {
    exists p :: p in members && Answers(chk, p, r)
  }

  ghost predicate Answers(chk: Check, p: Peer, r: Result) {
    && r.prober == p.name && r.provider == p.provider
    && r.proxyProfile == chk.proxyProfile && r.egress == Exit(p, chk.proxyProfile)
  }

  /** When every member says the same, the independent votes for it are as many as the members' routes hold. */
  lemma MembersAgree(chk: Check, members: set<Peer>, results: seq<Result>, opts: Options, status: Status)
    requires AllSay(chk, members, results, opts, status) && RoutesKnown(chk, members)
    ensures Agreeing(chk, Tally(chk, results, opts), {status})
            == IndependentCount(Routes(chk, members), chk.quorum.distinctProviders)
  {
    hide Routes, VotesWith, SameKeys, Newest, AllSay, Tally, IndependentCount, RoutesKnown;
    var tally := Tally(chk, results, opts);
    var votes := VotesWith(tally, {status});
    TallyIsNewest(chk, results, opts);
    RoutesHaveVotes(chk, members, results, opts, status, tally);
    VotesHaveRoutes(chk, members, results, opts, status, tally);
    CountTransfer(Routes(chk, members), votes, chk.quorum.distinctProviders);
    CountTransfer(votes, Routes(chk, members), chk.quorum.distinctProviders);
  }

  /** The members differ in name, and each has a route for the check. */
  ghost predicate RoutesKnown(chk: Check, members: set<Peer>) {
    && (forall p | p in members :: chk.proxyProfile == "" || Exit(p, chk.proxyProfile) != "")
    && (forall p, q | p in members && q in members && p.name == q.name :: p == q)
  }

  /**
   * When every member answers Down, the verdict is Down exactly when the members' registered routes hold
   * enough independent votes.
   */
  lemma DownExactlyWhenRoutesSuffice(chk: Check, members: set<Peer>, results: seq<Result>, opts: Options)
    requires AllSay(chk, members, results, opts, Down) && RoutesKnown(chk, members)
    ensures StatusOf(chk, Tally(chk, results, opts)) == Down
            <==> IndependentCount(Routes(chk, members), chk.quorum.distinctProviders) >= chk.quorum.agree
  {
    hide Routes, VotesWith, AllSay, Tally, Agreeing, IndependentCount, RoutesKnown;
    MembersAgree(chk, members, results, opts, Down);
  }

  lemma RoutesHaveVotes(chk: Check, members: set<Peer>, results: seq<Result>, opts: Options, status: Status,
                        tally: map<string, Result>)
    requires AllSay(chk, members, results, opts, status) && Newest(chk, results, opts, tally)
    requires RoutesKnown(chk, members)
    ensures forall x | x in Routes(chk, members) ::
              exists y :: y in VotesWith(tally, {status}) && SameKeys(x, y, chk.quorum.distinctProviders)
  {
    forall x | x in Routes(chk, members)
      ensures exists y :: y in VotesWith(tally, {status}) && SameKeys(x, y, chk.quorum.distinctProviders)
    {
      var p :| p in members && x == RouteResult(chk, p);
      assert Answered(p, results);
      var r :| r in results && r.prober == p.name;
      var y := tally[p.name];
      assert FromMember(chk, members, y);
      var q :| q in members && Answers(chk, q, y);
      assert q == p;
      assert y in VotesWith(tally, {status}) && SameKeys(x, y, chk.quorum.distinctProviders);
    }
  }

  lemma VotesHaveRoutes(chk: Check, members: set<Peer>, results: seq<Result>, opts: Options, status: Status,
                        tally: map<string, Result>)
    requires AllSay(chk, members, results, opts, status) && Newest(chk, results, opts, tally)
    ensures forall x | x in VotesWith(tally, {status}) && Routed(x) ::
              exists y :: y in Routes(chk, members) && SameKeys(x, y, chk.quorum.distinctProviders)
  {
    forall x | x in VotesWith(tally, {status}) && Routed(x)
      ensures exists y :: y in Routes(chk, members) && SameKeys(x, y, chk.quorum.distinctProviders)
    {
      var n :| n in tally && tally[n] == x;
      assert FromMember(chk, members, x);
      var p :| p in members && Answers(chk, p, x);
      assert SameKeys(x, RouteResult(chk, p), chk.quorum.distinctProviders);
    }
  }

  ghost function ProviderKeys(ps: set<Peer>): set<string> {
    set p | p in ps :: ProviderKey(p.provider)
  }

  /** Direct votes are as many as the probers or, when those must differ, as the providers that quorum tells apart. */
  lemma DirectCount(chk: Check, members: set<Peer>)
    requires chk.proxyProfile == ""
    requires forall p, q | p in members && q in members && p.name == q.name :: p == q
    ensures IndependentCount(Routes(chk, members), chk.quorum.distinctProviders)
            == if chk.quorum.distinctProviders then |ProviderKeys(members)| else |members|
  {
    hide ProviderKey, IndependentCount;
    var d := chk.quorum.distinctProviders;
    var best := CountIsMaximum(Routes(chk, members), d);
    if d {
      var to := map k | k in ProviderKeys(members) :: var p :| p in members && ProviderKey(p.provider) == k; p;
      assert to.Values <= members;
      Pigeonhole(ProviderKeys(members), to, to.Values);
      DirectSelection(chk, to.Values);
      assert Routes(chk, to.Values) <= Routes(chk, members);
      KeysBound(chk, members, best);
    } else {
      DirectSelection(chk, members);
      RoutesSize(chk, members);
      SubsetSize(best, Routes(chk, members));
    }
  }

  lemma KeysBound(chk: Check, members: set<Peer>, votes: set<Result>)
    requires Selection(votes, Routes(chk, members), true)
    ensures |votes| <= |ProviderKeys(members)|
  {
    hide ProviderKey;
    var keys := map v | v in votes :: LeftKey(v, true);
    forall v | v in votes ensures keys[v] in ProviderKeys(members) {
      var p :| p in members && v == RouteResult(chk, p);
    }
    Pigeonhole(votes, keys, ProviderKeys(members));
  }

  /** For direct checks the exact condition: enough probers or, when they must differ, enough providers, vote. */
  lemma DirectDownExactly(chk: Check, members: set<Peer>, results: seq<Result>, opts: Options)
    requires AllSay(chk, members, results, opts, Down) && chk.proxyProfile == ""
    requires forall p, q | p in members && q in members && p.name == q.name :: p == q
    ensures StatusOf(chk, Tally(chk, results, opts)) == Down
            <==> chk.quorum.agree <= if chk.quorum.distinctProviders then |ProviderKeys(members)| else |members|
  {
    DirectCount(chk, members);
    DownExactlyWhenRoutesSuffice(chk, members, results, opts);
  }

  lemma PlainKeys(members: set<Peer>)
    requires PlainProviders(members)
    ensures |RawProviders(members)| <= |ProviderKeys(members)|
  {
    var keys := map n | n in RawProviders(members) :: ProviderKey(n);
    Pigeonhole(RawProviders(members), keys, ProviderKeys(members));
  }

  /** Direct votes of probers that differ in name and, when required, in provider are independent. */
  lemma DirectSelection(chk: Check, ps: set<Peer>)
    requires chk.proxyProfile == ""
    requires forall p, q | p in ps && q in ps && p != q :: DirectlyDistinct(chk, p, q)
    ensures Selection(Routes(chk, ps), Routes(chk, ps), chk.quorum.distinctProviders)
    ensures |Routes(chk, ps)| >= |ps|
  {
    forall a, b | a in Routes(chk, ps) && b in Routes(chk, ps) && a != b
      ensures LeftKey(a, chk.quorum.distinctProviders) != LeftKey(b, chk.quorum.distinctProviders)
      ensures RightKey(a) != RightKey(b)
    {
      var p :| p in ps && a == RouteResult(chk, p);
      var q :| q in ps && b == RouteResult(chk, q);
      assert DirectlyDistinct(chk, p, q);
      RightKeysSeparate(a, b);
    }
    DirectSize(chk, ps);
  }

  ghost predicate DirectlyDistinct(chk: Check, p: Peer, q: Peer) {
    p.name != q.name && (chk.quorum.distinctProviders ==> ProviderKey(p.provider) != ProviderKey(q.provider))
  }

  lemma DirectSize(chk: Check, ps: set<Peer>)
    requires forall p, q | p in ps && q in ps && p != q :: DirectlyDistinct(chk, p, q)
    ensures |Routes(chk, ps)| >= |ps|
  {
    var to := map p | p in ps :: RouteResult(chk, p);
    forall p, q | p in ps && q in ps && p != q ensures to[p] != to[q] {
      assert DirectlyDistinct(chk, p, q);
    }
    Pigeonhole(ps, to, Routes(chk, ps));
  }

  /**
   * For every accepted direct check and every eligible reporter: if the reporter and everyone asked answer
   * Down, the verdict is Down, as long as those who vote spell one provider in one way.
   */
  lemma DirectQuorumReachable(chk: Check, peers: seq<Peer>, reporter: Peer, reported: Result, asked: seq<Peer>,
                              results: seq<Result>, opts: Options)
    requires UniqueNames(peers) && PlainProviders(Elements(asked) + {reporter})
    requires Accepted(chk, peers) && chk.proxyProfile == ""
    requires reporter in EligibleSet(chk, peers)
    requires reported.prober == reporter.name && reported.provider == reporter.provider
    requires Chosen(chk, peers, reported, RouteResult(chk, reporter), asked)
    requires AllSay(chk, Elements(asked) + {reporter}, results, opts, Down)
    ensures StatusOf(chk, Tally(chk, results, opts)) == Down
  {
    DirectMembersSuffice(chk, peers, reporter, reported, asked);
    DownExactlyWhenRoutesSuffice(chk, Elements(asked) + {reporter}, results, opts);
  }

  /** The reporter and those asked about an accepted direct check can cast enough independent votes. */
  lemma DirectMembersSuffice(chk: Check, peers: seq<Peer>, reporter: Peer, reported: Result, asked: seq<Peer>)
    requires UniqueNames(peers) && PlainProviders(Elements(asked) + {reporter})
    requires Accepted(chk, peers) && chk.proxyProfile == ""
    requires reporter in EligibleSet(chk, peers)
    requires reported.prober == reporter.name && reported.provider == reporter.provider
    requires Chosen(chk, peers, reported, RouteResult(chk, reporter), asked)
    ensures RoutesKnown(chk, Elements(asked) + {reporter})
    ensures IndependentCount(Routes(chk, Elements(asked) + {reporter}), chk.quorum.distinctProviders)
            >= chk.quorum.agree
  {
    hide IndependentCount;
    var members := Elements(asked) + {reporter};
    MembersSuffice(chk, peers, reporter, asked);
    assert forall p | p in members :: p in peers;
    PlainKeys(members);
    DirectCount(chk, members);
  }

  // ----- votes beside the reporter's -----

  /** Can this prober's vote be counted beside the reporter's? The quorum compares trimmed names. */
  predicate StandsBeside(chk: Check, seed: Result, p: Peer) {
    && Exit(p, chk.proxyProfile) != seed.egress
    && (chk.quorum.distinctProviders ==> ProviderKey(p.provider) != ProviderKey(seed.provider))
  }

  ghost function BesideRoutes(chk: Check, ps: set<Peer>, seed: Result): set<Result> {
    set p | p in ps && StandsBeside(chk, seed, p) :: RouteResult(chk, p)
  }

  /** As many independent votes, the reporter's among them, as these probers and the reporter can give. */
  ghost function With(chk: Check, ps: set<Peer>, reporter: Peer): nat {
    1 + IndependentCount(BesideRoutes(chk, ps, RouteResult(chk, reporter)), chk.quorum.distinctProviders)
  }

  /** These probers and the reporter can give `n` independent votes, the reporter's among them. */
  ghost predicate Offers(chk: Check, ps: set<Peer>, reporter: Peer, n: nat) {
    exists votes :: Selection(votes, Routes(chk, ps + {reporter}), chk.quorum.distinctProviders)
                    && RouteResult(chk, reporter) in votes && |votes| >= n
  }

  /** No other choice of as many candidates offers more. */
  ghost predicate Optimal(chk: Check, candidates: set<Peer>, reporter: Peer, asked: set<Peer>) {
    forall other, n | other <= candidates && |other| == |asked| && Offers(chk, other, reporter, n) ::
      Offers(chk, asked, reporter, n)
  }

  /** A proxied reporter, and probers other than it. */
  ghost predicate Others(chk: Check, ps: set<Peer>, reporter: Peer) {
    chk.proxyProfile != "" && Exit(reporter, chk.proxyProfile) != "" && forall p | p in ps :: p.name != reporter.name
  }

  lemma OffersUpToWith(chk: Check, ps: set<Peer>, reporter: Peer, n: nat)
    requires Others(chk, ps, reporter)
    ensures Offers(chk, ps, reporter, n) <==> n <= With(chk, ps, reporter)
  {
    var seed, d := RouteResult(chk, reporter), chk.quorum.distinctProviders;
    if Offers(chk, ps, reporter, n) {
      var votes :| Selection(votes, Routes(chk, ps + {reporter}), d) && seed in votes && |votes| >= n;
      RestBeside(chk, ps, reporter, votes);
      SelectionSize(votes - {seed}, BesideRoutes(chk, ps, seed), d);
      assert |votes - {seed}| == |votes| - 1;
    }
    if n <= With(chk, ps, reporter) {
      var rest := CountIsMaximum(BesideRoutes(chk, ps, seed), d);
      BesideSeed(chk, ps, reporter, rest);
      assert |rest + {seed}| == With(chk, ps, reporter);
    }
  }

  /** What is independent of the reporter's vote stands beside it. */
  lemma RestBeside(chk: Check, ps: set<Peer>, reporter: Peer, votes: set<Result>)
    requires Others(chk, ps, reporter) && RouteResult(chk, reporter) in votes
    requires Selection(votes, Routes(chk, ps + {reporter}), chk.quorum.distinctProviders)
    ensures Selection(votes - {RouteResult(chk, reporter)}, BesideRoutes(chk, ps, RouteResult(chk, reporter)),
                      chk.quorum.distinctProviders)
  {
    hide ProviderKey;
    var seed := RouteResult(chk, reporter);
    forall r | r in votes && r != seed ensures r in BesideRoutes(chk, ps, seed) {
      var p :| p in ps + {reporter} && r == RouteResult(chk, p);
      RightKeysSeparate(r, seed);
      assert LeftKey(r, chk.quorum.distinctProviders) != LeftKey(seed, chk.quorum.distinctProviders);
      assert StandsBeside(chk, seed, p);
    }
  }

  /** And what stands beside the reporter's vote is independent of it. */
  lemma BesideSeed(chk: Check, ps: set<Peer>, reporter: Peer, rest: set<Result>)
    requires Others(chk, ps, reporter)
    requires Selection(rest, BesideRoutes(chk, ps, RouteResult(chk, reporter)), chk.quorum.distinctProviders)
    ensures RouteResult(chk, reporter) !in rest
    ensures Selection(rest + {RouteResult(chk, reporter)}, Routes(chk, ps + {reporter}), chk.quorum.distinctProviders)
  {
    hide ProviderKey;
    var seed := RouteResult(chk, reporter);
    forall r | r in rest
      ensures LeftKey(r, chk.quorum.distinctProviders) != LeftKey(seed, chk.quorum.distinctProviders)
      ensures RightKey(r) != RightKey(seed) && r in Routes(chk, ps + {reporter})
    {
      var p :| p in ps && StandsBeside(chk, seed, p) && r == RouteResult(chk, p);
      assert p in ps + {reporter};
      RightKeysSeparate(r, seed);
    }
    assert reporter in ps + {reporter};
  }

  /** No choice offers more than all candidates do, nor more votes than it has probers besides the reporter. */
  lemma WithBounded(chk: Check, candidates: set<Peer>, reporter: Peer, ps: set<Peer>)
    requires ps <= candidates
    ensures With(chk, ps, reporter) <= Min(With(chk, candidates, reporter), |ps| + 1)
  {
    var seed, d := RouteResult(chk, reporter), chk.quorum.distinctProviders;
    CountMonotone(BesideRoutes(chk, ps, seed), BesideRoutes(chk, candidates, seed), d);
    var rest := CountIsMaximum(BesideRoutes(chk, ps, seed), d);
    RoutesSize(chk, ps);
    SubsetSize(rest, Routes(chk, ps));
  }

  /** Some choice of `n` candidates does offer that much. */
  lemma WithReached(chk: Check, candidates: set<Peer>, reporter: Peer, n: nat) returns (ps: set<Peer>)
    requires n <= |candidates| && DistinctNames(candidates)
    ensures ps <= candidates && |ps| == n
    ensures With(chk, ps, reporter) == Min(With(chk, candidates, reporter), n + 1)
  {
    var seed, d := RouteResult(chk, reporter), chk.quorum.distinctProviders;
    var rest := CountIsMaximum(BesideRoutes(chk, candidates, seed), d);
    var lead := Senders(chk, candidates, seed, rest);
    if |lead| <= n {
      ps := SubsetBetween(lead, candidates, n);
    } else {
      ps := SubsetBetween({}, lead, n);
    }
    LeadWith(chk, reporter, lead, ps, rest);
    WithBounded(chk, candidates, reporter, ps);
  }

  /** The probers behind the votes. */
  lemma Senders(chk: Check, candidates: set<Peer>, seed: Result, rest: set<Result>) returns (lead: set<Peer>)
    requires DistinctNames(candidates) && rest <= BesideRoutes(chk, candidates, seed)
    ensures lead <= candidates && |lead| == |rest| && Routes(chk, lead) == rest
    ensures forall p | p in lead :: StandsBeside(chk, seed, p)
  {
    hide StandsBeside;
    lead := set p | p in candidates && StandsBeside(chk, seed, p) && RouteResult(chk, p) in rest;
    LeadSize(chk, lead);
    forall r | r in rest ensures r in Routes(chk, lead) {
      var p :| p in candidates && StandsBeside(chk, seed, p) && r == RouteResult(chk, p);
      assert p in lead;
    }
    assert Routes(chk, lead) == rest;
  }

  lemma LeadWith(chk: Check, reporter: Peer, lead: set<Peer>, ps: set<Peer>, rest: set<Result>)
    requires DistinctNames(lead) && Routes(chk, lead) == rest
    requires forall p | p in lead :: StandsBeside(chk, RouteResult(chk, reporter), p)
    requires (forall r | r in rest :: Routed(r)) && Independent(rest, chk.quorum.distinctProviders)
    requires lead <= ps || ps <= lead
    ensures With(chk, ps, reporter) >= Min(|lead|, |ps|) + 1
  {
    hide StandsBeside, IndependentCount, Independent, Routed, RouteResult;
    var both, seed := lead * ps, RouteResult(chk, reporter);
    assert both == if lead <= ps then lead else ps;
    LeadSize(chk, both);
    assert Routes(chk, both) <= rest && Routes(chk, both) <= BesideRoutes(chk, ps, seed);
    FewerIndependent(Routes(chk, both), rest, chk.quorum.distinctProviders);
    SelectionSize(Routes(chk, both), BesideRoutes(chk, ps, seed), chk.quorum.distinctProviders);
  }

  lemma FewerIndependent(few: set<Result>, many: set<Result>, distinctProviders: bool)
    requires few <= many && Independent(many, distinctProviders)
    ensures Independent(few, distinctProviders)
  {
  }

  lemma {:induction false} SubsetBetween<T>(least: set<T>, most: set<T>, n: nat) returns (some: set<T>)
    requires least <= most && |least| <= n <= |most|
    ensures least <= some <= most && |some| == n
    decreases n - |least|
  {
    if |least| == n {
      return least;
    }
    assert !(most <= least) by {
      if most <= least {
        SubsetSize(most, least);
      }
    }
    var x :| x in most && x !in least;
    SubsetSize(least + {x}, most);
    some := SubsetBetween(least + {x}, most, n);
  }

  /**
   * For a proxied check, a selection is optimal exactly if it offers as many independent votes beside the reporter's
   * as its size and the fleet allow.
   */
  lemma ProxySelectionExact(chk: Check, candidates: set<Peer>, reporter: Peer, asked: set<Peer>)
    requires Others(chk, candidates, reporter) && DistinctNames(candidates) && asked <= candidates
    ensures Optimal(chk, candidates, reporter, asked)
            <==> With(chk, asked, reporter) == Min(With(chk, candidates, reporter), |asked| + 1)
  {
    hide With, Offers, DistinctNames;
    SubsetSize(asked, candidates);
    var ideal := WithReached(chk, candidates, reporter, |asked|);
    WithBounded(chk, candidates, reporter, asked);
    var most := With(chk, ideal, reporter);
    OffersUpToWith(chk, ideal, reporter, most);
    OffersUpToWith(chk, asked, reporter, most);
    if With(chk, asked, reporter) == most {
      forall other, n | other <= candidates && |other| == |asked| && Offers(chk, other, reporter, n)
        ensures Offers(chk, asked, reporter, n)
      {
        OffersUpToWith(chk, other, reporter, n);
        OffersUpToWith(chk, asked, reporter, n);
        WithBounded(chk, candidates, reporter, other);
      }
    }
  }

  /** No candidate shares the reporter's provider under another spelling. */
  ghost predicate PlainBeside(chk: Check, candidates: set<Peer>, reporter: Peer) {
    chk.quorum.distinctProviders ==>
      forall p | p in candidates && ProviderKey(p.provider) == ProviderKey(reporter.provider) ::
        p.provider == reporter.provider
  }

  /** Then what the selection tells compatible is what the quorum counts beside the reporter's vote. */
  lemma PlainCompatible(chk: Check, candidates: set<Peer>, reporter: Peer)
    requires PlainBeside(chk, candidates, reporter)
    ensures var seed := RouteResult(chk, reporter);
            CompatibleRoutes(chk, candidates, seed) == BesideRoutes(chk, candidates, seed)
  {
    hide ProviderKey;
    var seed := RouteResult(chk, reporter);
    assert forall p | p in candidates :: Compatible(chk, seed, p) <==> StandsBeside(chk, seed, p);
  }

  /** So the probers asked offer as much as any. */
  lemma ChosenWith(chk: Check, peers: seq<Peer>, reporter: Peer, reported: Result, asked: seq<Peer>)
    requires UniqueNames(peers) && PlainBeside(chk, Candidates(chk, peers, reporter.name), reporter)
    requires chk.proxyProfile != "" && chk.quorum.asked > 1
    requires reporter in EligibleSet(chk, peers) && reported.prober == reporter.name
    requires Chosen(chk, peers, reported, RouteResult(chk, reporter), asked)
    ensures With(chk, Elements(asked), reporter)
            == Min(With(chk, Candidates(chk, peers, reporter.name), reporter), |asked| + 1)
  {
    var candidates, seed := Candidates(chk, peers, reporter.name), RouteResult(chk, reporter);
    var order, k :| |asked| <= |order| && asked == order[..|asked|] && Elements(order) == candidates
                    && Leads(chk, candidates, seed, order, k);
    PlainCompatible(chk, candidates, reporter);
    DistinctSize(asked);
    WithBounded(chk, candidates, reporter, Elements(asked));
    FrontWith(chk, candidates, reporter, order, k, asked);
  }

  lemma FrontWith(chk: Check, candidates: set<Peer>, reporter: Peer, order: seq<Peer>, k: nat, asked: seq<Peer>)
    requires Leads(chk, candidates, RouteResult(chk, reporter), order, k) && DistinctNames(candidates)
    requires CompatibleRoutes(chk, candidates, RouteResult(chk, reporter))
             == BesideRoutes(chk, candidates, RouteResult(chk, reporter))
    requires Distinct(asked) && asked <= order && Elements(order) <= candidates
    ensures With(chk, Elements(asked), reporter) >= Min(k, |asked|) + 1
  {
    hide CompatibleRoutes, StandsBeside, IndependentCount;
    var n, seed, d := Min(k, |asked|), RouteResult(chk, reporter), chk.quorum.distinctProviders;
    var lead := Elements(asked[..n]);
    DistinctSize(asked[..n]);
    assert asked[..n] <= order[..k];
    assert lead <= Elements(order[..k]) && lead <= Elements(asked) && lead <= candidates;
    SubSelection(chk, lead, Elements(order[..k]), BesideRoutes(chk, candidates, seed));
    StillBeside(chk, candidates, lead, seed);
    LeadWith(chk, reporter, lead, Elements(asked), Routes(chk, lead));
    DistinctSize(asked);
  }

  lemma StillBeside(chk: Check, candidates: set<Peer>, lead: set<Peer>, seed: Result)
    requires DistinctNames(candidates) && lead <= candidates && Routes(chk, lead) <= BesideRoutes(chk, candidates, seed)
    ensures forall p | p in lead :: StandsBeside(chk, seed, p)
  {
    hide StandsBeside;
    forall p | p in lead ensures StandsBeside(chk, seed, p) {
      assert RouteResult(chk, p) in BesideRoutes(chk, candidates, seed);
      var q :| q in candidates && StandsBeside(chk, seed, q) && RouteResult(chk, q) == RouteResult(chk, p);
      assert q.name == p.name;
    }
  }

  /**
   * With a proxy profile, no selection of the same size has a larger independent choice that contains the
   * reporter's vote than the probers asked.
   */
  lemma ProxySelectionOptimal(chk: Check, peers: seq<Peer>, reporter: Peer, reported: Result, asked: seq<Peer>)
    requires UniqueNames(peers) && PlainBeside(chk, Candidates(chk, peers, reporter.name), reporter)
    requires chk.proxyProfile != "" && chk.quorum.asked > 1
    requires reporter in EligibleSet(chk, peers) && reported.prober == reporter.name
    requires Chosen(chk, peers, reported, RouteResult(chk, reporter), asked)
    ensures Optimal(chk, Candidates(chk, peers, reporter.name), reporter, Elements(asked))
  {
    ChosenWith(chk, peers, reporter, reported, asked);
    DistinctSize(asked);
    ProxySelectionExact(chk, Candidates(chk, peers, reporter.name), reporter, Elements(asked));
  }

  /**
   * For a proxied check the guarantee that can be tested before the report: if, beside the reporter's route, the
   * fleet holds enough independent compatible ones, the verdict is Down whichever choice was asked.
   */
  lemma ProxyQuorumReachable(chk: Check, peers: seq<Peer>, reporter: Peer, reported: Result, asked: seq<Peer>,
                             results: seq<Result>, opts: Options)
    requires UniqueNames(peers) && ValidCheck(chk) && chk.proxyProfile != ""
    requires reporter in EligibleSet(chk, peers) && reported.prober == reporter.name
    requires Chosen(chk, peers, reported, RouteResult(chk, reporter), asked)
    requires AllSay(chk, Elements(asked) + {reporter}, results, opts, Down)
    requires PlainBeside(chk, Candidates(chk, peers, reporter.name), reporter)
    requires With(chk, Candidates(chk, peers, reporter.name), reporter) >= chk.quorum.agree
    ensures StatusOf(chk, Tally(chk, results, opts)) == Down
  {
    hide PlainBeside, AllSay, With, StatusOf, Tally, Chosen, EligibleSet, RouteResult, IndependentCount;
    ProxyMembersSuffice(chk, peers, reporter, reported, asked);
    DownExactlyWhenRoutesSuffice(chk, Elements(asked) + {reporter}, results, opts);
  }

  lemma ProxyMembersSuffice(chk: Check, peers: seq<Peer>, reporter: Peer, reported: Result, asked: seq<Peer>)
    requires UniqueNames(peers) && ValidCheck(chk) && chk.proxyProfile != ""
    requires reporter in EligibleSet(chk, peers) && reported.prober == reporter.name
    requires Chosen(chk, peers, reported, RouteResult(chk, reporter), asked)
    requires PlainBeside(chk, Candidates(chk, peers, reporter.name), reporter)
    requires With(chk, Candidates(chk, peers, reporter.name), reporter) >= chk.quorum.agree
    ensures RoutesKnown(chk, Elements(asked) + {reporter})
    ensures IndependentCount(Routes(chk, Elements(asked) + {reporter}), chk.quorum.distinctProviders)
            >= chk.quorum.agree
  {
    hide With, PlainBeside, Leads, IndependentCount, RouteResult;
    var candidates := Candidates(chk, peers, reporter.name);
    if chk.quorum.asked > 1 {
      ChosenWith(chk, peers, reporter, reported, asked);
      WithBounded(chk, candidates, reporter, candidates);
    }
    AtLeastTheReporter(chk, Elements(asked), reporter);
    WithCounts(chk, Elements(asked), reporter);
  }

  lemma AtLeastTheReporter(chk: Check, ps: set<Peer>, reporter: Peer)
    ensures With(chk, ps, reporter) >= 1
  {
  }

  /** What they offer together with the reporter is what the quorum may count. */
  lemma WithCounts(chk: Check, ps: set<Peer>, reporter: Peer)
    requires Others(chk, ps, reporter)
    ensures IndependentCount(Routes(chk, ps + {reporter}), chk.quorum.distinctProviders) >= With(chk, ps, reporter)
  {
    OffersUpToWith(chk, ps, reporter, With(chk, ps, reporter));
    var votes :| Selection(votes, Routes(chk, ps + {reporter}), chk.quorum.distinctProviders)
                 && RouteResult(chk, reporter) in votes && |votes| >= With(chk, ps, reporter);
    SelectionSize(votes, Routes(chk, ps + {reporter}), chk.quorum.distinctProviders);
  }

  lemma CompatibleSize(chk: Check, candidates: set<Peer>, seed: Result)
    ensures IndependentCount(CompatibleRoutes(chk, candidates, seed), chk.quorum.distinctProviders) <= |candidates|
  {
    var best := CountIsMaximum(CompatibleRoutes(chk, candidates, seed), chk.quorum.distinctProviders);
    RoutesSize(chk, candidates);
    SubsetSize(best, Routes(chk, candidates));
  }

  lemma MembersSuffice(chk: Check, peers: seq<Peer>, reporter: Peer, asked: seq<Peer>)
    requires UniqueNames(peers)
    requires Accepted(chk, peers)
    requires reporter in EligibleSet(chk, peers)
    requires Asks(chk, Candidates(chk, peers, reporter.name), asked)
    requires chk.quorum.distinctProviders && chk.quorum.asked > 1 ==>
               Diverse(Candidates(chk, peers, reporter.name), asked, reporter.provider)
    ensures chk.quorum.agree
            <= var members := Elements(asked) + {reporter};
               if chk.quorum.distinctProviders then |RawProviders(members)| else |members|
  {
    hide Elements, RawProviders, Coverage, NamedProviders, EligibleSet, Candidates, ValidCheck, RoutesComplete;
    var candidates := Candidates(chk, peers, reporter.name);
    AcceptedCounts(chk, peers, reporter);
    DistinctSize(asked);
    assert |Elements(asked) + {reporter}| == |asked| + 1;
    if chk.quorum.distinctProviders {
      MembersCoverage(asked, reporter);
      ProvidersCovered(candidates, reporter);
    }
  }

  /** An accepted check has, besides any eligible reporter, enough probers to ask. */
  lemma AcceptedCounts(chk: Check, peers: seq<Peer>, reporter: Peer)
    requires UniqueNames(peers) && Accepted(chk, peers) && reporter in EligibleSet(chk, peers)
    ensures var candidates := Candidates(chk, peers, reporter.name);
            && EligibleSet(chk, peers) == candidates + {reporter} && reporter !in candidates
            && 1 <= chk.quorum.agree <= chk.quorum.asked <= |candidates| + 1
  {
    hide NamedProviders, RoutesComplete;
    var candidates := Candidates(chk, peers, reporter.name);
    assert EligibleSet(chk, peers) == candidates + {reporter} && reporter !in candidates;
  }

  lemma MembersCoverage(asked: seq<Peer>, reporter: Peer)
    ensures RawProviders(Elements(asked) + {reporter}) == Coverage(Elements(asked), reporter.provider)
    ensures |RawProviders(Elements(asked) + {reporter})| >= 1
  {
    assert RawProviders(Elements(asked) + {reporter}) == Coverage(Elements(asked), reporter.provider);
    SubsetSize({reporter.provider}, RawProviders(Elements(asked) + {reporter}));
  }

  lemma ProvidersCovered(candidates: set<Peer>, reporter: Peer)
    ensures |NamedProviders(candidates + {reporter})| <= |Coverage(candidates, reporter.provider)|
  {
    SubsetSize(NamedProviders(candidates + {reporter}), Coverage(candidates, reporter.provider));
  }

  /** Without the convention on provider names the result above fails: "a" and "a " are accepted as two providers. */
  lemma UntrimmedProvidersBlockQuorum(results: seq<Result>, opts: Options)
    ensures var chk := Check("web", Public, QuorumRule(2, 2, true), "", "", []);
            var p, q := Peer("p", "a", map[]), Peer("q", "a ", map[]);
            && Accepted(chk, [p, q])
            && (AllSay(chk, {p, q}, results, opts, Down) ==> StatusOf(chk, Tally(chk, results, opts)) != Down)
  {
    var chk := Check("web", Public, QuorumRule(2, 2, true), "", "", []);
    var p, q := Peer("p", "a", map[]), Peer("q", "a ", map[]);
    TrimmedNames();
    SpellingBlocks(chk, p, q, results, opts);
  }

  lemma SpellingBlocks(chk: Check, p: Peer, q: Peer, results: seq<Result>, opts: Options)
    requires chk.quorum == QuorumRule(2, 2, true) && chk.proxyProfile == "" && chk.prober == "" && chk.probers == []
    requires p.name != q.name && p.provider != q.provider && ProviderKey(p.provider) == ProviderKey(q.provider)
    requires TrimSpace(p.provider) != "" && TrimSpace(q.provider) != ""
    ensures Accepted(chk, [p, q])
    ensures AllSay(chk, {p, q}, results, opts, Down) ==> StatusOf(chk, Tally(chk, results, opts)) != Down
  {
    hide ProviderKey, TrimSpace, IndependentCount, StatusOf, Tally, AllSay;
    assert EligibleSet(chk, [p, q]) == {p, q};
    assert p in {p, q} && q in {p, q};
    SubsetSize({p.provider, q.provider}, NamedProviders({p, q}));
    if AllSay(chk, {p, q}, results, opts, Down) {
      OneOrOther(chk, p, q);
      DownExactlyWhenRoutesSuffice(chk, {p, q}, results, opts);
    }
  }

  /**
   * Nor is the choice for a proxied check always the best one without it: here the reporter's provider under
   * another spelling is asked, which gives one independent vote where asking the other prober gives two.
   */
  lemma UntrimmedProvidersMislead()
    returns (chk: Check, peers: seq<Peer>, reporter: Peer, b: Peer, c: Peer, reported: Result)
    ensures UniqueNames(peers) && Accepted(chk, peers)
    ensures reporter in EligibleSet(chk, peers) && reported.prober == reporter.name
    ensures Chosen(chk, peers, reported, RouteResult(chk, reporter), [b])
    ensures c in Candidates(chk, peers, reporter.name)
    ensures IndependentCount(Routes(chk, {reporter, b}), true) < IndependentCount(Routes(chk, {reporter, c}), true)
    ensures !Optimal(chk, Candidates(chk, peers, reporter.name), reporter, {b})
  {
    chk := Check("web", Public, QuorumRule(2, 2, true), "corp", "", []);
    reporter := Peer("r", "a", map["corp" := "x"]);
    b := Peer("b", "a ", map["corp" := "y"]);
    c := Peer("c", "c", map["corp" := "z"]);
    peers := [reporter, b, c];
    reported := RouteResult(chk, reporter);
    TrimmedNames();
    assert TrimSpace("c") == "c";
    SpellingMisleads(chk, reporter, b, c);
    SpellingAccepted(chk, reporter, b, c);
    MisledIsNotOptimal(chk, peers, reporter, b, c);
  }

  lemma SpellingAccepted(chk: Check, reporter: Peer, b: Peer, c: Peer)
    requires chk == Check("web", Public, QuorumRule(2, 2, true), "corp", "", [])
    requires reporter.name != b.name && b.name != c.name && reporter.name != c.name
    requires forall p | p in {reporter, b, c} :: Exit(p, "corp") != ""
    requires IndependentCount(Routes(chk, {reporter, c}), true) >= 2
    requires TrimSpace(reporter.provider) != "" && TrimSpace(c.provider) != "" && reporter.provider != c.provider
    ensures Accepted(chk, [reporter, b, c])
  {
    hide TrimSpace, IndependentCount;
    ThreeEligible(chk, reporter, b, c);
    TwoNamed(reporter, b, c);
    CountMonotone(Routes(chk, {reporter, c}), Routes(chk, {reporter, b, c}), true);
  }

  /** One prober alone offers as many votes beside the reporter's as the two have together, if those are two. */
  lemma MisledIsNotOptimal(chk: Check, peers: seq<Peer>, reporter: Peer, b: Peer, c: Peer)
    requires reporter.name != c.name && chk.quorum.distinctProviders && c in Candidates(chk, peers, reporter.name)
    requires IndependentCount(Routes(chk, {reporter, b}), true) < 2
    requires 2 <= IndependentCount(Routes(chk, {reporter, c}), true)
    ensures !Optimal(chk, Candidates(chk, peers, reporter.name), reporter, {b})
  {
    hide IndependentCount;
    assert {c} + {reporter} == {reporter, c} && {b} + {reporter} == {reporter, b};
    var votes := CountIsMaximum(Routes(chk, {reporter, c}), true);
    TwoRoutesAtMost(chk, reporter, c, votes);
    assert Offers(chk, {c}, reporter, 2);
    if Offers(chk, {b}, reporter, 2) {
      var few :| Selection(few, Routes(chk, {b} + {reporter}), true) && |few| >= 2;
      SelectionSize(few, Routes(chk, {reporter, b}), true);
    }
  }

  lemma TwoRoutesAtMost(chk: Check, p: Peer, q: Peer, votes: set<Result>)
    requires votes <= Routes(chk, {p, q}) && |votes| >= 2
    ensures RouteResult(chk, p) in votes
  {
    var r, s := RouteResult(chk, p), RouteResult(chk, q);
    assert Routes(chk, {p, q}) == {r, s};
    if r !in votes {
      SubsetSize(votes, {s});
    }
  }

  lemma SpellingMisleads(chk: Check, reporter: Peer, b: Peer, c: Peer)
    requires chk.quorum == QuorumRule(2, 2, true) && chk.proxyProfile != "" && chk.probers == []
    requires reporter.name != b.name && b.name != c.name && reporter.name != c.name
    requires forall p | p in {reporter, b, c} :: Exit(p, chk.proxyProfile) != ""
    requires Exit(reporter, chk.proxyProfile) != Exit(b, chk.proxyProfile)
    requires Exit(b, chk.proxyProfile) != Exit(c, chk.proxyProfile)
    requires Exit(reporter, chk.proxyProfile) != Exit(c, chk.proxyProfile)
    requires ProviderKey(b.provider) == ProviderKey(reporter.provider) != ProviderKey(c.provider)
    requires b.provider != reporter.provider
    ensures var peers, seed := [reporter, b, c], RouteResult(chk, reporter);
            && UniqueNames(peers) && reporter in EligibleSet(chk, peers) && Chosen(chk, peers, seed, seed, [b])
            && c in Candidates(chk, peers, reporter.name)
    ensures IndependentCount(Routes(chk, {reporter, b}), true) < 2 <= IndependentCount(Routes(chk, {reporter, c}), true)
  {
    hide ProviderKey, IndependentCount, Routes, Leads, EligibleSet, Candidates, ValidCheck, RoutesComplete;
    ThreeEligible(chk, reporter, b, c);
    ReporterEligible(chk, reporter, b, c);
    OneOrOther(chk, reporter, b);
    TwoRoutes(chk, reporter, c);
    BothCompatible(chk, reporter, b, c);
    LeadOfTwo(chk, reporter, b, c);
    var order := [b, c];
    assert [b] == order[..1] && Elements(order) == {b, c} && |[b]| <= |order|;
    assert Leads(chk, {b, c}, RouteResult(chk, reporter), order, 2);
    assert Elements([b]) == {b};
  }

  lemma ReporterEligible(chk: Check, reporter: Peer, b: Peer, c: Peer)
    requires EligibleSet(chk, [reporter, b, c]) == {reporter, b, c}
    requires Candidates(chk, [reporter, b, c], reporter.name) == {b, c}
    ensures reporter in EligibleSet(chk, [reporter, b, c]) && c in Candidates(chk, [reporter, b, c], reporter.name)
  {
  }

  lemma BothCompatible(chk: Check, reporter: Peer, b: Peer, c: Peer)
    requires chk.proxyProfile != ""
    requires Exit(reporter, chk.proxyProfile) != Exit(b, chk.proxyProfile)
    requires Exit(reporter, chk.proxyProfile) != Exit(c, chk.proxyProfile)
    requires ProviderKey(reporter.provider) != ProviderKey(c.provider) && b.provider != reporter.provider
    ensures Compatible(chk, RouteResult(chk, reporter), b) && Compatible(chk, RouteResult(chk, reporter), c)
  {
    hide ProviderKey;
  }

  lemma OneOrOther(chk: Check, p: Peer, q: Peer)
    requires ProviderKey(p.provider) == ProviderKey(q.provider)
    ensures IndependentCount(Routes(chk, {p, q}), true) <= 1
  {
    var votes := CountIsMaximum(Routes(chk, {p, q}), true);
    forall v | v in votes ensures LeftKey(v, true) == ProviderKey(p.provider) {
    }
    OneKey(votes, ProviderKey(p.provider));
  }

  lemma LeadOfTwo(chk: Check, reporter: Peer, b: Peer, c: Peer)
    requires chk.proxyProfile != "" && chk.quorum.distinctProviders && b != c
    requires Compatible(chk, RouteResult(chk, reporter), b) && Compatible(chk, RouteResult(chk, reporter), c)
    requires ProviderKey(b.provider) != ProviderKey(c.provider)
    requires Exit(b, chk.proxyProfile) != "" && Exit(c, chk.proxyProfile) != ""
    requires Exit(b, chk.proxyProfile) != Exit(c, chk.proxyProfile)
    ensures Leads(chk, {b, c}, RouteResult(chk, reporter), [b, c], 2)
  {
    hide ProviderKey, IndependentCount, Compatible, Exit;
    var seed := RouteResult(chk, reporter);
    assert CompatibleRoutes(chk, {b, c}, seed) == Routes(chk, {b, c});
    assert [b, c][..2] == [b, c] && Elements([b, c]) == {b, c};
    TwoRoutes(chk, b, c);
    CompatibleSize(chk, {b, c}, seed);
    RightKeysSeparate(RouteResult(chk, b), RouteResult(chk, c));
  }

  lemma TrimmedNames()
    ensures TrimSpace("a") == TrimSpace("a ") == "a"
  {
    assert "a "[..1] == "a";
    assert TrimRight("a") == "a" && TrimRight("a ") == TrimRight("a ");
  }

  lemma OneKey(votes: set<Result>, key: string)
    requires Independent(votes, true) && forall v | v in votes :: LeftKey(v, true) == key
    ensures |votes| <= 1
  {
    if votes != {} {
      var v :| v in votes;
      assert votes == {v};
    }
  }

  ghost predicate DistinctNames(ps: set<Peer>) {
    forall p, q | p in ps && q in ps && p.name == q.name :: p == q
  }

  lemma SubSelection(chk: Check, fewer: set<Peer>, more: set<Peer>, results: set<Result>)
    requires fewer <= more && Selection(Routes(chk, more), results, chk.quorum.distinctProviders)
    ensures Selection(Routes(chk, fewer), results, chk.quorum.distinctProviders)
  {
    assert Routes(chk, fewer) <= Routes(chk, more);
  }

  lemma SelectionSize(votes: set<Result>, results: set<Result>, distinctProviders: bool)
    requires Selection(votes, results, distinctProviders)
    ensures |votes| <= IndependentCount(results, distinctProviders)
  {
    var largest := CountIsMaximum(results, distinctProviders);
  }

  lemma {:induction false} RoutesSize(chk: Check, ps: set<Peer>)
    ensures |Routes(chk, ps)| <= |ps|
  {
    if ps != {} {
      var p :| p in ps;
      RoutesSize(chk, ps - {p});
      assert Routes(chk, ps) <= Routes(chk, ps - {p}) + {RouteResult(chk, p)};
      SubsetSize(Routes(chk, ps), Routes(chk, ps - {p}) + {RouteResult(chk, p)});
    }
  }

  lemma LeadSize(chk: Check, lead: set<Peer>)
    requires DistinctNames(lead)
    ensures |Routes(chk, lead)| == |lead|
  {
    var routes := map p | p in lead :: RouteResult(chk, p);
    Pigeonhole(lead, routes, Routes(chk, lead));
    RoutesSize(chk, lead);
  }

  /**
   * For a proxied check acceptance is not enough: here the fleet holds two independent routes, but neither
   * of the two probers that may be asked is independent of the reporter, so no choice confirms its report.
   */
  lemma ProxyQuorumUnreachable() returns (chk: Check, reporter: Peer, b: Peer, c: Peer)
    ensures Accepted(chk, [reporter, b, c]) && reporter in EligibleSet(chk, [reporter, b, c])
    ensures forall asked: seq<Peer>, results, opts |
              && Asks(chk, Candidates(chk, [reporter, b, c], reporter.name), asked)
              && AllSay(chk, Elements(asked) + {reporter}, results, opts, Down) ::
              StatusOf(chk, Tally(chk, results, opts)) != Down
  {
    chk := Check("web", Public, QuorumRule(2, 2, true), "corp", "", []);
    reporter := Peer("a", "one", map["corp" := "x"]);
    b := Peer("b", "one", map["corp" := "y"]);
    c := Peer("c", "two", map["corp" := "x"]);
    ThreeAccepted(chk, reporter, b, c);
    ThreeEligible(chk, reporter, b, c);
    forall asked: seq<Peer>, results, opts |
      && Asks(chk, Candidates(chk, [reporter, b, c], reporter.name), asked)
      && AllSay(chk, Elements(asked) + {reporter}, results, opts, Down)
      ensures StatusOf(chk, Tally(chk, results, opts)) != Down
    {
      OneAsked(asked, b, c);
      ConflictBlocksQuorum(chk, reporter, asked, results, opts);
    }
  }

  lemma OneAsked(asked: seq<Peer>, b: Peer, c: Peer)
    requires b != c && Elements(asked) <= {b, c} && |asked| == Max(0, Min(1, |{b, c}|))
    ensures asked == [b] || asked == [c]
  {
    assert |{b, c}| == 2;
    assert asked[0] in Elements(asked);
  }

  lemma ConflictBlocksQuorum(chk: Check, p: Peer, asked: seq<Peer>, results: seq<Result>, opts: Options)
    requires |asked| == 1 && SameProviderOrExit(chk, p, asked[0]) && p.name != asked[0].name
    requires Exit(p, chk.proxyProfile) != "" && Exit(asked[0], chk.proxyProfile) != ""
    requires chk.quorum.distinctProviders && chk.quorum.agree == 2
    requires AllSay(chk, Elements(asked) + {p}, results, opts, Down)
    ensures StatusOf(chk, Tally(chk, results, opts)) != Down
  {
    assert Elements(asked) + {p} == {p, asked[0]};
    TwoConflict(chk, p, asked[0]);
    DownExactlyWhenRoutesSuffice(chk, {p, asked[0]}, results, opts);
  }

  lemma TwoConflict(chk: Check, p: Peer, q: Peer)
    requires chk.quorum.distinctProviders
    requires SameProviderOrExit(chk, p, q)
    ensures IndependentCount(Routes(chk, {p, q}), true) <= 1
  {
    hide ProviderKey, IndependentCount;
    var votes := CountIsMaximum(Routes(chk, {p, q}), true);
    var r, s := RouteResult(chk, p), RouteResult(chk, q);
    assert Routes(chk, {p, q}) == {r, s};
    assert !(r in votes && s in votes && r != s);
    assert votes <= {r} || votes <= {s};
    SubsetSize(votes, if votes <= {r} then {r} else {s});
  }

  ghost predicate SameProviderOrExit(chk: Check, p: Peer, q: Peer) {
    p.provider == q.provider || (chk.proxyProfile != "" && Exit(p, chk.proxyProfile) == Exit(q, chk.proxyProfile))
  }

  lemma ThreeAccepted(chk: Check, a: Peer, b: Peer, c: Peer)
    requires chk == Check("web", Public, QuorumRule(2, 2, true), "corp", "", [])
    requires a == Peer("a", "one", map["corp" := "x"])
    requires b == Peer("b", "one", map["corp" := "y"])
    requires c == Peer("c", "two", map["corp" := "x"])
    ensures Accepted(chk, [a, b, c]) && a in EligibleSet(chk, [a, b, c])
  {
    hide TrimSpace, IndependentCount;
    TrimmedWords();
    ThreeEligible(chk, a, b, c);
    assert |NamedProviders({a, b, c})| >= 2 by {
      TwoNamed(a, b, c);
    }
    assert IndependentCount(Routes(chk, {a, b, c}), true) >= 2 by {
      TwoRoutes(chk, b, c);
      CountMonotone(Routes(chk, {b, c}), Routes(chk, {a, b, c}), true);
    }
  }

  lemma ThreeEligible(chk: Check, a: Peer, b: Peer, c: Peer)
    requires chk.probers == [] && a.name != b.name && b.name != c.name && a.name != c.name
    requires forall p | p in {a, b, c} :: Exit(p, chk.proxyProfile) != ""
    ensures EligibleSet(chk, [a, b, c]) == {a, b, c} && |{a, b, c}| == 3
    ensures RoutesComplete(chk, [a, b, c])
    ensures Candidates(chk, [a, b, c], a.name) == {b, c}
  {
  }

  lemma TwoNamed(a: Peer, b: Peer, c: Peer)
    requires TrimSpace(a.provider) != "" && TrimSpace(c.provider) != "" && a.provider != c.provider
    ensures |NamedProviders({a, b, c})| >= 2
  {
    assert a in {a, b, c} && c in {a, b, c};
    SubsetSize({a.provider, c.provider}, NamedProviders({a, b, c}));
  }

  lemma TwoRoutes(chk: Check, p: Peer, q: Peer)
    requires chk.proxyProfile != "" && ProviderKey(p.provider) != ProviderKey(q.provider)
    requires Exit(p, chk.proxyProfile) != "" && Exit(q, chk.proxyProfile) != ""
    requires Exit(p, chk.proxyProfile) != Exit(q, chk.proxyProfile)
    ensures IndependentCount(Routes(chk, {p, q}), true) >= 2
  {
    var r, s := RouteResult(chk, p), RouteResult(chk, q);
    RightKeysSeparate(r, s);
    assert Selection({r, s}, Routes(chk, {p, q}), true);
    SelectionSize({r, s}, Routes(chk, {p, q}), true);
  }

  lemma TrimmedWords()
    ensures TrimSpace("one") == "one" && TrimSpace("two") == "two"
  {
  }
}
