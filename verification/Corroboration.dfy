// Who may be asked, who is asked, and which checks are accepted
// (internal/coordinator/coordinator.go, internal/coordinator/assign.go).

/** The registered probers and the routes they take for a check. */
module Fleet {
  import opened Types

  function Exit(p: Peer, profile: string): string {
    if profile in p.proxyProfiles then p.proxyProfiles[profile] else ""
  }

  /** The vote a prober would cast: who it is and how it reaches the target. */
  function RouteResult(chk: Check, p: Peer): Result {
    Result("", p.name, p.provider, Public, Unknown, ZERO_TIME, chk.proxyProfile, Exit(p, chk.proxyProfile))
  }

  /** Provider and exit come from registration; a result of another route says nothing about the target. */
  function NormalizeRoute(chk: Check, p: Peer, r: Result): Result {
    var expected := RouteResult(chk, p);
    var status :=
      if r.proxyProfile != expected.proxyProfile || r.egress != expected.egress
         || (chk.proxyProfile != "" && expected.egress == "") then Unknown
      else r.status;
    r.(status := status, provider := p.provider, proxyProfile := expected.proxyProfile, egress := expected.egress)
  }

  ghost predicate UniqueNames(peers: seq<Peer>) {
    forall p, q | p in peers && q in peers :: p.name == q.name ==> p == q
  }

  /** The lookup table of registered probers. */
  ghost predicate Registers(byName: map<string, Peer>, peers: seq<Peer>) {
    && (forall n | n in byName :: byName[n] in peers && byName[n].name == n)
    && (forall p | p in peers :: p.name in byName && byName[p.name] == p)
  }

  predicate Eligible(chk: Check, p: Peer) {
    && (chk.probers == [] || p.name in chk.probers)
    && (chk.proxyProfile == "" || Exit(p, chk.proxyProfile) != "")
  }

  /** By fields: named by the check, if it names any, and with an exit, if the check has a proxy profile. */
  lemma EligibleExactly(chk: Check, peers: seq<Peer>, p: Peer)
    ensures p in EligibleSet(chk, peers)
            <==> && p in peers
                 && (|chk.probers| > 0 ==> exists i :: 0 <= i < |chk.probers| && chk.probers[i] == p.name)
                 && (chk.proxyProfile != "" ==>
                       chk.proxyProfile in p.proxyProfiles && p.proxyProfiles[chk.proxyProfile] != "")
  {
  }

  ghost function EligibleSet(chk: Check, peers: seq<Peer>): set<Peer> {
    set p | p in peers && Eligible(chk, p)
  }

  ghost function Candidates(chk: Check, peers: seq<Peer>, reporter: string): set<Peer> {
    set p | p in peers && Eligible(chk, p) && p.name != reporter
  }

  ghost function Routes(chk: Check, ps: set<Peer>): set<Result> {
    set p | p in ps :: RouteResult(chk, p)
  }

  ghost function RawProviders(ps: set<Peer>): set<string> {
    set p | p in ps :: p.provider
  }
}

/** The checks that the coordinator accepts at start-up. */
module Acceptance {
  import opened Wrappers
  import opened Types
  import opened Sorting
  import opened Independence
  import opened Matching
  import opened Fleet

  /** What `Check.Validate` demands of the quorum rule and the prober pool. */
  ghost predicate ValidCheck(chk: Check) {
    && 1 <= chk.quorum.agree <= chk.quorum.asked
    && (forall n | n in chk.probers :: TrimSpace(n) != "")
    && (forall i, j | 0 <= i < j < |chk.probers| :: TrimSpace(chk.probers[i]) != TrimSpace(chk.probers[j]))
    && (chk.probers != [] && chk.prober != "" ==> exists n :: n in chk.probers && TrimSpace(n) == chk.prober)
  }

  /** The probers from which the eligible ones are taken, and which may not lack a route. */
  ghost predicate RoutesComplete(chk: Check, peers: seq<Peer>) {
    && (forall n | n in chk.probers :: exists p :: p in peers && p.name == n)
    && (chk.proxyProfile != "" ==>
          forall p | p in peers && (chk.probers == [] || p.name in chk.probers) && Exit(p, chk.proxyProfile) == "" ::
            chk.probers == [] && chk.prober != p.name)
  }

  /** The coordinator starts only if every check is accepted. */
  ghost predicate Accepted(chk: Check, peers: seq<Peer>) {
    && ValidCheck(chk)
    && RoutesComplete(chk, peers)
    && chk.quorum.asked <= |EligibleSet(chk, peers)|
    && (chk.proxyProfile != "" ==>
          IndependentCount(Routes(chk, EligibleSet(chk, peers)), chk.quorum.distinctProviders) >= chk.quorum.agree)
    && (chk.quorum.distinctProviders ==> |NamedProviders(EligibleSet(chk, peers))| >= chk.quorum.agree)
    && (chk.prober != "" ==> exists p :: p in peers && p.name == chk.prober)
  }

  /**
   * For an accepted check everybody it names is registered and eligible. So is the preferred prober, exactly unless
   * the check names others and this one only in another spelling.
   */
  lemma NamedAreEligible(chk: Check, peers: seq<Peer>)
    requires Accepted(chk, peers) && UniqueNames(peers)
    ensures forall n | n in chk.probers :: exists p :: p in EligibleSet(chk, peers) && p.name == n
    ensures chk.prober != "" ==>
              ((exists p :: p in EligibleSet(chk, peers) && p.name == chk.prober)
               <==> chk.probers == [] || chk.prober in chk.probers)
  {
    hide TrimSpace, IndependentCount, NamedProviders;
    forall n | n in chk.probers ensures exists p :: p in EligibleSet(chk, peers) && p.name == n {
      var p :| p in peers && p.name == n;
      assert p in EligibleSet(chk, peers);
    }
    if chk.prober != "" {
      var p :| p in peers && p.name == chk.prober;
      assert p in EligibleSet(chk, peers) <==> chk.probers == [] || chk.prober in chk.probers;
    }
  }

  ghost function NamedProviders(ps: set<Peer>): set<string> {
    set p | p in ps && TrimSpace(p.provider) != "" :: p.provider
  }

  method ValidateProbers(chk: Check) returns (ok: bool)
    ensures ok <==> ValidCheck(chk)
  {
    hide TrimSpace;
    var eligible: set<string> := {};
    for i := 0 to |chk.probers|
      invariant eligible == set n | n in chk.probers[..i] :: TrimSpace(n)
      invariant forall n | n in chk.probers[..i] :: TrimSpace(n) != ""
      invariant forall j, k | 0 <= j < k < i :: TrimSpace(chk.probers[j]) != TrimSpace(chk.probers[k])
    {
      var prober := TrimSpace(chk.probers[i]);
      assert chk.probers[..i + 1] == chk.probers[..i] + [chk.probers[i]];
      if prober == "" {
        return false;
      }
      if prober in eligible {
        var n :| n in chk.probers[..i] && TrimSpace(n) == prober;
        var j :| 0 <= j < i && chk.probers[j] == n;
        return false;
      }
      eligible := eligible + {prober};
    }
    assert chk.probers[..|chk.probers|] == chk.probers;
    if chk.probers != [] && chk.prober != "" && chk.prober !in eligible {
      return false;
    }
    assert eligible == {} <==> chk.probers == [] by {
      if chk.probers != [] {
        assert TrimSpace(chk.probers[0]) in eligible;
      }
    }
    return 1 <= chk.quorum.agree <= chk.quorum.asked;
  }

  /** The pool: everyone, or the named probers as far as they are all registered. */
  method Pool(chk: Check, peers: seq<Peer>, byName: map<string, Peer>) returns (r: Option<seq<Peer>>)
    requires UniqueNames(peers) && Registers(byName, peers) && Distinct(peers)
    requires ValidCheck(chk)
    ensures r.Some? <==> forall n | n in chk.probers :: exists p :: p in peers && p.name == n
    ensures r.Some? ==> Distinct(r.value)
    ensures r.Some? ==> forall p :: p in r.value <==> p in peers && (chk.probers == [] || p.name in chk.probers)
  {
    var candidates := peers;
    if chk.probers != [] {
      candidates := [];
      for i := 0 to |chk.probers|
        invariant |candidates| == i
        invariant forall k | 0 <= k < i :: candidates[k] in peers && candidates[k].name == chk.probers[k]
      {
        var name := chk.probers[i];
        if name !in byName {
          assert name in chk.probers;
          return None;
        }
        candidates := candidates + [byName[name]];
      }
    }
    PoolIs(chk, peers, candidates);
    return Some(candidates);
  }

  method ValidateEligibleProbers(chk: Check, peers: seq<Peer>, byName: map<string, Peer>)
    returns (r: Option<seq<Peer>>)
    requires UniqueNames(peers) && Registers(byName, peers) && Distinct(peers)
    requires ValidCheck(chk)
    ensures r.Some? <==> RoutesComplete(chk, peers)
    ensures r.Some? ==> Elements(r.value) == EligibleSet(chk, peers) && Distinct(r.value)
  {
    var pool := Pool(chk, peers, byName);
    if pool.None? {
      return None;
    }
    var candidates := pool.value;
    var eligible := [];
    for i := 0 to |candidates|
      invariant Elements(eligible) == set p | p in candidates[..i] && Eligible(chk, p)
      invariant Distinct(eligible)
      invariant chk.proxyProfile != "" ==> forall p | p in candidates[..i] && Exit(p, chk.proxyProfile) == "" ::
                    chk.probers == [] && chk.prober != p.name
    {
      var peer := candidates[i];
      PrefixStep(candidates, i);
      assert peer in candidates;
      if chk.proxyProfile != "" && Exit(peer, chk.proxyProfile) == "" {
        if chk.probers != [] || chk.prober == peer.name {
          return None;
        }
        continue;
      }
      ElementsAppend(eligible, peer);
      assert peer !in Elements(eligible);
      eligible := eligible + [peer];
    }
    assert candidates[..|candidates|] == candidates;
    return Some(eligible);
  }

  lemma PoolIs(chk: Check, peers: seq<Peer>, candidates: seq<Peer>)
    requires UniqueNames(peers) && Distinct(peers) && ValidCheck(chk)
    requires if chk.probers == [] then candidates == peers
             else |candidates| == |chk.probers| && forall k | 0 <= k < |candidates| ::
                      candidates[k] in peers && candidates[k].name == chk.probers[k]
    ensures Distinct(candidates)
    ensures forall n | n in chk.probers :: exists p :: p in peers && p.name == n
    ensures forall p :: p in candidates <==> p in peers && (chk.probers == [] || p.name in chk.probers)
  {
    if chk.probers != [] {
      forall n | n in chk.probers ensures exists p :: p in peers && p.name == n {
        var k :| 0 <= k < |chk.probers| && chk.probers[k] == n;
        assert candidates[k] in peers;
      }
      forall p | p in peers && p.name in chk.probers ensures p in candidates {
        var k :| 0 <= k < |chk.probers| && chk.probers[k] == p.name;
        assert candidates[k] == p;
      }
    }
  }

  method RouteResults(chk: Check, peers: seq<Peer>) returns (results: seq<Result>)
    ensures Elements(results) == Routes(chk, Elements(peers))
  {
    results := [];
    for i := 0 to |peers|
      invariant Elements(results) == Routes(chk, Elements(peers[..i]))
    {
      PrefixStep(peers, i);
      ElementsAppend(results, RouteResult(chk, peers[i]));
      results := results + [RouteResult(chk, peers[i])];
    }
    assert peers[..|peers|] == peers;
  }

  method ValidateRouteQuorum(chk: Check, peers: seq<Peer>) returns (ok: bool)
    ensures ok <==> (chk.proxyProfile != "" ==>
                       IndependentCount(Routes(chk, Elements(peers)), chk.quorum.distinctProviders) >= chk.quorum.agree)
  {
    if chk.proxyProfile == "" {
      return true;
    }
    var results := RouteResults(chk, peers);
    var independent := CountIndependent(results, chk.quorum.distinctProviders);
    return independent >= chk.quorum.agree;
  }

  method CountNamedProviders(eligible: seq<Peer>) returns (count: nat)
    ensures count == |NamedProviders(Elements(eligible))|
  {
    var providers: set<string> := {};
    for i := 0 to |eligible|
      invariant providers == NamedProviders(Elements(eligible[..i]))
    {
      PrefixStep(eligible, i);
      if TrimSpace(eligible[i].provider) != "" {
        providers := providers + {eligible[i].provider};
      }
    }
    assert eligible[..|eligible|] == eligible;
    return |providers|;
  }

  /** One round of the loop in `New` that validates the configured checks. */
  method Accept(chk: Check, peers: seq<Peer>, byName: map<string, Peer>) returns (ok: bool)
    requires UniqueNames(peers) && Registers(byName, peers) && Distinct(peers)
    ensures ok <==> Accepted(chk, peers)
  {
    ok := ValidateProbers(chk);
    if !ok {
      return;
    }
    var validated := ValidateEligibleProbers(chk, peers, byName);
    if validated.None? {
      return false;
    }
    var eligible := validated.value;
    DistinctSize(eligible);
    if chk.quorum.asked > |eligible| {
      return false;
    }
    ok := ValidateRouteQuorum(chk, eligible);
    if !ok {
      return;
    }
    if chk.quorum.distinctProviders {
      var providers := CountNamedProviders(eligible);
      if providers < chk.quorum.agree {
        return false;
      }
    }
    if chk.prober != "" && chk.prober !in byName {
      return false;
    }
    return true;
  }

  /** The whole loop: all checks are accepted and their names differ, or the coordinator does not start. */
  method AcceptAll(configured: seq<Check>, peers: seq<Peer>, byName: map<string, Peer>)
    returns (r: Option<map<string, Check>>)
    requires UniqueNames(peers) && Registers(byName, peers) && Distinct(peers)
    ensures r.Some? <==> (forall c | c in configured :: Accepted(c, peers))
                         && forall i, j | 0 <= i < j < |configured| :: configured[i].name != configured[j].name
    ensures r.Some? ==> forall n :: n in r.value <==> exists i :: 0 <= i < |configured| && configured[i].name == n
    ensures r.Some? ==> forall c | c in configured :: r.value[c.name] == c
  {
    hide Accepted, UniqueNames, Registers;
    var checks: map<string, Check> := map[];
    for k := 0 to |configured|
      invariant forall i | 0 <= i < k :: Accepted(configured[i], peers)
      invariant forall i, j | 0 <= i < j < k :: configured[i].name != configured[j].name
      invariant forall n :: n in checks <==> exists i :: 0 <= i < k && configured[i].name == n
      invariant forall i | 0 <= i < k :: configured[i].name in checks && checks[configured[i].name] == configured[i]
    {
      var c := configured[k];
      if c.name in checks {
        return None;
      }
      var ok := Accept(c, peers, byName);
      if !ok {
        assert c in configured;
        return None;
      }
      checks := checks[c.name := c];
    }
    return Some(checks);
  }
}

/** Who is asked to confirm a report. */
module Corroboration {
  import opened Types
  import opened Sorting
  import opened Independence
  import opened Matching
  import opened Fleet

  method EligiblePeers(chk: Check, peers: seq<Peer>) returns (out: seq<Peer>)
    requires Distinct(peers)
    ensures Elements(out) == EligibleSet(chk, peers) && Distinct(out)
  {
    if chk.probers == [] && chk.proxyProfile == "" {
      return peers;
    }
    out := [];
    for i := 0 to |peers|
      invariant Elements(out) == EligibleSet(chk, peers[..i]) && Distinct(out)
    {
      PrefixStep(peers, i);
      ElementsAppend(out, peers[i]);
      if Eligible(chk, peers[i]) {
        out := out + [peers[i]];
      }
    }
    assert peers[..|peers|] == peers;
  }

  method OtherPeers(eligible: seq<Peer>, reporter: string) returns (out: seq<Peer>)
    requires Distinct(eligible)
    ensures Distinct(out) && Elements(out) == set p | p in eligible && p.name != reporter
  {
    out := [];
    for i := 0 to |eligible|
      invariant Distinct(out) && Elements(out) == set p | p in eligible[..i] && p.name != reporter
    {
      PrefixStep(eligible, i);
      ElementsAppend(out, eligible[i]);
      if eligible[i].name != reporter {
        out := out + [eligible[i]];
      }
    }
    assert eligible[..|eligible|] == eligible;
  }

  function Min(a: int, b: int): int {
    if a < b then a else b
  }

  function Max(a: int, b: int): int {
    if a < b then b else a
  }

  /** As many as the quorum rule leaves to ask, as far as there are candidates. */
  ghost predicate Asks(chk: Check, candidates: set<Peer>, asked: seq<Peer>) {
    && Distinct(asked) && Elements(asked) <= candidates
    && |asked| == Max(0, Min(chk.quorum.asked - 1, |candidates|))
  }

  ghost function Coverage(ps: set<Peer>, provider: string): set<string> {
    RawProviders(ps) + {provider}
  }

  /** The asked probers represent as many providers as their number, and the fleet, allow. */
  ghost predicate Diverse(candidates: set<Peer>, asked: seq<Peer>, provider: string) {
    |Coverage(Elements(asked), provider)| >= Min(|asked| + 1, |Coverage(candidates, provider)|)
  }

  /** First the candidates whose providers are not yet represented, each with a provider of its own, then the rest. */
  method PreferNovel(candidates: seq<Peer>, provider: string) returns (novel: seq<Peer>, rest: seq<Peer>)
    requires Distinct(candidates)
    ensures Distinct(novel + rest) && Elements(novel + rest) == Elements(candidates)
    ensures |novel + rest| == |candidates|
    ensures provider !in RawProviders(Elements(novel))
    ensures OwnProviders(novel)
    ensures Coverage(Elements(novel), provider) == Coverage(Elements(candidates), provider)
  {
    var seen := {provider};
    novel, rest := [], [];
    NothingNovel(provider);
    assert candidates[..0] == [];
    hide Preferred;
    for i := 0 to |candidates|
      invariant Preferred(candidates[..i], novel, rest, seen, provider)
    {
      var p := candidates[i];
      assert candidates[..i + 1] == candidates[..i] + [p];
      PreferStep(candidates[..i], novel, rest, seen, provider, p);
      if p.provider in seen {
        rest := rest + [p];
      } else {
        seen := seen + {p.provider};
        novel := novel + [p];
      }
    }
    assert candidates[..|candidates|] == candidates;
    AllPreferred(candidates, novel, rest, seen, provider);
  }

  /** How far the loop has sorted the candidates into novel providers and the rest. */
  ghost predicate Preferred(done: seq<Peer>, novel: seq<Peer>, rest: seq<Peer>, seen: set<string>, provider: string) {
    && Elements(novel) + Elements(rest) == Elements(done) && |novel| + |rest| == |done|
    && seen == Coverage(Elements(novel), provider) == Coverage(Elements(done), provider)
    && provider !in RawProviders(Elements(novel)) && OwnProviders(novel)
  }

  lemma PreferStep(done: seq<Peer>, novel: seq<Peer>, rest: seq<Peer>, seen: set<string>, provider: string, p: Peer)
    requires Preferred(done, novel, rest, seen, provider)
    ensures if p.provider in seen then Preferred(done + [p], novel, rest + [p], seen, provider)
            else Preferred(done + [p], novel + [p], rest, seen + {p.provider}, provider)
  {
    hide RawProviders, Coverage, Elements, OwnProviders;
    ElementsAppend(done, p);
    ElementsAppend(novel, p);
    ElementsAppend(rest, p);
    CoverageStep(Elements(novel), p, provider);
    CoverageStep(Elements(done), p, provider);
    if p.provider !in seen {
      NovelStep(novel, p, provider);
    }
  }

  lemma AllPreferred(candidates: seq<Peer>, novel: seq<Peer>, rest: seq<Peer>, seen: set<string>, provider: string)
    requires Distinct(candidates) && Preferred(candidates, novel, rest, seen, provider)
    ensures Distinct(novel + rest) && Elements(novel + rest) == Elements(candidates)
  {
    hide RawProviders, Coverage, Elements, OwnProviders;
    ElementsConcat(novel, rest);
    DistinctSize(candidates);
    DistinctSize(novel + rest);
  }

  /** No two of them share a provider. */
  ghost predicate OwnProviders(ps: seq<Peer>) {
    forall i, j | 0 <= i < j < |ps| :: ps[i].provider != ps[j].provider
  }

  lemma CoverageStep(ps: set<Peer>, p: Peer, provider: string)
    ensures Coverage(ps + {p}, provider) == Coverage(ps, provider) + {p.provider}
  {
  }

  lemma NovelStep(novel: seq<Peer>, p: Peer, provider: string)
    requires p.provider !in Coverage(Elements(novel), provider) && provider !in RawProviders(Elements(novel))
    ensures provider !in RawProviders(Elements(novel + [p]))
    ensures OwnProviders(novel) ==> OwnProviders(novel + [p])
  {
    forall i | 0 <= i < |novel| ensures novel[i].provider != p.provider {
      assert novel[i] in Elements(novel);
    }
  }

  lemma NothingNovel(provider: string)
    ensures Preferred([], [], [], {provider}, provider)
  {
  }

  lemma NovelIsDiverse(candidates: set<Peer>, novel: seq<Peer>, rest: seq<Peer>, provider: string, want: nat)
    requires want <= |novel + rest|
    requires provider !in RawProviders(Elements(novel))
    requires OwnProviders(novel)
    requires Coverage(Elements(novel), provider) == Coverage(candidates, provider)
    ensures Diverse(candidates, (novel + rest)[..want], provider)
  {
    var asked := (novel + rest)[..want];
    if want <= |novel| {
      assert asked == novel[..want];
      assert provider !in RawProviders(Elements(asked));
      ProvidersSize(asked);
      assert |Coverage(Elements(asked), provider)| == want + 1;
    } else {
      assert novel <= asked;
      assert Elements(novel) <= Elements(asked);
      SubsetSize(Coverage(Elements(novel), provider), Coverage(Elements(asked), provider));
    }
  }

  lemma {:induction false} ProvidersSize(ps: seq<Peer>)
    requires OwnProviders(ps)
    ensures |RawProviders(Elements(ps))| == |ps|
  {
    if ps != [] {
      var front, last := ps[..|ps| - 1], ps[|ps| - 1];
      PrefixStep(ps, |ps| - 1);
      assert last.provider !in RawProviders(Elements(front));
      assert OwnProviders(front);
      hide OwnProviders;
      ProvidersSize(front);
      assert RawProviders(Elements(ps)) == RawProviders(Elements(front)) + {last.provider};
    }
  }

  /** No selection of the same size represents more providers together with the reporter. */
  lemma DiverseIsOptimal(candidates: set<Peer>, asked: seq<Peer>, provider: string, other: set<Peer>)
    requires Diverse(candidates, asked, provider)
    requires other <= candidates && |other| == |asked|
    ensures |Coverage(other, provider)| <= |Coverage(Elements(asked), provider)|
  {
    SubsetSize(Coverage(other, provider), Coverage(candidates, provider));
    ImageSize(other);
  }

  lemma {:induction false} ImageSize(ps: set<Peer>)
    ensures |RawProviders(ps)| <= |ps|
  {
    if ps != {} {
      var p :| p in ps;
      ImageSize(ps - {p});
      assert RawProviders(ps) <= RawProviders(ps - {p}) + {p.provider};
      SubsetSize(RawProviders(ps), RawProviders(ps - {p}) + {p.provider});
    }
  }

  /** Can this candidate's vote stand beside the reporter's? */
  predicate Compatible(chk: Check, seed: Result, p: Peer) {
    var r := RouteResult(chk, p);
    r.egress != seed.egress && !(chk.quorum.distinctProviders && r.provider == seed.provider)
  }

  ghost function CompatibleRoutes(chk: Check, candidates: set<Peer>, seed: Result): set<Result> {
    set p | p in candidates && Compatible(chk, seed, p) :: RouteResult(chk, p)
  }

  /** The first `k` of `order` are a largest independent choice among the compatible candidates. */
  ghost predicate Leads(chk: Check, candidates: set<Peer>, seed: Result, order: seq<Peer>, k: nat) {
    && k <= |order|
    && k == IndependentCount(CompatibleRoutes(chk, candidates, seed), chk.quorum.distinctProviders)
    && Selection(Routes(chk, Elements(order[..k])), CompatibleRoutes(chk, candidates, seed),
                 chk.quorum.distinctProviders)
  }

  method CompatibleOf(chk: Check, candidates: seq<Peer>, seed: Result) returns (routes: seq<Result>)
    ensures Elements(routes) == CompatibleRoutes(chk, Elements(candidates), seed)
  {
    routes := [];
    for i := 0 to |candidates|
      invariant Elements(routes) == CompatibleRoutes(chk, Elements(candidates[..i]), seed)
    {
      PrefixStep(candidates, i);
      ElementsAppend(routes, RouteResult(chk, candidates[i]));
      if Compatible(chk, seed, candidates[i]) {
        routes := routes + [RouteResult(chk, candidates[i])];
      }
    }
    assert candidates[..|candidates|] == candidates;
  }

  /** An independent choice of routes first, then everyone else. */
  method PreferIndependent(chk: Check, candidates: seq<Peer>, seed: Result, byName: map<string, Peer>)
    returns (out: seq<Peer>, ghost k: nat)
    requires Distinct(candidates)
    requires forall p | p in candidates :: p.name in byName && byName[p.name] == p
    ensures Distinct(out) && Elements(out) == Elements(candidates) && |out| == |candidates|
    ensures Leads(chk, Elements(candidates), seed, out, k)
  {
    var routes := CompatibleOf(chk, candidates, seed);
    var independent := IndependentResults(routes, chk.quorum.distinctProviders);
    k := |independent|;
    forall r | r in independent
      ensures r.prober in byName && byName[r.prober] in candidates && RouteResult(chk, byName[r.prober]) == r
    {
      assert r in Elements(independent);
    }
    DistinctSize(independent);
    var first, chosen := PeersOf(chk, independent, byName);
    assert Elements(first) <= Elements(candidates) by {
      forall p | p in first ensures p in candidates {
        var i :| 0 <= i < |first| && first[i] == p;
      }
    }
    out := AppendOthers(candidates, first, chosen);
    assert out[..k] == first;
  }

  /** The registered probers behind the chosen routes. */
  method PeersOf(chk: Check, routes: seq<Result>, byName: map<string, Peer>)
    returns (out: seq<Peer>, chosen: set<string>)
    requires forall r | r in routes :: r.prober in byName && RouteResult(chk, byName[r.prober]) == r
    requires Distinct(routes)
    ensures |out| == |routes| && forall i | 0 <= i < |routes| :: out[i] == byName[routes[i].prober]
    ensures Distinct(out)
    ensures Routes(chk, Elements(out)) == Elements(routes)
    ensures chosen == set p | p in out :: p.name
  {
    chosen, out := {}, [];
    NoRoutes(chk);
    assert Elements<Peer>([]) == {} && routes[..0] == [] && Elements<Result>([]) == {};
    assert forall j | 0 <= j < |routes| ::
        routes[j].prober in byName && RouteResult(chk, byName[routes[j].prober]) == routes[j];
    hide Elements, Routes, Distinct;
    for i := 0 to |routes|
      invariant |out| == i
      invariant forall j | 0 <= j < i :: out[j] == byName[routes[j].prober]
      invariant Routes(chk, Elements(out)) == Elements(routes[..i])
      invariant chosen == set p | p in out :: p.name
    {
      var p := byName[routes[i].prober];
      PrefixStep(routes, i);
      ElementsAppend(out, p);
      assert RouteResult(chk, p) == routes[i];
      RoutesStep(chk, Elements(out), p);
      chosen := chosen + {routes[i].prober};
      out := out + [p];
    }
    assert routes[..|routes|] == routes;
    DifferentSenders(chk, routes, out);
  }

  lemma NoRoutes(chk: Check)
    ensures Routes(chk, {}) == {}
  {
  }

  lemma RoutesStep(chk: Check, ps: set<Peer>, p: Peer)
    ensures Routes(chk, ps + {p}) == Routes(chk, ps) + {RouteResult(chk, p)}
  {
  }

  lemma DifferentSenders(chk: Check, routes: seq<Result>, senders: seq<Peer>)
    requires Distinct(routes) && |senders| == |routes|
    requires forall i | 0 <= i < |routes| :: RouteResult(chk, senders[i]) == routes[i]
    ensures Distinct(senders)
  {
    forall i, j | 0 <= i < j < |senders| ensures senders[i] != senders[j] {
      assert routes[i] == RouteResult(chk, senders[i]) && routes[j] == RouteResult(chk, senders[j]);
    }
  }

  lemma ChosenByName(candidates: seq<Peer>, first: seq<Peer>, p: Peer)
    requires p in candidates && Elements(first) <= Elements(candidates)
    requires forall p, q | p in candidates && q in candidates && p.name == q.name :: p == q
    ensures p.name in (set q | q in first :: q.name) <==> p in first
  {
    if q :| q in first && q.name == p.name {
      assert q in Elements(first);
    }
  }

  method AppendOthers(candidates: seq<Peer>, first: seq<Peer>, chosen: set<string>) returns (out: seq<Peer>)
    requires Distinct(candidates) && Distinct(first) && Elements(first) <= Elements(candidates)
    requires chosen == set p | p in first :: p.name
    requires forall p, q | p in candidates && q in candidates && p.name == q.name :: p == q
    ensures first <= out && Distinct(out) && Elements(out) == Elements(candidates) && |out| == |candidates|
  {
    out := first;
    hide Distinct;
    for i := 0 to |candidates|
      invariant first <= out && Distinct(out) && Elements(out) == Elements(first) + Elements(candidates[..i])
    {
      var p := candidates[i];
      PrefixStep(candidates, i);
      ElementsAppend(out, p);
      DistinctAppend(out, p);
      ChosenByName(candidates, first, p);
      if p.name !in chosen {
        out := out + [p];
      }
    }
    assert candidates[..|candidates|] == candidates;
    DistinctSize(out);
    DistinctSize(candidates);
  }

  /** The source compares provider names as they are written, but counts votes by their trimmed form. */
  ghost predicate PlainProviders(ps: set<Peer>) {
    forall p, q | p in ps && q in ps && ProviderKey(p.provider) == ProviderKey(q.provider) :: p.provider == q.provider
  }

  /** Who is asked: the properties that the selection guarantees. */
  ghost predicate Chosen(chk: Check, peers: seq<Peer>, reported: Result, seed: Result, asked: seq<Peer>) {
    var candidates := Candidates(chk, peers, reported.prober);
    && Asks(chk, candidates, asked)
    && (chk.proxyProfile == "" && chk.quorum.distinctProviders && chk.quorum.asked > 1 ==>
          Diverse(candidates, asked, reported.provider))
    && (chk.proxyProfile != "" && chk.quorum.asked > 1 ==>
          exists order, k :: |asked| <= |order| && asked == order[..|asked|] && Elements(order) == candidates
                             && Leads(chk, candidates, seed, order, k))
  }

  method Corroborators(chk: Check, peers: seq<Peer>, byName: map<string, Peer>, reported: Result)
    returns (asked: seq<Peer>)
    requires UniqueNames(peers) && Distinct(peers) && Registers(byName, peers) && reported.prober in byName
    ensures Chosen(chk, peers, reported, RouteResult(chk, byName[reported.prober]), asked)
  {
    hide Diverse, Leads, Coverage, RawProviders, Distinct;
    var eligible := EligiblePeers(chk, peers);
    var candidates := OtherPeers(eligible, reported.prober);
    assert Elements(candidates) == Candidates(chk, peers, reported.prober) by {
      assert forall p :: p in eligible <==> p in Elements(eligible);
    }
    hide Elements, Candidates;
    DistinctSize(candidates);
    var want := chk.quorum.asked - 1;
    if want < 1 {
      DistinctFront(candidates, 0);
      assert candidates[..0] == [];
      return [];
    }
    if want > |candidates| {
      want := |candidates|;
    }
    if chk.proxyProfile != "" {
      var seed := RouteResult(chk, byName[reported.prober]);
      CandidatesRegistered(chk, peers, byName, reported.prober, candidates);
      var order, k := PreferIndependent(chk, candidates, seed, byName);
      DistinctFront(order, want);
      return order[..want];
    }
    if !chk.quorum.distinctProviders {
      DistinctFront(candidates, want);
      return candidates[..want];
    }
    var novel, rest := PreferNovel(candidates, reported.provider);
    NovelIsDiverse(Elements(candidates), novel, rest, reported.provider, want);
    DistinctFront(novel + rest, want);
    return (novel + rest)[..want];
  }

  lemma CandidatesRegistered(chk: Check, peers: seq<Peer>, byName: map<string, Peer>, reporter: string,
                             candidates: seq<Peer>)
    requires Registers(byName, peers) && Elements(candidates) == Candidates(chk, peers, reporter)
    ensures forall p | p in candidates :: p.name in byName && byName[p.name] == p
  {
    assert forall p | p in candidates :: p in Elements(candidates);
  }
}
