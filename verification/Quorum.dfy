// Turning probe results into a verdict (internal/quorum/quorum.go, Evaluate).

/** Verdicts, and what they mean in terms of the votes counted. */
module Verdicts {
  import opened Types
  import opened Independence

  /** `now == ZERO_TIME` or `maxAge <= 0` switch the staleness test off. */
  datatype Options = Options(now: Time, maxAge: int, isolated: set<string>)

  /** The name lists, which the source sorts and never repeats, are sets. */
  datatype Verdict = Verdict(
    check: string,
    status: Status,
    down: nat,
    up: nat,
    warning: nat,
    unknown: nat,
    independentUp: nat,
    independentDown: nat,
    counted: nat,
    discarded: nat,
    suppressed: nat,
    suppressedProbers: set<string>,
    providers: set<string>,
    dissent: set<string>)

  /** Does the result answer the question being asked? */
  predicate Usable(c: Check, r: Result, opts: Options) {
    && r.check == c.name
    && r.vantage == c.vantage
    && r.proxyProfile == c.proxyProfile
    && !(c.proxyProfile != "" && r.egress == "")
    && !(opts.maxAge > 0 && opts.now != ZERO_TIME && r.at < opts.now - opts.maxAge)
  }

  predicate Counts(c: Check, r: Result, opts: Options) {
    r.prober !in opts.isolated && Usable(c, r, opts)
  }

  /** A usable result is its prober's vote unless the prober already has one that is at least as new. */
  function TallyStep(c: Check, before: map<string, Result>, r: Result, opts: Options): map<string, Result> {
    if !Counts(c, r, opts) || (r.prober in before && r.at <= before[r.prober].at) then before
    else before[r.prober := r]
  }

  /** The vote of each prober: the newest of its usable results, and the first of those when several are newest. */
  function Tally(c: Check, results: seq<Result>, opts: Options): map<string, Result> {
    if results == [] then map[]
    else TallyStep(c, Tally(c, results[..|results| - 1], opts), results[|results| - 1], opts)
  }

  ghost function VotesWith(tally: map<string, Result>, statuses: set<Status>): set<Result> {
    set p | p in tally && tally[p].status in statuses :: tally[p]
  }

  ghost function Agreeing(c: Check, tally: map<string, Result>, statuses: set<Status>): nat {
    IndependentCount(VotesWith(tally, statuses), c.quorum.distinctProviders)
  }

  ghost predicate Satisfied(c: Check, tally: map<string, Result>, statuses: set<Status>) {
    Agreeing(c, tally, statuses) >= c.quorum.agree
  }

  /** The verdict on a tally. */
  ghost function StatusOf(c: Check, tally: map<string, Result>): Status {
    if Satisfied(c, tally, {Down}) then Down
    else if VotesWith(tally, {Up, Down, Warning}) == {} || VotesWith(tally, {Down}) != {} then Unknown
    else if Satisfied(c, tally, {Warning}) then Warning
    else Up
  }

  /** `v` says what the votes in `tally` say. */
  ghost predicate Concludes(c: Check, tally: map<string, Result>, v: Verdict) {
    && v.check == c.name
    && v.status == StatusOf(c, tally)
    && v.down == |VotesWith(tally, {Down})|
    && v.up == |VotesWith(tally, {Up})|
    && v.warning == |VotesWith(tally, {Warning})|
    && v.unknown == |VotesWith(tally, {Unknown})|
    && v.counted == v.down + v.up + v.warning
    && v.independentDown == Agreeing(c, tally, {Down})
    && v.independentUp == Agreeing(c, tally, {Up, Warning})
    && v.providers == Providers(match v.status
                                case Down => VotesWith(tally, {Down})
                                case Warning => VotesWith(tally, {Warning})
                                case Up => VotesWith(tally, {Up, Warning})
                                case Unknown => {})
    && v.dissent == Names(match v.status
                          case Down => VotesWith(tally, {Up, Warning})
                          case Warning => VotesWith(tally, {Up})
                          case Up => VotesWith(tally, {Warning})
                          case Unknown => VotesWith(tally, {Down}))
  }

  ghost function Providers(votes: set<Result>): set<string> {
    set r | r in votes :: ProviderKey(r.provider)
  }

  ghost function Names(votes: set<Result>): set<string> {
    set r | r in votes :: r.prober
  }

  ghost function SuppressedNames(results: seq<Result>, opts: Options): set<string> {
    set r | r in results && r.prober in opts.isolated :: r.prober
  }

  ghost function SuppressedCount(results: seq<Result>, opts: Options): nat {
    if results == [] then 0
    else SuppressedCount(results[..|results| - 1], opts)
         + if results[|results| - 1].prober in opts.isolated then 1 else 0
  }

  /** The whole verdict on a list of results. */
  ghost predicate VerdictOn(c: Check, results: seq<Result>, opts: Options, v: Verdict) {
    && Concludes(c, Tally(c, results, opts), v)
    && v.suppressedProbers == SuppressedNames(results, opts)
    && v.suppressed == SuppressedCount(results, opts)
    && v.suppressed + v.discarded + v.counted + v.unknown == |results|
  }
}

/** What the verdict depends on, and in which direction. */
module VerdictProperties {
  import opened Types
  import opened Independence
  import opened Verdicts

  /** `tally` holds, for each prober that sent a usable result, the newest one. */
  ghost predicate Newest(c: Check, results: seq<Result>, opts: Options, tally: map<string, Result>) {
    && (forall p | p in tally :: tally[p] in results && Counts(c, tally[p], opts) && tally[p].prober == p)
    && (forall r | r in results && Counts(c, r, opts) :: r.prober in tally && r.at <= tally[r.prober].at)
  }

  lemma NewestStep(c: Check, front: seq<Result>, opts: Options, tally: map<string, Result>, r: Result)
    requires Newest(c, front, opts, tally)
    ensures Newest(c, front + [r], opts, TallyStep(c, tally, r, opts))
  {
  }

  lemma {:induction false} TallyIsNewest(c: Check, results: seq<Result>, opts: Options)
    ensures Newest(c, results, opts, Tally(c, results, opts))
  {
    if results != [] {
      var front, last := results[..|results| - 1], results[|results| - 1];
      assert results == front + [last];
      TallyIsNewest(c, front, opts);
      NewestStep(c, front, opts, Tally(c, front, opts), last);
    }
  }

  /** No prober sent two different usable results of the same time. */
  ghost predicate DistinctTimes(c: Check, results: seq<Result>, opts: Options) {
    forall a, b | a in results && b in results && Counts(c, a, opts) && Counts(c, b, opts) ::
      a.prober == b.prober && a.at == b.at ==> a == b
  }

  /**
   * Neither the order of the results nor any isolated, stale, wrong-check, wrong-vantage or wrong-route
   * result affects the votes.
   */
  lemma TallyInsensitive(c: Check, xs: seq<Result>, ys: seq<Result>, opts: Options)
    requires forall r | Counts(c, r, opts) :: r in xs <==> r in ys
    requires DistinctTimes(c, xs, opts)
    ensures Tally(c, xs, opts) == Tally(c, ys, opts)
  {
    TallyIsNewest(c, xs, opts);
    TallyIsNewest(c, ys, opts);
    NewestUnique(c, xs, ys, opts, Tally(c, xs, opts), Tally(c, ys, opts));
  }

  lemma NewestUnique(c: Check, xs: seq<Result>, ys: seq<Result>, opts: Options,
                     a: map<string, Result>, b: map<string, Result>)
    requires forall r | Counts(c, r, opts) :: r in xs <==> r in ys
    requires DistinctTimes(c, xs, opts)
    requires Newest(c, xs, opts, a) && Newest(c, ys, opts, b)
    ensures a == b
  {
    forall p | p in a ensures p in b && a[p] == b[p] {
      assert a[p] in ys;
      assert b[p] in xs;
    }
    forall p | p in b ensures p in a {
      assert b[p] in xs;
    }
  }

  function Relevant(c: Check, results: seq<Result>, opts: Options): seq<Result> {
    if results == [] then []
    else
      var front := Relevant(c, results[..|results| - 1], opts);
      var r := results[|results| - 1];
      if Counts(c, r, opts) then front + [r] else front
  }

  /** Results that do not count can be removed whatever their times are. */
  lemma {:induction false} TallyIgnores(c: Check, results: seq<Result>, opts: Options)
    ensures Tally(c, Relevant(c, results, opts), opts) == Tally(c, results, opts)
  {
    if results != [] {
      var front, last := results[..|results| - 1], results[|results| - 1];
      TallyIgnores(c, front, opts);
      var kept := Relevant(c, results, opts);
      if Counts(c, last, opts) {
        assert kept[..|kept| - 1] == Relevant(c, front, opts);
      }
    }
  }

  /** Two verdicts on the same relevant evidence agree in everything but the count of what was thrown away. */
  lemma VerdictInsensitive(c: Check, xs: seq<Result>, ys: seq<Result>, opts: Options, v: Verdict, w: Verdict)
    requires forall r | Counts(c, r, opts) :: r in xs <==> r in ys
    requires DistinctTimes(c, xs, opts)
    requires VerdictOn(c, xs, opts, v) && VerdictOn(c, ys, opts, w)
    ensures w == v.(discarded := w.discarded, suppressed := w.suppressed, suppressedProbers := w.suppressedProbers)
  {
    TallyInsensitive(c, xs, ys, opts);
  }

  /** A result of a prober that has not been counted yet adds exactly its own vote. */
  lemma TallyNewProber(c: Check, results: seq<Result>, opts: Options, r: Result)
    requires Counts(c, r, opts)
    requires forall x | x in results && Counts(c, x, opts) :: x.prober != r.prober
    ensures r.prober !in Tally(c, results, opts)
    ensures Tally(c, results + [r], opts) == Tally(c, results, opts)[r.prober := r]
    ensures forall s ::
              VotesWith(Tally(c, results + [r], opts), s)
              == VotesWith(Tally(c, results, opts), s) + if r.status in s then {r} else {}
  {
    TallyIsNewest(c, results, opts);
    assert (results + [r])[..|results|] == results;
    var was, now := Tally(c, results, opts), Tally(c, results + [r], opts);
    forall s
      ensures VotesWith(now, s) == VotesWith(was, s) + if r.status in s then {r} else {}
    {
      VotesStep(was, r, s);
    }
  }

  lemma VotesStep(tally: map<string, Result>, r: Result, statuses: set<Status>)
    requires r.prober !in tally
    ensures VotesWith(tally[r.prober := r], statuses)
            == VotesWith(tally, statuses) + if r.status in statuses then {r} else {}
    ensures (forall p | p in tally :: tally[p].prober == p) ==> r !in VotesWith(tally, statuses)
  {
    var more := tally[r.prober := r];
    forall v | v in VotesWith(tally, statuses) ensures v in VotesWith(more, statuses) {
      var p :| p in tally && tally[p] == v;
      assert more[p] == v;
    }
    if r.status in statuses {
      assert more[r.prober] == r;
    }
  }

  /**
   * One more prober: a Down verdict stands whatever it says, a Down vote never produces Up, and each
   * independent count moves by at most one.
   */
  lemma NewProberEffect(c: Check, results: seq<Result>, opts: Options, r: Result, v: Verdict, w: Verdict)
    requires Counts(c, r, opts)
    requires forall x | x in results && Counts(c, x, opts) :: x.prober != r.prober
    requires VerdictOn(c, results, opts, v) && VerdictOn(c, results + [r], opts, w)
    ensures v.status == Down ==> w.status == Down
    ensures r.status == Down ==> w.status != Up
    ensures v.independentDown <= w.independentDown <= v.independentDown + 1
    ensures v.independentUp <= w.independentUp <= v.independentUp + 1
  {
    TallyNewProber(c, results, opts, r);
    VoteEffect(c, Tally(c, results, opts), r, v, w);
  }

  lemma VoteEffect(c: Check, tally: map<string, Result>, r: Result, v: Verdict, w: Verdict)
    requires r.prober !in tally
    requires Concludes(c, tally, v) && Concludes(c, tally[r.prober := r], w)
    ensures v.status == Down ==> w.status == Down
    ensures r.status == Down ==> w.status != Up
    ensures v.independentDown <= w.independentDown <= v.independentDown + 1
    ensures v.independentUp <= w.independentUp <= v.independentUp + 1
  {
    hide Agreeing, Providers, Names;
    CountGrowth(c, tally, {Down}, r);
    CountGrowth(c, tally, {Up, Warning}, r);
    VotesStep(tally, r, {Down});
    assert r.status == Down ==> r in VotesWith(tally[r.prober := r], {Down});
  }

  lemma CountGrowth(c: Check, tally: map<string, Result>, statuses: set<Status>, r: Result)
    requires r.prober !in tally
    ensures var more := Agreeing(c, tally[r.prober := r], statuses);
            Agreeing(c, tally, statuses) <= more <= Agreeing(c, tally, statuses) + 1
  {
    VotesStep(tally, r, statuses);
    CountMonotone(VotesWith(tally, statuses), VotesWith(tally[r.prober := r], statuses), c.quorum.distinctProviders);
    if r.status in statuses {
      Independence.CountStep(VotesWith(tally, statuses), r, c.quorum.distinctProviders);
    }
  }

  /**
   * `votes` are enough evidence for a claim: as many as the quorum asks for, all usable and from probers
   * that are not isolated, with pairwise different probers and exits and, when required, providers.
   */
  ghost predicate Evidence(c: Check, results: seq<Result>, opts: Options, statuses: set<Status>, votes: set<Result>) {
    && |votes| >= c.quorum.agree
    && (forall r | r in votes :: r in results && Counts(c, r, opts) && r.status in statuses)
    && (forall a, b | a in votes && b in votes && a != b ::
          && a.prober != b.prober
          && RightKey(a) != RightKey(b)
          && (c.quorum.distinctProviders ==> ProviderKey(a.provider) != ProviderKey(b.provider)))
  }

  ghost predicate Backed(c: Check, results: seq<Result>, opts: Options, statuses: set<Status>) {
    exists votes :: Evidence(c, results, opts, statuses, votes)
  }

  lemma SatisfiedIsBacked(c: Check, results: seq<Result>, opts: Options, statuses: set<Status>)
    requires Satisfied(c, Tally(c, results, opts), statuses)
    ensures Backed(c, results, opts, statuses)
  {
    hide Tally, Counts, IndependentCount, ProviderKey, RightKey;
    TallyIsNewest(c, results, opts);
    var tally := Tally(c, results, opts);
    var votes := CountIsMaximum(VotesWith(tally, statuses), c.quorum.distinctProviders);
    forall r | r in votes ensures r.prober in tally && tally[r.prober] == r && r.status in statuses {
      var p :| p in tally && tally[p] == r;
    }
    assert Evidence(c, results, opts, statuses, votes);
  }

  /** The quorum is met exactly when there is evidence for it among the votes themselves. */
  lemma BackedIsSatisfied(c: Check, results: seq<Result>, opts: Options, statuses: set<Status>, votes: set<Result>)
    requires Evidence(c, results, opts, statuses, votes)
    requires forall r | r in votes :: r.prober in Tally(c, results, opts) && Tally(c, results, opts)[r.prober] == r
    ensures Satisfied(c, Tally(c, results, opts), statuses)
  {
    var tally := Tally(c, results, opts);
    var best := CountIsMaximum(VotesWith(tally, statuses), c.quorum.distinctProviders);
    assert Selection(votes, VotesWith(tally, statuses), c.quorum.distinctProviders);
  }
}

/** The evaluation loop. */
module Quorum {
  import opened Types
  import opened Sorting
  import opened Independence
  import opened Matching
  import opened Verdicts
  import opened VerdictProperties

  /** One vote for each prober, and what was left out. */
  method Count(c: Check, results: seq<Result>, opts: Options)
    returns (byProber: map<string, Result>, discarded: nat, suppressed: nat, suppressedProbers: set<string>)
    ensures byProber == Tally(c, results, opts)
    ensures suppressed + discarded + |byProber| == |results|
    ensures suppressedProbers == SuppressedNames(results, opts)
    ensures suppressed == SuppressedCount(results, opts)
  {
    hide Tally, SuppressedNames, SuppressedCount, Usable;
    NothingCounted(c, opts);
    byProber, discarded, suppressed, suppressedProbers := map[], 0, 0, {};
    ghost var done := [];
    for i := 0 to |results|
      invariant done == results[..i]
      invariant byProber == Tally(c, done, opts)
      invariant suppressed + discarded + |byProber| == i
      invariant suppressedProbers == SuppressedNames(done, opts)
      invariant suppressed == SuppressedCount(done, opts)
    {
      var r := results[i];
      CountStep(c, done, r, opts);
      done := done + [r];
      if r.prober in opts.isolated {
        suppressed := suppressed + 1;
        suppressedProbers := suppressedProbers + {r.prober};
      } else if !Usable(c, r, opts) {
        discarded := discarded + 1;
      } else if r.prober in byProber {
        discarded := discarded + 1;
        if r.at > byProber[r.prober].at {
          byProber := byProber[r.prober := r];
        }
      } else {
        byProber := byProber[r.prober := r];
      }
    }
    assert results[..|results|] == results;
  }

  lemma NothingCounted(c: Check, opts: Options)
    ensures Tally(c, [], opts) == map[] && SuppressedNames([], opts) == {} && SuppressedCount([], opts) == 0
  {
  }

  lemma CountStep(c: Check, front: seq<Result>, r: Result, opts: Options)
    ensures SuppressedNames(front + [r], opts)
            == SuppressedNames(front, opts) + if r.prober in opts.isolated then {r.prober} else {}
    ensures SuppressedCount(front + [r], opts)
            == SuppressedCount(front, opts) + if r.prober in opts.isolated then 1 else 0
    ensures Tally(c, front + [r], opts) == TallyStep(c, Tally(c, front, opts), r, opts)
  {
    assert (front + [r])[..|front|] == front;
  }

  /** `votes` lists the votes of `tally` that say `status`, each once. */
  ghost predicate Lists(votes: seq<Result>, tally: map<string, Result>, status: Status) {
    Elements(votes) == VotesWith(tally, {status}) && |votes| == |VotesWith(tally, {status})|
  }

  lemma ListsStep(votes: seq<Result>, tally: map<string, Result>, status: Status, r: Result)
    requires Lists(votes, tally, status)
    requires r.prober !in tally && forall p | p in tally :: tally[p].prober == p
    ensures Lists(if r.status == status then votes + [r] else votes, tally[r.prober := r], status)
    ensures |VotesWith(tally[r.prober := r], {status})|
            == |VotesWith(tally, {status})| + if r.status == status then 1 else 0
  {
    VotesStep(tally, r, {status});
    ElementsAppend(votes, r);
  }

  lemma ListsNothing()
    ensures SplitOf(map[], [], [], [], 0)
  {
    assert forall status :: VotesWith(map[], {status}) == {};
  }

  /** The votes by what they say, in no particular order. */
  method Split(byProber: map<string, Result>)
    returns (down: seq<Result>, up: seq<Result>, warning: seq<Result>, unknown: nat)
    requires forall p | p in byProber :: byProber[p].prober == p
    ensures Lists(down, byProber, Down) && Lists(up, byProber, Up) && Lists(warning, byProber, Warning)
    ensures unknown == |VotesWith(byProber, {Unknown})|
    ensures |down| + |up| + |warning| + unknown == |byProber|
  {
    down, up, warning, unknown := [], [], [], 0;
    var done: map<string, Result> := map[];
    ListsNothing();
    hide SplitOf, Lists, VotesWith, PartOf;
    var rest := byProber.Keys;
    PartNothing(byProber);
    while rest != {}
      invariant PartOf(byProber, done, rest)
      invariant SplitOf(done, down, up, warning, unknown)
    {
      var p: string :| p in rest;
      var r := byProber[p];
      PartStep(byProber, done, rest, p);
      SplitStep(done, down, up, warning, unknown, r);
      match r.status {
        case Down => down := down + [r];
        case Up => up := up + [r];
        case Warning => warning := warning + [r];
        case Unknown => unknown := unknown + 1;
      }
      done := done[p := r];
      rest := rest - {p};
    }
    PartAll(byProber, done);
    SplitIs(done, down, up, warning, unknown);
  }

  /** `done` is `all` but for the keys in `rest`. */
  ghost predicate PartOf(all: map<string, Result>, done: map<string, Result>, rest: set<string>) {
    rest <= all.Keys && done == all - rest
  }

  lemma PartNothing(all: map<string, Result>)
    ensures PartOf(all, map[], all.Keys)
  {
  }

  lemma PartStep(all: map<string, Result>, done: map<string, Result>, rest: set<string>, p: string)
    requires PartOf(all, done, rest) && p in rest
    ensures PartOf(all, done[p := all[p]], rest - {p}) && p in all && p !in done
    ensures forall q | q in done :: q in all && done[q] == all[q]
  {
  }

  lemma PartAll(all: map<string, Result>, done: map<string, Result>)
    requires PartOf(all, done, {})
    ensures done == all
  {
  }

  /** The votes of `tally` by what they say. */
  ghost predicate SplitOf(tally: map<string, Result>, down: seq<Result>, up: seq<Result>, warning: seq<Result>,
                          unknown: nat) {
    && Lists(down, tally, Down) && Lists(up, tally, Up) && Lists(warning, tally, Warning)
    && unknown == |VotesWith(tally, {Unknown})|
    && |down| + |up| + |warning| + unknown == |tally|
  }

  lemma SplitStep(tally: map<string, Result>, down: seq<Result>, up: seq<Result>, warning: seq<Result>, unknown: nat,
                  r: Result)
    requires SplitOf(tally, down, up, warning, unknown)
    requires r.prober !in tally && forall p | p in tally :: tally[p].prober == p
    ensures var more := tally[r.prober := r];
            match r.status
            case Down => SplitOf(more, down + [r], up, warning, unknown)
            case Up => SplitOf(more, down, up + [r], warning, unknown)
            case Warning => SplitOf(more, down, up, warning + [r], unknown)
            case Unknown => SplitOf(more, down, up, warning, unknown + 1)
  {
    hide Lists, VotesWith;
    ListsStep(down, tally, Down, r);
    ListsStep(up, tally, Up, r);
    ListsStep(warning, tally, Warning, r);
    UnknownStep(tally, r);
  }

  lemma SplitIs(tally: map<string, Result>, down: seq<Result>, up: seq<Result>, warning: seq<Result>, unknown: nat)
    requires SplitOf(tally, down, up, warning, unknown)
    ensures Lists(down, tally, Down) && Lists(up, tally, Up) && Lists(warning, tally, Warning)
    ensures unknown == |VotesWith(tally, {Unknown})| && |down| + |up| + |warning| + unknown == |tally|
  {
  }

  lemma UnknownStep(tally: map<string, Result>, r: Result)
    requires r.prober !in tally && forall p | p in tally :: tally[p].prober == p
    ensures |VotesWith(tally[r.prober := r], {Unknown})|
            == |VotesWith(tally, {Unknown})| + if r.status == Unknown then 1 else 0
  {
    VotesStep(tally, r, {Unknown});
  }

  method DistinctProviders(results: seq<Result>) returns (providers: set<string>)
    ensures providers == Providers(Elements(results))
  {
    providers := {};
    for i := 0 to |results|
      invariant providers == Providers(Elements(results[..i]))
    {
      PrefixStep(results, i);
      providers := providers + {ProviderKey(results[i].provider)};
    }
    assert results[..|results|] == results;
  }

  method ProberNames(results: seq<Result>) returns (probers: set<string>)
    ensures probers == Names(Elements(results))
  {
    probers := {};
    for i := 0 to |results|
      invariant probers == Names(Elements(results[..i]))
    {
      PrefixStep(results, i);
      probers := probers + {results[i].prober};
    }
    assert results[..|results|] == results;
  }

  /** Do the agreeing results meet the quorum rule? Also names the providers behind them. */
  method Satisfies(q: QuorumRule, agreeing: seq<Result>) returns (providers: set<string>, ok: bool)
    ensures providers == Providers(Elements(agreeing))
    ensures ok <==> IndependentCount(Elements(agreeing), q.distinctProviders) >= q.agree
  {
    providers := DistinctProviders(agreeing);
    var independent := CountIndependent(agreeing, q.distinctProviders);
    ok := independent >= q.agree;
  }

  method Evaluate(c: Check, results: seq<Result>, opts: Options) returns (v: Verdict)
    ensures VerdictOn(c, results, opts, v)
  {
    NoNames();
    hide Tally, Counts, IndependentCount, VotesWith, Providers, Names, SuppressedNames, SuppressedCount;
    var byProber, discarded, suppressed, suppressedProbers := Count(c, results, opts);
    TallyIsNewest(c, results, opts);
    var down, up, warning, unknown := Split(byProber);
    var answered := up + warning;
    SplitCovers(byProber, down, up, warning);
    v := Verdict(c.name, Unknown, |down|, |up|, |warning|, unknown, 0, 0, |down| + |up| + |warning|,
                 discarded, suppressed, suppressedProbers, {}, {});
    var independentDown := CountIndependent(down, c.quorum.distinctProviders);
    var independentUp := CountIndependent(answered, c.quorum.distinctProviders);
    v := v.(independentDown := independentDown, independentUp := independentUp);

    var providers, ok := Satisfies(c.quorum, down);
    if ok {
      var dissent := ProberNames(answered);
      v := v.(status := Down, providers := providers, dissent := dissent);
      return;
    }
    if v.counted == 0 {
      return;
    }
    if v.down > 0 {
      var dissent := ProberNames(down);
      v := v.(dissent := dissent);
      return;
    }
    providers, ok := Satisfies(c.quorum, warning);
    if ok {
      var dissent := ProberNames(up);
      v := v.(status := Warning, providers := providers, dissent := dissent);
      return;
    }
    providers, ok := Satisfies(c.quorum, answered);
    v := v.(status := Up, providers := providers);
    if v.warning > 0 {
      var dissent := ProberNames(warning);
      v := v.(dissent := dissent);
    }
  }

  lemma NoNames()
    ensures Providers({}) == {} && Names({}) == {}
  {
  }

  lemma SplitCovers(byProber: map<string, Result>, down: seq<Result>, up: seq<Result>, warning: seq<Result>)
    requires Lists(down, byProber, Down) && Lists(up, byProber, Up) && Lists(warning, byProber, Warning)
    ensures Elements(up + warning) == VotesWith(byProber, {Up, Warning})
    ensures |down| + |up| + |warning| == 0 <==> VotesWith(byProber, {Up, Down, Warning}) == {}
    ensures |down| == 0 <==> VotesWith(byProber, {Down}) == {}
    ensures |warning| == 0 <==> VotesWith(byProber, {Warning}) == {}
  {
    assert Elements(up + warning) == Elements(up) + Elements(warning);
    assert VotesWith(byProber, {Up, Warning}) == VotesWith(byProber, {Up}) + VotesWith(byProber, {Warning});
    assert VotesWith(byProber, {Up, Down, Warning})
        == VotesWith(byProber, {Up}) + VotesWith(byProber, {Warning}) + VotesWith(byProber, {Down});
  }
}
