// What a verdict means in terms of the results themselves (internal/quorum/quorum.go).

/** The status of a verdict, said about the results and without the functions that compute it. */
module VerdictLaws {
  import opened Types
  import opened Sorting
  import opened Independence
  import opened Verdicts
  import opened VerdictProperties

  /** What keeps a result from being counted: isolation, another question, another route, or age. */
  predicate Defective(c: Check, r: Result, opts: Options) {
    || r.prober in opts.isolated
    || r.check != c.name
    || r.vantage != c.vantage
    || r.proxyProfile != c.proxyProfile
    || (c.proxyProfile != "" && r.egress == "")
    || (opts.maxAge > 0 && opts.now != ZERO_TIME && r.at + opts.maxAge < opts.now)
  }

  lemma CountsUnlessDefective(c: Check, r: Result, opts: Options)
    ensures Counts(c, r, opts) <==> !Defective(c, r, opts)
  {
  }

  /** The newest result of its prober that has no defect, and the first of those when several are newest. */
  ghost predicate IsVote(c: Check, results: seq<Result>, opts: Options, i: int) {
    && 0 <= i < |results| && !Defective(c, results[i], opts)
    && forall j | 0 <= j < |results| && !Defective(c, results[j], opts) && results[j].prober == results[i].prober ::
         results[j].at < results[i].at || (results[j].at == results[i].at && i <= j)
  }

  /** Some prober's vote says one of these. */
  ghost predicate Says(c: Check, results: seq<Result>, opts: Options, statuses: set<Status>) {
    exists i :: IsVote(c, results, opts, i) && results[i].status in statuses
  }

  /** Two votes that cannot share a cause: other probers, other exits and, when required, other providers. */
  predicate Apart(c: Check, a: Result, b: Result) {
    && a.prober != b.prober
    && (c.proxyProfile != "" ==> a.egress != b.egress)
    && (c.quorum.distinctProviders ==> ProviderKey(a.provider) != ProviderKey(b.provider))
  }

  /** The result is its prober's vote. */
  ghost predicate IsVoteOf(c: Check, results: seq<Result>, opts: Options, r: Result) {
    exists i :: IsVote(c, results, opts, i) && results[i] == r
  }

  ghost predicate Agreement(c: Check, results: seq<Result>, opts: Options, statuses: set<Status>, votes: set<Result>) {
    && |votes| >= c.quorum.agree
    && (forall r | r in votes :: IsVoteOf(c, results, opts, r) && r.status in statuses)
    && (forall a, b | a in votes && b in votes && a != b :: Apart(c, a, b))
  }

  /** Enough independent votes say one of these. */
  ghost predicate Enough(c: Check, results: seq<Result>, opts: Options, statuses: set<Status>) {
    exists votes :: Agreement(c, results, opts, statuses, votes)
  }

  // ----- the tally holds the votes -----

  ghost predicate Votes(c: Check, results: seq<Result>, opts: Options, tally: map<string, Result>) {
    && (forall p | p in tally :: VoteOf(c, results, opts, p, tally[p]))
    && (forall i {:trigger IsVote(c, results, opts, i)} | IsVote(c, results, opts, i) ::
          results[i].prober in tally && tally[results[i].prober] == results[i])
  }

  ghost predicate VoteOf(c: Check, results: seq<Result>, opts: Options, p: string, r: Result) {
    exists i :: IsVote(c, results, opts, i) && results[i] == r && r.prober == p
  }

  lemma {:induction false} TallyVotes(c: Check, results: seq<Result>, opts: Options)
    ensures Votes(c, results, opts, Tally(c, results, opts))
  {
    if results != [] {
      var front, last := results[..|results| - 1], results[|results| - 1];
      assert results == front + [last];
      TallyVotes(c, front, opts);
      VotesStep(c, front, opts, Tally(c, front, opts), last);
    }
  }

  lemma VotesStep(c: Check, front: seq<Result>, opts: Options, tally: map<string, Result>, r: Result)
    requires Votes(c, front, opts, tally)
    ensures Votes(c, front + [r], opts, TallyStep(c, tally, r, opts))
  {
    hide Defective, Usable;
    CountsUnlessDefective(c, r, opts);
    var all, after := front + [r], TallyStep(c, tally, r, opts);
    VotesKeep(c, front, opts, r);
    if !Defective(c, r, opts) {
      NewestVote(c, front, opts, tally, r);
    }
    forall p | p in after ensures VoteOf(c, all, opts, p, after[p]) {
      if p != r.prober || after == tally {
        assert VoteOf(c, front, opts, p, tally[p]);
        var i :| IsVote(c, front, opts, i) && front[i] == tally[p] && tally[p].prober == p;
        assert IsVote(c, all, opts, i);
      } else {
        assert IsVote(c, all, opts, |front|);
      }
    }
    forall i | IsVote(c, all, opts, i) ensures all[i].prober in after && after[all[i].prober] == all[i] {
      if i < |front| {
        assert IsVote(c, front, opts, i);
      }
    }
  }

  /** One more result leaves every vote in place, unless it comes from the same prober and is newer. */
  lemma VotesKeep(c: Check, front: seq<Result>, opts: Options, r: Result)
    ensures forall i | 0 <= i < |front| ::
              IsVote(c, front + [r], opts, i)
              <==> IsVote(c, front, opts, i)
                   && (Defective(c, r, opts) || r.prober != front[i].prober || r.at <= front[i].at)
  {
    hide Defective;
    var all := front + [r];
    forall i | 0 <= i < |front|
      ensures IsVote(c, all, opts, i)
              <==> IsVote(c, front, opts, i)
                   && (Defective(c, r, opts) || r.prober != front[i].prober || r.at <= front[i].at)
    {
      assert all[i] == front[i] && all[|front|] == r;
      if IsVote(c, all, opts, i) {
        forall j | 0 <= j < |front| && !Defective(c, front[j], opts) && front[j].prober == front[i].prober
          ensures front[j].at < front[i].at || (front[j].at == front[i].at && i <= j)
        {
          assert all[j] == front[j];
        }
      }
    }
  }

  /** The last result is its prober's vote exactly if it has no defect and the vote so far is older. */
  lemma NewestVote(c: Check, front: seq<Result>, opts: Options, tally: map<string, Result>, r: Result)
    requires Votes(c, front, opts, tally) && !Defective(c, r, opts)
    ensures IsVote(c, front + [r], opts, |front|) <==> r.prober !in tally || r.at > tally[r.prober].at
  {
    hide Defective;
    var all := front + [r];
    if r.prober in tally {
      assert VoteOf(c, front, opts, r.prober, tally[r.prober]);
      var i :| IsVote(c, front, opts, i) && front[i] == tally[r.prober] && tally[r.prober].prober == r.prober;
      assert all[i] == front[i];
      forall j | 0 <= j < |front| && !Defective(c, all[j], opts) && all[j].prober == r.prober
        ensures all[j].at <= tally[r.prober].at
      {
        assert all[j] == front[j];
      }
    } else {
      forall j | 0 <= j < |front| && !Defective(c, front[j], opts) ensures front[j].prober != r.prober {
        EveryProberVotes(c, front, opts, j);
      }
    }
  }

  /** Whoever sent a result without defect has a vote. */
  lemma {:induction false} EveryProberVotes(c: Check, results: seq<Result>, opts: Options, j: int)
    requires 0 <= j < |results| && !Defective(c, results[j], opts)
    ensures exists i :: IsVote(c, results, opts, i) && results[i].prober == results[j].prober
  {
    hide Defective;
    var front, last := results[..|results| - 1], results[|results| - 1];
    assert results == front + [last];
    VotesKeep(c, front, opts, last);
    if exists i :: 0 <= i < |front| && !Defective(c, front[i], opts) && front[i].prober == results[j].prober {
      var i :| 0 <= i < |front| && !Defective(c, front[i], opts) && front[i].prober == results[j].prober;
      EveryProberVotes(c, front, opts, i);
      var k :| IsVote(c, front, opts, k) && front[k].prober == results[j].prober;
      if !IsVote(c, results, opts, k) {
        assert IsVote(c, results, opts, |front|) by {
          forall m | 0 <= m < |front| && !Defective(c, results[m], opts) && results[m].prober == last.prober
            ensures results[m].at < last.at
          {
            assert front[m] == results[m];
          }
        }
      }
    } else {
      assert j == |front|;
      forall m | 0 <= m < |front| && !Defective(c, results[m], opts) ensures results[m].prober != last.prober {
        assert front[m] == results[m];
      }
      assert IsVote(c, results, opts, |front|);
    }
  }

  // ----- votes and their independence -----

  lemma SaysExactly(c: Check, results: seq<Result>, opts: Options, statuses: set<Status>)
    ensures Says(c, results, opts, statuses) <==> VotesWith(Tally(c, results, opts), statuses) != {}
  {
    hide Defective, Tally;
    TallyVotes(c, results, opts);
    var tally := Tally(c, results, opts);
    if Says(c, results, opts, statuses) {
      var i :| IsVote(c, results, opts, i) && results[i].status in statuses;
      assert results[i] in VotesWith(tally, statuses);
    }
    if VotesWith(tally, statuses) != {} {
      var r :| r in VotesWith(tally, statuses);
      var p :| p in tally && tally[p].status in statuses && tally[p] == r;
      assert VoteOf(c, results, opts, p, r);
    }
  }

  lemma EnoughExactly(c: Check, results: seq<Result>, opts: Options, statuses: set<Status>)
    ensures Enough(c, results, opts, statuses) <==> Satisfied(c, Tally(c, results, opts), statuses)
  {
    hide Agreement, Tally, IndependentCount;
    TallyVotes(c, results, opts);
    var tally, d := Tally(c, results, opts), c.quorum.distinctProviders;
    var best := CountIsMaximum(VotesWith(tally, statuses), d);
    if Enough(c, results, opts, statuses) {
      var votes :| Agreement(c, results, opts, statuses, votes);
      AgreementCounts(c, results, opts, statuses, votes, tally);
    }
    if |best| >= c.quorum.agree {
      BestAgrees(c, results, opts, statuses, best, tally);
    }
  }

  lemma AgreementCounts(c: Check, results: seq<Result>, opts: Options, statuses: set<Status>, votes: set<Result>,
                        tally: map<string, Result>)
    requires Votes(c, results, opts, tally) && Agreement(c, results, opts, statuses, votes)
    ensures IndependentCount(VotesWith(tally, statuses), c.quorum.distinctProviders) >= c.quorum.agree
  {
    hide IndependentCount, IsVoteOf, Votes, LeftKey, RightKey, Apart, Routed, VotesWith;
    var d := c.quorum.distinctProviders;
    forall r | r in votes ensures r in VotesWith(tally, statuses) && Routed(r) {
      VoteCounts(c, results, opts, statuses, tally, r);
    }
    forall a, b | a in votes && b in votes && a != b
      ensures LeftKey(a, d) != LeftKey(b, d) && RightKey(a) != RightKey(b)
    {
      ApartExactly(c, results, opts, a, b);
    }
    var best := CountIsMaximum(VotesWith(tally, statuses), d);
  }

  lemma BestAgrees(c: Check, results: seq<Result>, opts: Options, statuses: set<Status>, best: set<Result>,
                   tally: map<string, Result>)
    requires Votes(c, results, opts, tally) && |best| >= c.quorum.agree
    requires Selection(best, VotesWith(tally, statuses), c.quorum.distinctProviders)
    ensures Agreement(c, results, opts, statuses, best)
  {
    hide IsVoteOf, LeftKey, RightKey, Apart, Routed;
    forall r | r in best ensures IsVoteOf(c, results, opts, r) && r.status in statuses {
      var p :| p in tally && tally[p].status in statuses && tally[p] == r;
      TalliedVote(c, results, opts, p, r);
    }
    forall a, b | a in best && b in best && a != b ensures Apart(c, a, b) {
      ApartExactly(c, results, opts, a, b);
    }
  }

  lemma TalliedVote(c: Check, results: seq<Result>, opts: Options, p: string, r: Result)
    requires VoteOf(c, results, opts, p, r)
    ensures IsVoteOf(c, results, opts, r)
  {
  }

  lemma VoteCounts(c: Check, results: seq<Result>, opts: Options, statuses: set<Status>, tally: map<string, Result>,
                   r: Result)
    requires Votes(c, results, opts, tally) && IsVoteOf(c, results, opts, r) && r.status in statuses
    ensures r in VotesWith(tally, statuses) && Routed(r)
  {
    var i :| IsVote(c, results, opts, i) && results[i] == r;
    assert tally[r.prober] == r;
  }

  /** Votes are apart exactly if they differ in both keys of the matching. */
  lemma ApartExactly(c: Check, results: seq<Result>, opts: Options, a: Result, b: Result)
    requires IsVoteOf(c, results, opts, a) && IsVoteOf(c, results, opts, b) && a != b
    ensures Apart(c, a, b)
            <==> LeftKey(a, c.quorum.distinctProviders) != LeftKey(b, c.quorum.distinctProviders)
                 && RightKey(a) != RightKey(b)
  {
    hide ProviderKey;
    var i :| IsVote(c, results, opts, i) && results[i] == a;
    var j :| IsVote(c, results, opts, j) && results[j] == b;
    TwoVotes(c, results, opts, i, j);
    RightKeysSeparate(a, b);
  }

  /** Different votes come from different probers. */
  lemma TwoVotes(c: Check, results: seq<Result>, opts: Options, i: int, j: int)
    requires IsVote(c, results, opts, i) && IsVote(c, results, opts, j) && i != j
    ensures results[i].prober != results[j].prober
    ensures results[i].proxyProfile == c.proxyProfile == results[j].proxyProfile
  {
  }

  // ----- the law -----

  /**
   * The status of a verdict, whatever it was computed from: Down if enough independent votes say so; otherwise
   * Unknown if anyone says Down or nobody formed an opinion; otherwise Warning if enough independent votes say
   * so, and Up if not.
   */
  lemma StatusExactly(c: Check, results: seq<Result>, opts: Options, v: Verdict)
    requires VerdictOn(c, results, opts, v)
    ensures v.status == Down <==> Enough(c, results, opts, {Down})
    ensures v.status == Warning
            <==> !Enough(c, results, opts, {Down}) && !Says(c, results, opts, {Down})
                 && Says(c, results, opts, {Up, Warning}) && Enough(c, results, opts, {Warning})
    ensures v.status == Up
            <==> !Enough(c, results, opts, {Down}) && !Says(c, results, opts, {Down})
                 && Says(c, results, opts, {Up, Warning}) && !Enough(c, results, opts, {Warning})
    ensures v.status == Unknown
            <==> !Enough(c, results, opts, {Down})
                 && (Says(c, results, opts, {Down}) || !Says(c, results, opts, {Up, Down, Warning}))
  {
    hide Tally, Satisfied, Says, Enough, Providers, Names, SuppressedNames, SuppressedCount;
    EnoughExactly(c, results, opts, {Down});
    EnoughExactly(c, results, opts, {Warning});
    SaysExactly(c, results, opts, {Down});
    SaysExactly(c, results, opts, {Up, Warning});
    SaysExactly(c, results, opts, {Up, Down, Warning});
    var tally := Tally(c, results, opts);
    assert VotesWith(tally, {Up, Down, Warning}) == VotesWith(tally, {Up, Warning}) + VotesWith(tally, {Down});
  }

  /** The votes that say one of these. */
  ghost function Voters(c: Check, results: seq<Result>, opts: Options, statuses: set<Status>): set<Result> {
    set r | r in results && r.status in statuses && IsVoteOf(c, results, opts, r)
  }

  lemma VotersExactly(c: Check, results: seq<Result>, opts: Options, statuses: set<Status>)
    ensures Voters(c, results, opts, statuses) == VotesWith(Tally(c, results, opts), statuses)
  {
    hide Tally, IsVoteOf, Votes;
    TallyVotes(c, results, opts);
    var tally := Tally(c, results, opts);
    forall r | r in Voters(c, results, opts, statuses) ensures r in VotesWith(tally, statuses) {
      VoteCounts(c, results, opts, statuses, tally, r);
    }
    forall r | r in VotesWith(tally, statuses) ensures r in Voters(c, results, opts, statuses) {
      TallyMember(c, results, opts, tally, r, statuses);
    }
  }

  lemma TallyMember(c: Check, results: seq<Result>, opts: Options, tally: map<string, Result>, r: Result,
                    statuses: set<Status>)
    requires Votes(c, results, opts, tally) && r in VotesWith(tally, statuses)
    ensures r in Voters(c, results, opts, statuses)
  {
    var p :| p in tally && tally[p].status in statuses && tally[p] == r;
    TalliedVote(c, results, opts, p, r);
    var i :| IsVote(c, results, opts, i) && results[i] == r;
  }

  /**
   * The rest of a verdict: how many voted for what, the providers of those who agree with it, and the names of
   * those who do not.
   */
  lemma CountedExactly(c: Check, results: seq<Result>, opts: Options, v: Verdict)
    requires VerdictOn(c, results, opts, v)
    ensures v.down == |Voters(c, results, opts, {Down})| && v.up == |Voters(c, results, opts, {Up})|
    ensures v.warning == |Voters(c, results, opts, {Warning})| && v.unknown == |Voters(c, results, opts, {Unknown})|
    ensures forall k :: k in v.providers
                        <==> exists r :: r in Voters(c, results, opts, Agreed(v.status)) && ProviderKey(r.provider) == k
    ensures forall n :: n in v.dissent
                        <==> exists r :: r in Voters(c, results, opts, Contradicting(v.status)) && r.prober == n
  {
    hide Tally, Agreeing, Voters, VotesWith, ProviderKey, SuppressedNames, SuppressedCount, StatusOf;
    VotersExactly(c, results, opts, {Down});
    VotersExactly(c, results, opts, {Up});
    VotersExactly(c, results, opts, {Warning});
    VotersExactly(c, results, opts, {Unknown});
    VotersExactly(c, results, opts, {Up, Warning});
    NoVoters(c, results, opts);
  }

  lemma NoVoters(c: Check, results: seq<Result>, opts: Options)
    ensures Voters(c, results, opts, {}) == {}
  {
  }

  /** What a vote for the verdict says. An undecided one has no votes for it. */
  function Agreed(status: Status): set<Status> {
    match status
    case Down => {Down}
    case Warning => {Warning}
    case Up => {Up, Warning}
    case Unknown => {}
  }

  /** What a vote against the verdict says: another opinion, or a failure if nothing is decided. */
  function Contradicting(status: Status): set<Status> {
    match status
    case Down => {Up, Warning}
    case Warning => {Up}
    case Up => {Warning}
    case Unknown => {Down}
  }

  /** Results of which none can be counted, or none says anything, decide nothing. */
  lemma NothingSaidIsUnknown(c: Check, results: seq<Result>, opts: Options, v: Verdict)
    requires VerdictOn(c, results, opts, v) && c.quorum.agree >= 1
    requires forall r | r in results :: Defective(c, r, opts) || r.status == Unknown
    ensures v.status == Unknown && v.counted == 0
  {
    hide Defective, Tally, Agreeing, IndependentCount, Providers, Names, SuppressedNames, SuppressedCount, IsVote;
    NoOpinion(c, results, opts);
    SaysExactly(c, results, opts, {Up, Down, Warning});
    var tally := Tally(c, results, opts);
    assert VotesWith(tally, {Down}) <= VotesWith(tally, {Up, Down, Warning});
    assert VotesWith(tally, {Up}) <= VotesWith(tally, {Up, Down, Warning});
    assert VotesWith(tally, {Warning}) <= VotesWith(tally, {Up, Down, Warning});
    EnoughExactly(c, results, opts, {Down});
    if Enough(c, results, opts, {Down}) {
      EnoughSays(c, results, opts, {Down});
    }
  }

  lemma NoOpinion(c: Check, results: seq<Result>, opts: Options)
    requires forall r | r in results :: Defective(c, r, opts) || r.status == Unknown
    ensures !Says(c, results, opts, {Up, Down, Warning}) && !Says(c, results, opts, {Down})
  {
    hide Defective;
    forall i | IsVote(c, results, opts, i) ensures results[i].status == Unknown {
      assert results[i] in results;
    }
  }

  /** Whom enough agree with, someone says. */
  lemma EnoughSays(c: Check, results: seq<Result>, opts: Options, statuses: set<Status>)
    requires c.quorum.agree >= 1 && Enough(c, results, opts, statuses)
    ensures Says(c, results, opts, statuses)
  {
    var votes :| Agreement(c, results, opts, statuses, votes);
    assert votes != {};
    var r :| r in votes;
    var i :| IsVote(c, results, opts, i) && results[i] == r;
  }

  /** A single result without defect that says something is counted. */
  lemma OneResultCounts(c: Check, r: Result, opts: Options, v: Verdict)
    requires VerdictOn(c, [r], opts, v) && !Defective(c, r, opts) && r.status != Unknown
    ensures v.counted == 1
  {
    CountsUnlessDefective(c, r, opts);
    assert [r][..0] == [];
    assert Tally(c, [], opts) == map[];
    var tally := Tally(c, [r], opts);
    assert tally == TallyStep(c, map[], r, opts);
    assert tally == map[r.prober := r];
    forall s ensures VotesWith(tally, {s}) == if r.status == s then {r} else {} {
      assert tally[r.prober] == r;
    }
  }
}
