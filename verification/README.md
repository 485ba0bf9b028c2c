# parallaxd: quorum, alerting, delivery and history

parallaxd watches targets with several independent network probers. A coordinator decides from their answers
whether a target is down, alerts once for each change, and keeps a durable ledger of incidents, pending
deliveries and observations. This project models the deciding and bookkeeping code of the coordinator, the
assignment of checks to probers, and a prober's memory of the requests it has executed, and proves what they keep.

## Main results

- **Independent votes.** The augmenting-path search terminates and returns a largest set of votes whose provider
  (or prober) and exit differ pairwise (`Matching.IndependentResults`). The proof keeps a set of left keys all of
  whose neighbours are matched back into the set; failed searches extend it and successful ones never enter it.
- **Verdicts.** `Quorum.Evaluate` says exactly what the newest usable vote of each prober says, and
  `VerdictLaws.StatusExactly` says on the results themselves when that is Down, Warning, Up or Unknown. The verdict
  does not depend on the order of the results or on irrelevant ones; one more prober moves each independent count by
  at most one, never undoes Down and, voting Down, never produces Up.
- **Alerts.** Each alert decided in `Coordinator.Coordinator.Process` is backed, in that step, by enough usable
  votes of non-isolated probers with different exits and, when required, providers. Over any run, the status is the
  last verdict that was not Unknown (`Transitions.FinalIsLast`), each verdict raises exactly the alert that this status
  before it calls for (`Transitions.VerdictRaises`), and outage and recovery alerts alternate strictly.
  `Service.Service.Run` carries the evidence through to delivery: whatever is issued about a check, also late or as an
  escalation, repeats an alert that was backed when it was raised.
- **From report to verdict.** `ReportLaws.AskedExactly` says when others are asked, and
  `ReportLaws.UnanimousIsDecidedExactly` what follows if they all confirm an outage, a warning or a recovery: it is
  decided exactly if the routes of the reporter and those asked hold enough independent votes, or if it is no news. For
  an accepted direct check they always do (`ReportLaws.DirectReportIsDecided`): validation, selection and counting fit
  together. For proxied checks `ReportLaws.ProxyReportIsDecided` has a condition on the fleet.
- **Delivery and incidents.** `Operations.Operations.Perform` runs any interleaving of verdicts, announcements,
  delivery rounds, acknowledgements, resolutions, releases and suppression edits. Afterwards, for every
  destination, what was sent followed by what is pending is what was issued and not cancelled, in order. Only
  escalations are cancelled, and only of incidents that are closed or acknowledged. Besides escalations, what was
  issued are the alerts handed over, one copy for each target, and no incident's own alert is handed over twice. No
  incident is escalated twice by one policy, and pending escalations belong to active, unacknowledged, unsuppressed
  incidents. Outages of a subject are disjoint, and only its newest incident can be an active outage, while the
  subject is down. Status and alerts of every check and component are those of the state machine run on the verdicts
  about it, so that its outage and recovery alerts alternate.
- **Suppression.** After `Operations.Operations.ReleaseSuppressions` an active incident is still suppressed exactly if
  it was before and a window of the recorded name concerns its alert and has an occurrence now, or the silence of the
  recorded number lasts; every other active incident has been handed over.
- **History.** In any run of observations, compactions and restarts, loading the journal gives the memory seen through
  the retention window of the moment of loading, which is everything recorded, sorted and trimmed once
  (`History.HistoryStore.LoadHistory`, `History.HistoryStore.RecordAndLoad`);
  the bulk loader and one-by-one insertion agree, ties included (`Trimming.BulkIsFold`).
- **Uptime.** Occurrences are exactly the active instants of a window within a span, overlapping time is counted
  once. A line of a report counts instants: downtime and maintenance time together are those at which an outage of
  its subject is open, maintenance time those at which a window that concerns it is on, and uptime follows
  (`Uptime.UptimeReport`).
- **Assignment and replay.** Owners are unique and independent of the list order, failover moves only what it must,
  and with one clock reading for each request none is executed twice.

## What the proofs found

- A check with a proxy profile can be accepted and still be unable to confirm some prober's reports, because the
  validation counts independent routes in the whole fleet and not beside the reporter
  (`Reachability.ProxyQuorumUnreachable`). Counting them beside the reporter would be enough
  (`Reachability.ProxyQuorumReachable`); `Reachability.DownExactlyWhenRoutesSuffice` has the exact condition on those
  who vote.
- Provider names are compared as written in validation and selection but trimmed when votes are counted, so "a"
  and "a " pass as two providers and never make a quorum (`Reachability.UntrimmedProvidersBlockQuorum`), and the choice
  of whom to ask can be worse than another (`Reachability.UntrimmedProvidersMislead`). In trimmed names,
  `Reachability.DirectDownExactly` says exactly when a direct check is decided, and `Reachability.ProxySelectionExact`
  exactly when a choice for a proxied one is the best.
- A new prober that is itself out of service can move a check between two other probers
  (`Rendezvous.NewcomerCanUpset`; `Rendezvous.NewcomerMovesOnlyToItself` says exactly when).
- `handleProbe` reads the clock when opening a request and again when looking up its identifier. A request executed
  before is executed again exactly if it expires between the two readings (`Prober.Prober.HandleProbe`), which
  happens (`Prober.ExecutedTwice`).
- `totalDuration` starts its sweep at Go's zero time and so measures nothing before it (`Measure.MeasuresWhole`,
  `Measure.EarlyTimeUncounted`).
- A check that goes from Warning to Down to Up leaves its warning incident open, because only the newest active
  incident of the subject is closed (`Operations.WarningLeftOpen`). A recovery leaves an incident open exactly if two
  were active (`Incidents.RecoveryLeavesOpen`). In any run a subject comes to have two exactly if an outage begins out
  of a warning while an incident of it is still open; without that it never has two, and none while it is up or
  undecided (`Operations.Operations.Perform`, `Operations.Operations.Conclude`).

## Conventions

- Instants and durations are integers counting nanoseconds; `ZERO_TIME` is Go's zero time. The clock never goes
  backwards. A step reads it once, except where the source reads it again between side effects (retries, replay).
- A function that holds a mutex is one step. `Process` is one step from its result to the alert it hands on, and
  `Conclude` is one step from the move of a decided status through `emit` to delivery; both use the same
  `Transition`. Replies of corroborators are an arbitrary map from names to results; the isolated set is an input.
- Prober names are unique. Names of checks, components and probers do not collide (`subjects` are the checks and
  components). Provider names are free unless a lemma requires that trimming and folding keep them apart
  (`PlainProviders`, `PlainBeside`).
- Go's random map iteration is an arbitrary choice. Library sorts are the insertion sort of `Sorting`; for the
  history, any stable sort gives the same result (`Trimming.AnyStableSort`), and elsewhere the contracts do not say
  how ties fall. Lists of names that the source sorts
  and never repeats are sets.
- The journal is a sequence of lines, the outbox a sequence; a notifier succeeds or fails as it likes. The
  escalation key, written "incident/policy" in the source, is a pair.
- Ghost state records what a run has done (`issued`, `tried`, `sent`, `cancelled`, `handed`, `raised`, `overlapped`,
  `verdicts`, `executed`, `proofs`). `tried` and `sent` are written only where a notifier is called, `sent` only where it
  reports success.
- Names of destinations differ and none is "default", as the validation of the notification settings demands.

## Model

| member | source | states |
|---|---|---|
| Independence.CountIsMaximum | internal/quorum/quorum.go:261-313 | the independent count is reached by an independent choice among the results, and no choice is larger |
| Independence.CountMonotone | internal/quorum/quorum.go:315-317 | more results never lower the independent count |
| Independence.CountStep | internal/quorum/quorum.go:315-317 | one more result raises the independent count by at most one |
| Matching.Matcher.Visit | internal/quorum/quorum.go:284-303 | the search terminates; success matches the left key, keeps every other matched left key and leaves the dead set alone; failure visits only right keys that lead nowhere and changes no match |
| Matching.BuildEdges | internal/quorum/quorum.go:262-275 | each result with an exit is filed under its prober or provider key, and nothing else is |
| Matching.SortEdges | internal/quorum/quorum.go:276-281 | left keys in order and without repetition, each with the same results as before |
| Matching.SettledBounds | internal/quorum/quorum.go:261-313 | once every left key is matched or dead, no independent choice exceeds the matching |
| Matching.SelectedIndependent | internal/quorum/quorum.go:284-312 | what the matching selects is an independent choice among the results |
| Matching.Search | internal/quorum/quorum.go:304-306 | after searching from every left key each is matched or dead |
| Matching.IndependentResults | internal/quorum/quorum.go:261-313 | a largest independent choice of the results, without repetition, in the order of probers |
| Matching.CountIndependent | internal/quorum/quorum.go:315-317 | the size of a largest independent choice |
| VerdictProperties.TallyIsNewest | internal/quorum/quorum.go:113-144 | each prober with a usable result has the newest of them as its vote, and nobody else has one |
| VerdictProperties.TallyInsensitive | internal/quorum/quorum.go:113-144 | votes depend only on the usable results of non-isolated probers, not on their order, when no prober sends two at one time |
| VerdictProperties.TallyIgnores | internal/quorum/quorum.go:113-144 | leaving out isolated and unusable results changes no vote, whatever the times |
| VerdictProperties.VerdictInsensitive | internal/quorum/quorum.go:110-224 | verdicts on the same relevant results agree in all but the counts of what was left out |
| VerdictProperties.TallyNewProber | internal/quorum/quorum.go:113-144 | a new prober's usable result adds exactly its own vote |
| VerdictProperties.NewProberEffect | internal/quorum/quorum.go:110-224 | a new vote never undoes Down, a new Down vote never gives Up, and each independent count grows by at most one |
| VerdictProperties.SatisfiedIsBacked | internal/quorum/quorum.go:251-255 | a met quorum has enough usable agreeing results of different probers, exits and, when required, providers |
| VerdictProperties.BackedIsSatisfied | internal/quorum/quorum.go:251-255 | such evidence among the votes meets the quorum |
| Quorum.Count | internal/quorum/quorum.go:113-145 | the votes, and that suppressed, discarded and counted results add up to all of them |
| Quorum.Split | internal/quorum/quorum.go:147-160 | the votes by status, none lost and none twice, in spite of the map's order |
| Quorum.Satisfies | internal/quorum/quorum.go:251-255 | met exactly if the independent count reaches the required number |
| Quorum.Evaluate | internal/quorum/quorum.go:110-224 | status, counts, independent counts, providers and dissent are what the votes say; the parts add up to the results |
| VerdictLaws.StatusExactly | internal/quorum/quorum.go:110-224 | on the newest result without defect of each prober: Down if enough independent ones say so; otherwise Unknown if anyone says Down or nobody says anything; otherwise Warning if enough independent ones say so, and Up if not; each exactly then |
| VerdictLaws.CountedExactly | internal/quorum/quorum.go:157-224 | the counts are the numbers of votes of each status, the providers those of the votes for the verdict, and the dissent the names behind the votes against it |
| VerdictLaws.EnoughExactly | internal/quorum/quorum.go:251-255 | the quorum is met exactly if enough votes that say so differ pairwise in prober, in exit when proxied, and in provider when required |
| VerdictLaws.NothingSaidIsUnknown | internal/quorum/quorum.go:177-188 | results that are stale, isolated, off the question or off the route, or that say nothing, decide nothing |
| VerdictLaws.OneResultCounts | internal/quorum/quorum.go:113-162 | a single result with an opinion and without such a defect is counted |
| Acceptance.ValidateProbers | internal/check/check.go:159-273 | accepts exactly checks whose named probers are non-blank and differ, include the preferred one, and whose quorum asks for at least one and no more than it asks |
| Acceptance.ValidateEligibleProbers | internal/coordinator/coordinator.go:359-382 | succeeds exactly if all named probers are registered and no required route is missing, with the eligible probers |
| Acceptance.ValidateRouteQuorum | internal/coordinator/coordinator.go:388-400 | a proxied check is accepted exactly if the routes of its probers hold enough independent votes |
| Acceptance.CountNamedProviders | internal/coordinator/coordinator.go:532-543 | the number of non-blank provider names as written |
| Acceptance.Accept | internal/coordinator/coordinator.go:506-550 | a check is accepted exactly if it is valid, has its routes, enough probers, enough independent routes and enough named providers |
| Acceptance.AcceptAll | internal/coordinator/coordinator.go:506-550 | the loop succeeds exactly if every check is accepted and no two have one name, and then finds each check by its name |
| Acceptance.NamedAreEligible | internal/coordinator/coordinator.go:359-382 | everybody whom an accepted check names is registered and eligible; its preferred prober is, exactly unless the check names others and this one only in another spelling |
| Fleet.EligibleExactly | internal/coordinator/assign.go:113-128 | eligible are exactly the registered probers that the check names, or all if it names none, with an exit for its proxy profile if it has one |
| Corroboration.EligiblePeers | internal/coordinator/assign.go:113-128 | the eligible probers, once each |
| Corroboration.PreferNovel | internal/coordinator/coordinator.go:1000-1016 | the candidates again, first ones with pairwise different new providers that cover all providers |
| Corroboration.NovelIsDiverse | internal/coordinator/coordinator.go:1000-1016 | any prefix of that order represents as many providers as its length and the fleet allow |
| Corroboration.DiverseIsOptimal | internal/coordinator/coordinator.go:1000-1016 | no other selection of the same size covers more providers together with the reporter |
| Corroboration.PreferIndependent | internal/coordinator/coordinator.go:969-994 | the candidates again, first a largest independent choice among those compatible with the reporter |
| Corroboration.Corroborators | internal/coordinator/coordinator.go:951-1017 | asks different eligible probers other than the reporter, as many as the quorum and the fleet allow, diverse or independent as the check requires |
| Reachability.DownExactlyWhenRoutesSuffice | internal/quorum/quorum.go:251-255 | when every member answers Down, the verdict is Down exactly if the members' registered routes hold enough independent votes |
| Reachability.MembersAgree | internal/quorum/quorum.go:251-255 | when all members say the same, the independent votes for it are as many as their registered routes hold |
| Reachability.DirectCount | internal/quorum/quorum.go:261-313 | direct votes hold exactly as many independent ones as there are probers or, when providers must differ, providers by their trimmed names |
| Reachability.DirectDownExactly | internal/quorum/quorum.go:251-255 | when every member of a direct check answers Down, the verdict is Down exactly if enough probers or, when required, trimmed provider names vote |
| Reachability.MembersSuffice | internal/coordinator/coordinator.go:506-550 | an accepted check asks enough probers, and enough providers when required, whoever reports |
| Reachability.DirectQuorumReachable | internal/coordinator/coordinator.go:951-1017 | for an accepted direct check the reporter and everyone asked, all answering Down, make the verdict Down, as long as those who vote spell one provider in one way |
| Reachability.ProxyQuorumReachable | internal/coordinator/coordinator.go:969-994 | for a proxied check the same holds for any choice, if the fleet offers enough independent votes with the reporter's among them and no candidate spells the reporter's provider differently |
| Reachability.ProxySelectionOptimal | internal/coordinator/coordinator.go:969-994 | the probers asked are optimal: no selection of the same size has a larger independent choice containing the reporter's vote, as long as no candidate spells the reporter's provider differently |
| Reachability.ProxySelectionExact | internal/coordinator/coordinator.go:969-994 | any selection is optimal exactly if what it offers beside the reporter's vote is the least of what all candidates offer and what its size allows, trimmed names compared |
| Reachability.OffersUpToWith | internal/quorum/quorum.go:261-313 | probers offer, with the reporter's vote among them, exactly up to one more independent vote than their routes that differ from the reporter's hold |
| Reachability.ProxyQuorumUnreachable | internal/coordinator/coordinator.go:506-550 | an accepted proxied check whose reporter is never confirmed, whoever is asked |
| Reachability.UntrimmedProvidersBlockQuorum | internal/coordinator/coordinator.go:532-543 | an accepted check that no unanimous answer can decide, because validation does not trim provider names |
| Reachability.UntrimmedProvidersMislead | internal/coordinator/coordinator.go:973-980 | an accepted check and a choice made for it that is not optimal, because the selection compares untrimmed provider names |
| Transitions.AlertIsBacked | internal/coordinator/coordinator.go:834-880 | an alert after a verdict, as amended for the decided status, is backed by quorum evidence for what it claims |
| Transitions.OneProberDecidesNothing | internal/coordinator/coordinator.go:703-802 | with a quorum of two or more, results of a single prober raise no alert |
| Transitions.OutagesAlternate | internal/coordinator/coordinator.go:834-880 | for any verdicts, outage and recovery alerts alternate strictly, beginning with an outage |
| Transitions.RunAppend | internal/coordinator/coordinator.go:834-880 | one more verdict extends a run by the alert of its transition |
| Transitions.TransitionExactly | internal/coordinator/coordinator.go:834-880 | a conclusive verdict becomes the status, an inconclusive one leaves it; Down is announced exactly unless it was Down, a recovery exactly at Up or Warning after Down, a warning exactly after Up or nothing, its end exactly at Up after Warning |
| Transitions.FinalIsLast | internal/coordinator/coordinator.go:834-880 | the status after any run of verdicts is the last one that is not Unknown, or the initial one |
| Transitions.VerdictRaises | internal/coordinator/coordinator.go:834-880 | in any run a verdict raises exactly the alert that the last conclusive verdict before it calls for |
| Coordinator.EntityState.Apply | internal/coordinator/coordinator.go:834-880 | the status is the last conclusive of all verdicts so far; the alert is exactly the one that the verdict calls for after the last conclusive one before it; `since` moves with the status only |
| Coordinator.EntityState.ClearSuspicion | internal/coordinator/coordinator.go:804-811 | every trace of the suspicion is gone |
| Coordinator.EntityState.RecordInconclusive | internal/coordinator/coordinator.go:781-791 | the newest 32 attempts are kept, in order |
| Coordinator.Coordinator.StateFor | internal/coordinator/coordinator.go:882-891 | an existing state is found, a missing one created as unknown, the others stay |
| Coordinator.Coordinator.Corroborate | internal/coordinator/coordinator.go:895-948 | the normalized answers of the chosen probers that replied about this check in their own name, once each, in the order of names |
| Coordinator.Coordinator.Judge | internal/coordinator/coordinator.go:717-758 | others are asked exactly when there is reason to; the verdict is what the rule makes of report and answers, amended for the decided status; any alert it leads to is backed |
| Coordinator.Coordinator.Remember | internal/coordinator/coordinator.go:759-794 | suspicion begins with a failure, lasts through inconclusive verdicts and ends with a decided good one; the inconclusive attempts are kept up to the limit; last verdict and last attempt follow |
| Coordinator.Coordinator.Decide | internal/coordinator/coordinator.go:703-802 | the decided status moves by the transition of the verdict, and the alert it raises is backed |
| Coordinator.Coordinator.Process | internal/coordinator/coordinator.go:633-698 | unknown checks and probers are refused, isolated probers get an undecided verdict and change nothing, other checks are untouched, the verdict follows from the report and exactly the answers of those asked, the status is the last conclusive verdict, contradicted failures are counted, and the emitted alert, exactly the one the verdict calls for, is backed by evidence with registered providers and exits |
| Coordinator.Coordinator.CountOverruled | internal/coordinator/coordinator.go:670-680 | a failure report is counted against its prober exactly if enough independent votes contradict it |
| ReportLaws.NormalizedExactly | internal/coordinator/coordinator.go:405-415 | a result over the prober's registered route keeps its status, any other says nothing; provider and route are the registered ones, the rest is unchanged |
| ReportLaws.AskedExactly | internal/coordinator/coordinator.go:717-742 | others are asked exactly about a failure or a new warning that one result does not decide, and about the end of a decided failure or warning if more than one must agree |
| ReportLaws.JudgedExactly | internal/coordinator/coordinator.go:743-758 | on the votes: Down if enough say so; without any Down vote Warning if enough say so or the reporter still sees the decided one, and Up otherwise, which takes a quorum of votes if a failure or a warning is decided |
| ReportLaws.OverruledExactly | internal/coordinator/coordinator.go:670-680 | a report of a failure is counted exactly if the verdict is neither Down nor what it said and enough independent votes in the evidence contradict it; no other count moves |
| ReportLaws.UnanimousIsDecidedExactly | internal/coordinator/coordinator.go:703-802 | for any check and any decided status, a failure, warning or recovery that everyone chosen confirms is decided exactly if the routes of the reporter and those asked hold enough independent votes, or if it is no news; somebody is chosen exactly if it is news and more than one must agree |
| ReportLaws.DirectReportIsDecided | internal/coordinator/coordinator.go:703-802 | for an accepted direct check it is decided and becomes the status, as long as those who vote spell one provider in one way |
| ReportLaws.ProxyReportIsDecided | internal/coordinator/coordinator.go:703-802 | for a proxied check it is, if the fleet holds enough independent routes beside the reporter's |
| Intervals.Repetition | internal/coordinator/operations.go:46-56 | division of the time since the start by the period gives the number of the repetition |
| Intervals.ActiveDuring | internal/coordinator/operations.go:46-56 | within a repetition a validated recurring window is active exactly for its duration |
| Intervals.Occurrences | internal/coordinator/uptime.go:95-115 | an instant lies in an occurrence exactly if it lies in the span and the window is active then |
| SuppressionLaws.ActiveExactly | internal/coordinator/operations.go:46-56 | a window is active at exactly the instants of its repetitions, of which one that does not repeat has only the first |
| SuppressionLaws.ConcernsExactly | internal/coordinator/lifecycle.go:78-103 | a selector matches exactly if it names nothing, or the check, a member, the component or the prober of the alert |
| SuppressionLaws.SilenceExactly | internal/coordinator/lifecycle.go:39-41 | a silence is active exactly from its start to its end unless cancelled |
| Measure.UnionContains | internal/coordinator/uptime.go:128-142 | the measured set holds exactly the instants of some interval, from the zero time on |
| Measure.SweepStep | internal/coordinator/uptime.go:131-140 | one step of the sweep adds exactly the time not yet covered |
| Measure.TotalDuration | internal/coordinator/uptime.go:128-142 | the total of any interval list is the measure of its union from the zero time on |
| Measure.MeasuresWhole | internal/coordinator/uptime.go:128-142 | that is the whole union exactly if no interval reaches back before the zero time |
| Measure.EarlyTimeUncounted | internal/coordinator/uptime.go:128-142 | an interval before the zero time counts for nothing |
| Uptime.OutageTimeBounded | internal/coordinator/uptime.go:53-80 | the clipped outages of one subject in a ledger with disjoint outages fit into the time they span |
| Uptime.SumsAreInstants | internal/coordinator/uptime.go:53-80 | what is added up for a line is the number of instants at which an outage of its subject is open, of those at which a window that concerns it is on, and of the outages that have such an instant |
| Uptime.Excluded | internal/coordinator/uptime.go:71-77 | the maintenance time of an outage is the measure of its instants at which a matching window is active |
| Uptime.Collect | internal/coordinator/uptime.go:53-80 | every line gets its downtime, maintenance time and number of outages |
| Uptime.UptimeReport | internal/coordinator/uptime.go:30-92 | downtime plus maintenance time is the number of instants of the period at which some outage of the subject is open, maintenance time that of those at which a window concerning the outage is on, and the outages those with such an instant; uptime is the rest of the period and lies between 0 and 1 without clamping |
| Incidents.OpenKeepsLedger | internal/coordinator/operations.go:215-222 | opening the incident of a status move keeps outages disjoint and current |
| Incidents.CloseKeepsLedger | internal/coordinator/operations.go:201-214 | closing the newest active incident at a recovery keeps outages disjoint and current |
| Incidents.ResolveKeepsLedger | internal/coordinator/lifecycle.go:166-196 | closing any incident by hand keeps the ledger although the status stays down |
| Incidents.AnnotateKeepsLedger | internal/coordinator/lifecycle.go:136-164 | acknowledging an incident, or ending its suppression, keeps the ledger |
| Incidents.QuietKeepsLedger | internal/coordinator/coordinator.go:834-880 | a status move without an alert keeps the ledger |
| Incidents.TransitionRaises | internal/coordinator/coordinator.go:834-880 | the alert of a transition fits the move, and a silent move never leaves Down |
| Incidents.RecoveryLeavesOpen | internal/coordinator/operations.go:206-215 | after a closing alert an incident of its subject is still active exactly if two were active before |
| Incidents.OverlapMakesTwo | internal/coordinator/operations.go:217-222 | an outage that begins while an incident of the subject is active makes two active ones |
| Incidents.RecordKeepsSingle | internal/coordinator/operations.go:199-223 | apart from such overlaps a subject never has two active incidents, and none while it is up or undecided |
| Incidents.RecordedExactly | internal/coordinator/operations.go:199-223 | by fields: trouble adds an active, unacknowledged incident about the alert, opened at its time; its end closes exactly the newest active incident of the subject, if there is one |
| Backoff.DelayMonotone | internal/coordinator/delivery.go:280-292 | delays are positive, never decrease with the attempts and never exceed the maximum |
| Backoff.RetryDelay | internal/coordinator/delivery.go:280-292 | the doubling loop gives min(initial * 2^(n-1), max) without 64-bit overflow, in rounds logarithmic in max/initial |
| Outboxes.OnLive | internal/coordinator/delivery.go:406-415 | cancelling and looking at one destination commute |
| Outboxes.EnqueueKeepsQueue | internal/coordinator/delivery.go:252-264 | issuing by queueing keeps each destination's order |
| Outboxes.SendKeepsQueue | internal/coordinator/delivery.go:206-224 | issuing by sending at once keeps the order when nothing is pending for the destination |
| Outboxes.RetryKeepsQueue | internal/coordinator/delivery.go:320-328 | sending the first pending delivery of a destination keeps the order |
| Outboxes.CancelKeepsQueue | internal/coordinator/delivery.go:406-415 | removing pending deliveries keeps the order of what is left |
| Outboxes.UpdateKeepsQueue | internal/coordinator/delivery.go:329-334 | recording a failed attempt keeps the order |
| Escalations.CancelKeepsRelevant | internal/coordinator/delivery.go:356-365 | withdrawing an incident together with its escalations leaves only relevant escalations |
| Escalations.ReleaseKeepsRelevant | internal/coordinator/operations.go:330-361 | ending a suppression leaves every pending escalation relevant |
| Escalations.PageIssues | internal/coordinator/delivery.go:406-415 | the numbers of an incident's pending escalations belong to issues of that incident only |
| Escalations.TiedWithdraw | internal/coordinator/delivery.go:406-415 | closing or acknowledging an incident and cancelling its escalations leaves pending escalations relevant and cancelled ones dismissed |
| Escalations.CancelledIrrelevant | internal/coordinator/delivery.go:356-365 | the incident of a cancelled escalation no longer warrants a page |
| Escalations.DueExactly | internal/coordinator/delivery.go:367-402 | an escalation is due exactly if the incident is active, unacknowledged and unsuppressed, has waited long enough, and the policy is meant for its alert, naming warnings for a warning |
| Escalations.RelevantExactly | internal/coordinator/delivery.go:356-365 | an escalation is relevant exactly if its incident is active, unacknowledged and unsuppressed |
| Handovers.SpreadOnce | internal/coordinator/delivery.go:186-224 | when no incident is handed over twice and targets differ, no destination gets an incident's own alert twice |
| Handovers.SpreadExactly | internal/coordinator/delivery.go:206-224 | exactly the alerts handed over are issued, each to exactly its targets |
| Handovers.PlainIssued | internal/coordinator/delivery.go:206-224 | issuing copies extends what was issued beside escalations by exactly these copies |
| Handovers.OpenHandedOver | internal/coordinator/operations.go:78-90 | a new incident is handed over exactly if it is not suppressed, and never was before |
| Handovers.ReleaseHandedOver | internal/coordinator/operations.go:330-361 | ending a suppression hands the incident's own alert over for the first time |
| Handovers.IssuesAreRaised | internal/coordinator/delivery.go:206-415 | whatever was issued repeats an alert that was raised, but for its time and escalation |
| Operations.Operations.DeliveryTargets | internal/coordinator/delivery.go:186-204 | the default destination, then the named ones in order that have no route or a matching one |
| Operations.Operations.TargetsExactly | internal/coordinator/delivery.go:186-204 | a destination gets the alert exactly if it is the default, has no route, or has one whose names and kinds fit; the default comes first and the others in their configured order |
| Operations.Operations.DestinationPending | internal/coordinator/delivery.go:226-235 | true exactly if a delivery for the destination is pending |
| Operations.Operations.EnqueueDelivery | internal/coordinator/delivery.go:252-264 | appends the delivery under the next number, keeping the queue's invariant |
| Operations.Operations.DeliverOne | internal/coordinator/delivery.go:206-224 | issues the alert to the destination once: tried at once exactly when nothing is pending for it, and queued behind everything else if it was not tried or failed |
| Operations.Operations.Deliver | internal/coordinator/delivery.go:206-224 | issues the alert once to each target in order and nothing else; each copy is sent or queued behind everything else |
| Operations.Operations.Attempt | internal/coordinator/delivery.go:320-340 | tries this delivery once; success removes and records exactly it, failure keeps it in place with one more attempt and the backed-off time |
| Operations.Operations.RemoveDelivery | internal/coordinator/delivery.go:345-354 | removes exactly this escalation and records it as cancelled |
| Operations.Operations.WorkOff | internal/coordinator/delivery.go:302-343 | afterwards the first delivery of each destination waits for a later time; no escalation is rejected as irrelevant |
| Operations.Operations.EscalationRelevant | internal/coordinator/delivery.go:356-365 | true exactly if the incident is active, unacknowledged and unsuppressed |
| Operations.Operations.ScheduleEscalations | internal/coordinator/delivery.go:367-402 | afterwards all due incident/policy pairs are escalated; issued is only what was due and new |
| Operations.Operations.ProcessDeliveries | internal/coordinator/delivery.go:294-343 | a round keeps all invariants, cancels nothing, leaves no due delivery at the head of a queue, and escalates exactly what is due and was not escalated before: by fields, an active, unacknowledged, unsuppressed incident that has waited for the time of a policy meant for it |
| Operations.Operations.FilterOut | internal/coordinator/delivery.go:406-415 | the outbox without the escalations of the incident, in order |
| Operations.Operations.CancelEscalations | internal/coordinator/delivery.go:406-415 | exactly the incident's pending escalations are removed and recorded as cancelled |
| Operations.Operations.ActiveMaintenance | internal/coordinator/operations.go:92-101 | the name of the first window that is active and covers the alert, or none |
| Operations.Operations.ActiveSilence | internal/coordinator/lifecycle.go:105-114 | the number of the first silence that is active and covers the alert, or none |
| Operations.Operations.CoveredExactly | internal/coordinator/operations.go:78-101 | an alert is covered exactly if some window has an occurrence now, or some silence lasts, that concerns it |
| Operations.Operations.FindLatest | internal/coordinator/operations.go:205-208 | the newest active incident of the subject, or none |
| Operations.Operations.RecordIncident | internal/coordinator/operations.go:199-223 | opens an incident, or closes the newest active one of the subject; exactly the escalations of the closed incident are cancelled; the ledger is kept |
| Operations.Operations.Emit | internal/coordinator/operations.go:78-90 | opens or closes the right incident with the right times, a new one recording a window and a silence that hold its alert back if there are any, cancels exactly the closed one's escalations, and hands the alert over and issues it once to each target unless a window or silence covers it; nothing else is issued or queued |
| Operations.Operations.Conclude | internal/coordinator/coordinator.go:682-688 | a conclusive verdict becomes the status; the alert it calls for is recorded and issued as by Emit; a recovery leaves an incident open exactly if two were active; an outage over an open warning makes two |
| Operations.Operations.Announce | internal/coordinator/operations.go:78-90 | an alert about a prober or the watch itself is recorded and issued as by Emit, with every status left alone |
| Operations.Operations.AcknowledgeIncident | internal/coordinator/lifecycle.go:136-164 | refuses a blank actor, an unknown or a closed incident without any change; otherwise marks exactly that incident and cancels exactly its escalations |
| Operations.Operations.ResolveIncident | internal/coordinator/lifecycle.go:166-196 | refuses likewise; otherwise closes exactly that incident by hand and cancels exactly its escalations |
| Operations.Operations.HeldExactly | internal/coordinator/lifecycle.go:117-134 | a suppression is still in force exactly if a window of the recorded name concerns the alert and has an occurrence now, or the silence of the recorded number lasts |
| Operations.Operations.CollectReleased | internal/coordinator/operations.go:330-348 | exactly the active incidents whose suppression is over are released, and exactly their alerts are listed, in order |
| Operations.Operations.ReleaseSuppressions | internal/coordinator/operations.go:330-361 | afterwards an active incident is still suppressed exactly if it was and what suppressed it is still on, said of the fields of windows and silences; every other one has been handed over; what was handed over now are exactly the alerts of the incidents whose suppression has ended, issued once to each of their targets, in order |
| Operations.Operations.Perform | internal/coordinator/delivery.go:206-415 | after any interleaving: each destination gets what was issued, first in first out, minus what was cancelled; only escalations of incidents that warrant no page are cancelled; everything else issued are the handed-over alerts, each incident's own at most once to a destination; each pair is escalated once; pending escalations are relevant; outages are disjoint and current; the subjects with two active incidents after some step are those whose outage began over an open warning, and no other is up with an incident open; the status of each check and component is the last conclusive verdict about it, its alerts are those of the state machine run on them, outages and recoveries alternating |
| Operations.WarningLeftOpen | internal/coordinator/operations.go:206-215 | warning, outage and recovery from the start leave the check up and the incident of the warning active |
| Operations.SortIncreasing | internal/coordinator/delivery.go:302-305 | the outbox is already in the order of its numbers |
| Trimming.TrimTrim | internal/coordinator/history.go:191-206 | trimming with an earlier and laxer window first makes no difference to a later trim |
| Trimming.TrimInsert | internal/coordinator/history.go:191-206 | trimming before an insertion makes no difference to the trim after it |
| Trimming.FoldIsTrimmedSort | internal/coordinator/history.go:240-253 | inserting and trimming one by one gives the stable sort, trimmed once |
| Trimming.BulkIsFold | internal/coordinator/history.go:223-253 | filtering, stable sorting and capping in bulk gives the same as one insertion after the other, ties included |
| Trimming.SortIsStable | internal/coordinator/history.go:245-253 | the modelled sort orders by time and keeps ties in place |
| Trimming.AnyStableSort | internal/coordinator/history.go:245-253 | every stable sort gives this result |
| History.AppendKeepsFaithful | internal/coordinator/history.go:85-114 | appending to memory and journal alike keeps the journal telling what the memory holds, for all later windows |
| History.MemoryIsFaithful | internal/coordinator/history.go:260-302 | a journal that lists the memory tells what the memory holds |
| History.InsertIsSplice | internal/coordinator/history.go:192-198 | insertion after all equal times is a splice at the searched position |
| History.CutIsTrim | internal/coordinator/history.go:199-205 | cutting at the searched position and capping is trimming |
| History.TrimExactly | internal/coordinator/history.go:191-206 | in order of receipt, what stays is exactly what is not older than the window and among the last ones that the limit allows |
| History.OfExactly | internal/coordinator/history.go:223-241 | of a list, exactly the observations of the check, each at its place, in order |
| History.SearchAfter | internal/coordinator/history.go:193-200 | binary search finds the end of what was received at the given time or before |
| History.HistoryStore.AppendHistory | internal/coordinator/history.go:191-206 | the check's history is the ordered insertion, trimmed to window and size; others stay; all stay in order |
| History.HistoryStore.RecordObservation | internal/coordinator/history.go:85-114 | memory gets the observation, the journal its line or, when due, a compacted content; nothing is lost as long as lines are written |
| History.HistoryStore.Compact | internal/coordinator/history.go:260-302 | the journal lists exactly the memory |
| History.HistoryStore.Live | internal/coordinator/history.go:85-302 | in any such run memory agrees, through every later window, with the list of everything recorded |
| History.HistoryStore.ReadLines | internal/coordinator/history.go:223-241 | per known check the well-formed, unexpired observations in file order |
| History.HistoryStore.LoadHistory | internal/coordinator/history.go:208-258 | memory is the fold of the journal's observations; if no line was lost, it is the previous memory within the window; loading fails only if something is left out and the compaction fails, and otherwise leaves the journal alone or compacted; the count of appends begins anew |
| History.HistoryStore.RecordAndLoad | internal/coordinator/history.go:85-302 | from any store that has lost nothing, after any run of observations, compactions and restarts, loading gives for each configured check everything recorded, sorted stably and trimmed once at the time of loading |
| History.HistoryStore.Query | internal/coordinator/history.go:304-331 | exactly the observations of the check since the instant, or since the retention window if that is later, up to the newest ones the limit allows |
| Rendezvous.OwnerUnique | internal/coordinator/assign.go:56-81 | the owner is determined by the set of eligible probers and who is in service, so neither list order nor past absences matter |
| Rendezvous.OutOfServiceMovesOnlyTheirs | internal/coordinator/assign.go:56-81 | taking probers out of service moves no check whose owner stays in service |
| Rendezvous.NewcomerMovesOnlyToItself | internal/coordinator/assign.go:56-81 | adding a prober moves a check to it or not at all, exactly unless the newcomer, out of service, outranks a recovering owner |
| Rendezvous.NewcomerCanUpset | internal/coordinator/assign.go:56-81 | the exception occurs: a check moves between two probers when a third joins |
| Rendezvous.GreatestWins | internal/coordinator/assign.go:26-41 | the best prober is exactly the one of greatest weight, and of smallest name among those |
| Assignment.Assign | internal/coordinator/assign.go:26-41 | the prober of greatest weight, ties broken by name, none only of no probers |
| Assignment.BaseAssignedTo | internal/coordinator/assign.go:105-111 | the preferred prober, or the best of the eligible ones |
| Assignment.AssignedTo | internal/coordinator/assign.go:56-81 | the owner: the preferred prober unless out of service and not recovering, then the best in service |
| Prober.Prober.AcceptRequest | internal/prober/prober.go:249-263 | forgets exactly what has expired and accepts exactly what it does not remember |
| Prober.Prober.HandleProbe | internal/prober/prober.go:205-247 | executed exactly if authentic, valid, for this prober, issued and not expired, at most two minutes in the future, and not remembered; what is remembered follows; an executed one is executed again exactly if it expires between the two readings |
| Prober.ExecutedTwice | internal/prober/prober.go:205-263 | a request that expires between the two readings of the clock is executed for a second time |
| Prober.Serve | internal/prober/prober.go:205-263 | with one reading of the clock for each request, exactly the requests that open and are not remembered are executed, and none twice in any run |
| Service.Service.Handle | internal/coordinator/coordinator.go:633-698 | a result is judged on exactly the evidence gathered; coordinator and ledger move alike by the transition of the verdict; the ledger raises exactly the alert emitted, with evidence that meets the quorum for what it claims; nothing else moves |
| Service.Service.Run | internal/coordinator/coordinator.go:633-698 | in any run every result taken into account gives one verdict on its check, the status of each check is the last conclusive verdict on it, status and alerts of each check and component are those of the state machine, outages and recoveries alternating, and everything issued about a check that alerts by itself repeats an alert for which there was enough registered, independent evidence when it was raised |

## Left out

- Probing itself (HTTP, TLS, DNS, SMTP, ICMP, NTP, gRPC, proxies): network I/O; a prober's answer is arbitrary.
- Signatures, keys, sessions, roles and all HTTP handlers; a request arrives authenticated, and its signature is not part of this model.
- The rules for silence, mesh evaluation, the watcher, heartbeats, component rollup and notices: small rules; their alerts, also the one that `Process` sends first when a silent prober reports again, enter through `Operations.Operations.Announce`, the isolated and unavailable sets are inputs.
- Alerts of components: a component's status moves through `Conclude` like a check's; how it follows from its members is not modelled.
- Reason and detail texts, message formatting, metrics, logging and audit entries.
- Fan-out slots and timeouts: a reply that did not arrive in time is one that is missing from the map of replies; running out of slots, which the source treats as nobody answering, is the empty map.
- The wall-clock durations of corroboration attempts kept beside the inconclusive history.
- Goroutines and channels: locked functions are atomic steps. A crash between a notifier's success and the next write of the state is not modelled, nor are temporary files, fsync and rename.
- Restoring a snapshot: with it an escalation can be pending whose incident no longer warrants it, which is why the source checks again; without it `Operations.Operations.WorkOff` shows that the check never rejects one.
- Creating, changing and deleting windows, silences and catalogue entries is `Operations.Operations.EditSuppression` with arbitrary new lists; the validation of their names and scopes is left out, except that of a window's times and repetition.
- The FNV hash: the weight is an arbitrary function of check and prober.
- Identifiers and protocol metadata of observations, summaries of the history, and the history query over all checks at once, which would only merge the single-check results.
- Parts of the check validation that concern the probe itself (targets, ports, records, intervals).
- The order of lines in an uptime report: the lines follow the given keys.
- VerdictProperties.TallyInsensitive: requires that no prober sends two different usable results of the same time; with such a pair the source keeps the first, so the order would matter.
- Reachability.DirectQuorumReachable: requires that those who vote spell one provider in one way, which `Reachability.UntrimmedProvidersBlockQuorum` shows to be needed; `Reachability.DirectDownExactly` is the exact condition without it.
- Reachability.ProxySelectionOptimal: requires that no candidate spells the reporter's provider differently; `Reachability.UntrimmedProvidersMislead` shows that it fails otherwise, and `Reachability.ProxySelectionExact` is the exact condition without it.
- ReportLaws.DirectReportIsDecided: requires the same of those who vote; `ReportLaws.UnanimousIsDecidedExactly` does not.
- Reachability.ProxyQuorumReachable: the condition on the fleet is enough but not needed, since those asked may meet the quorum without the reporter; the exact condition on those who vote is `Reachability.DownExactlyWhenRoutesSuffice`.
- ReportLaws.ProxyReportIsDecided: requires the same of the fleet; `ReportLaws.UnanimousIsDecidedExactly` does not.
- Acceptance.ValidateProbers: the clauses about the probe itself (name, target, timeouts, intervals, records) are left out.
- Acceptance.Accept: the comparison of the check's timeout with the fan-out timeout is left out; the test for duplicate names is in `Acceptance.AcceptAll`.
- Acceptance.AcceptAll: the same comparison is left out.
- Coordinator.Coordinator.Process: the observations that it records are those of `History.HistoryStore.RecordObservation`, and the alert about a prober that reports again and the rollup of components enter through the ledger's other steps.
- History.HistoryStore.Query: the query over all checks at once, which merges the single-check answers by time, is left out.
- History.HistoryStore.Live: a restart whose compaction is needed and fails ends the run, since the source then does not start.
- Operations.Operations.Emit: that a covered alert is not issued takes windows with names and silences with numbers other than 0, which validation and numbering ensure; the source, too, takes an empty name for no window.
