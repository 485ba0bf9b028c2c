// Uptime from the incident ledger (internal/coordinator/uptime.go).

/** The measure of a union of intervals. */
module Measure {
  import opened Types
  import opened Sorting
  import opened Intervals

  /** The `n` instants from `from` on. */
  ghost function Range(from: Time, n: nat): (range: set<Time>)
    ensures forall t :: t in range <==> from <= t < from + n
    ensures |range| == n
  {
    if n == 0 then {} else Range(from, n - 1) + {from + n - 1}
  }

  ghost function Span(from: Time, to: Time): (span: set<Time>)
    ensures forall t :: t in span <==> from <= t < to
    ensures |span| == if from < to then to - from else 0
  {
    if from < to then Range(from, to - from) else {}
  }

  /** The instants of the interval that are not before the zero time. */
  ghost function Instants(i: Interval): set<Time> {
    Span(if i.from < ZERO_TIME then ZERO_TIME else i.from, i.to)
  }

  ghost function Union(intervals: seq<Interval>): set<Time> {
    if intervals == [] then {} else Union(intervals[..|intervals| - 1]) + Instants(intervals[|intervals| - 1])
  }

  lemma {:induction false} UnionContains(intervals: seq<Interval>, t: Time)
    ensures t in Union(intervals) <==> ZERO_TIME <= t && InSome(t, intervals)
  {
    hide Union, InSome, Span;
    if intervals == [] {
      NothingCovered(t);
    } else {
      var front, last := intervals[..|intervals| - 1], intervals[|intervals| - 1];
      UnionContains(front, t);
      InSomeAppend(t, front, last);
      UnionAppend(front, last);
      assert front + [last] == intervals;
    }
  }

  lemma NothingCovered(t: Time)
    ensures Union([]) == {} && !InSome(t, [])
  {
  }

  predicate ByFrom(a: Interval, b: Interval) {
    a.from <= b.from
  }

  /** The sweep has reached `end`, the latest end of any interval swept so far. */
  ghost predicate Swept(done: seq<Interval>, total: int, end: Time) {
    && total == |Union(done)|
    && (forall t | t in Union(done) :: t < end)
    && Reached(done, end)
  }

  ghost predicate Reached(done: seq<Interval>, end: Time) {
    end == ZERO_TIME || (end > ZERO_TIME && exists k :: 0 <= k < |done| && done[k].to == end)
  }

  lemma SweepStep(done: seq<Interval>, total: int, end: Time, i: Interval)
    requires Swept(done, total, end)
    requires forall k | 0 <= k < |done| :: done[k].from <= i.from
    ensures var from := if i.from < end then end else i.from;
            if i.to > from then Swept(done + [i], total + (i.to - from), i.to) else Swept(done + [i], total, end)
  {
    hide Union, Reached, Instants;
    var from := if i.from < end then end else i.from;
    UnionAppend(done, i);
    AlreadySwept(done, end, i);
    ReachedMore(done, end, i);
    var added := Span(from, i.to);
    assert Union(done + [i]) == Union(done) + added;
    assert Union(done) !! added;
  }

  lemma UnionAppend(done: seq<Interval>, i: Interval)
    ensures Union(done + [i]) == Union(done) + Instants(i)
  {
    assert (done + [i])[..|done|] == done;
  }

  lemma ReachedMore(done: seq<Interval>, end: Time, i: Interval)
    requires Reached(done, end)
    ensures Reached(done + [i], end) && (i.to > end ==> Reached(done + [i], i.to))
  {
    var more := done + [i];
    assert more[|done|].to == i.to;
    if end != ZERO_TIME {
      var k :| 0 <= k < |done| && done[k].to == end;
      assert more[k].to == end;
    }
  }

  /** The part of a later interval before `end` lies in the interval that ends there. */
  lemma AlreadySwept(done: seq<Interval>, end: Time, i: Interval)
    requires Reached(done, end)
    requires forall k | 0 <= k < |done| :: done[k].from <= i.from
    ensures end >= ZERO_TIME
    ensures forall t | t in Instants(i) && t < end :: t in Union(done)
    ensures forall t | end <= t :: t in Instants(i) <==> i.from <= t < i.to
  {
    forall t | t in Instants(i) && t < end ensures t in Union(done) {
      var k :| 0 <= k < |done| && done[k].to == end;
      assert Within(t, done[k]);
      UnionContains(done, t);
    }
  }

  /** Overlapping time is counted once: the total is the measure of the union. */
  method TotalDuration(intervals: seq<Interval>) returns (total: int)
    ensures total == |Union(intervals)|
  {
    var sorted := Sort(intervals, ByFrom);
    SortedByFrom(intervals);
    total := 0;
    var end := ZERO_TIME;
    SweptNothing();
    hide Swept, Union, SortedBy, TotalPreorder, Sort;
    for k := 0 to |sorted|
      invariant Swept(sorted[..k], total, end)
    {
      var i := sorted[k];
      SweptFurther(sorted, k, total, end);
      if i.from < end {
        i := i.(from := end);
      }
      if i.to > i.from {
        total := total + (i.to - i.from);
        end := i.to;
      }
    }
    assert sorted[..|sorted|] == sorted;
    SweptTotal(sorted, total, end);
    SameUnion(intervals, sorted);
  }

  /** The total is the measure of the whole union exactly if no interval reaches back before the zero time. */
  lemma MeasuresWhole(intervals: seq<Interval>, whole: set<Time>)
    requires forall t :: t in whole <==> InSome(t, intervals)
    ensures |Union(intervals)| == |whole| <==> forall t | InSome(t, intervals) :: t >= ZERO_TIME
  {
    forall t ensures t in Union(intervals) <==> t >= ZERO_TIME && t in whole {
      UnionContains(intervals, t);
    }
    var early := whole - Union(intervals);
    assert whole == Union(intervals) + early;
    if early == {} {
      assert whole == Union(intervals);
    } else {
      var t :| t in early;
      assert InSome(t, intervals) && t < ZERO_TIME;
    }
  }

  /** It can be less: an interval that lies before the zero time counts for nothing. */
  lemma EarlyTimeUncounted()
    ensures Union([Interval(ZERO_TIME - 2, ZERO_TIME - 1)]) == {}
    ensures InSome(ZERO_TIME - 2, [Interval(ZERO_TIME - 2, ZERO_TIME - 1)])
  {
    var intervals := [Interval(ZERO_TIME - 2, ZERO_TIME - 1)];
    assert Within(ZERO_TIME - 2, intervals[0]);
    forall t ensures t !in Union(intervals) {
      UnionContains(intervals, t);
    }
  }

  lemma SortedByFrom(intervals: seq<Interval>)
    ensures SortedBy(Sort(intervals, ByFrom), ByFrom) && multiset(Sort(intervals, ByFrom)) == multiset(intervals)
  {
    SortSorted(intervals, ByFrom);
  }

  lemma SweptFurther(sorted: seq<Interval>, k: nat, total: int, end: Time)
    requires SortedBy(sorted, ByFrom) && k < |sorted| && Swept(sorted[..k], total, end)
    ensures var i := sorted[k];
            var from := if i.from < end then end else i.from;
            if i.to > from then Swept(sorted[..k + 1], total + (i.to - from), i.to)
            else Swept(sorted[..k + 1], total, end)
  {
    hide Swept;
    assert sorted[..k + 1] == sorted[..k] + [sorted[k]];
    EarlierFrom(sorted, k);
    SweepStep(sorted[..k], total, end, sorted[k]);
  }

  lemma EarlierFrom(sorted: seq<Interval>, k: nat)
    requires SortedBy(sorted, ByFrom) && k < |sorted|
    ensures forall j | 0 <= j < k :: sorted[..k][j].from <= sorted[k].from
  {
  }

  lemma SweptNothing()
    ensures Swept([], 0, ZERO_TIME)
  {
  }

  lemma SweptTotal(done: seq<Interval>, total: int, end: Time)
    requires Swept(done, total, end)
    ensures total == |Union(done)|
  {
  }

  lemma SameUnion(xs: seq<Interval>, ys: seq<Interval>)
    requires multiset(xs) == multiset(ys)
    ensures Union(xs) == Union(ys)
  {
    SameElements(xs, ys);
    SubUnion(xs, ys);
    SubUnion(ys, xs);
  }

  lemma {:induction false} SubUnion(xs: seq<Interval>, ys: seq<Interval>)
    requires forall k | 0 <= k < |xs| :: xs[k] in ys
    ensures Union(xs) <= Union(ys)
  {
    if xs != [] {
      SubUnion(xs[..|xs| - 1], ys);
      MemberInUnion(xs[|xs| - 1], ys);
    }
  }

  lemma {:induction false} MemberInUnion(i: Interval, ys: seq<Interval>)
    requires i in ys
    ensures Instants(i) <= Union(ys)
  {
    if i != ys[|ys| - 1] {
      MemberInUnion(i, ys[..|ys| - 1]);
    }
  }
}

/** The share of a period spent outside corroborated outages. */
module Uptime {
  import opened Types
  import opened Sorting
  import opened Independence
  import opened Alerts
  import opened Windows
  import opened Intervals
  import opened Measure
  import opened Incidents
  import SuppressionLaws

  /** What a line of the report is about. */
  datatype Key = CheckKey(name: string) | ComponentKey(name: string)

  datatype Line = Line(key: Key, from: Time, to: Time, uptime: real, downtime: int, maintenance: int, outages: nat)

  /** The line that an incident belongs to, if it is an outage of a check or component at all. */
  predicate Concerns(incident: Incident, key: Key) {
    && incident.kind == KindDown && incident.alert.prober == ""
    && key == if incident.alert.component != "" then ComponentKey(incident.alert.component)
              else CheckKey(incident.alert.check)
  }

  /** The part of the outage inside the period; an open outage lasts until its end. */
  function OutageWithin(incident: Incident, from: Time, to: Time): Interval {
    var end := if incident.active || incident.resolvedAt == ZERO_TIME then to else incident.resolvedAt;
    Clip(Interval(incident.openedAt, end), from, to)
  }

  predicate Counted(incident: Incident, key: Key, from: Time, to: Time) {
    var outage := OutageWithin(incident, from, to);
    Concerns(incident, key) && outage.from < outage.to
  }

  /** The instants of the outage at which a matching window is active. */
  ghost function MaintainedInstants(incident: Incident, windows: seq<Maintenance>, outage: Interval): set<Time> {
    set t | t in Instants(outage) && exists m :: m in windows && m.Covers(incident.alert) && m.Active(t)
  }

  /** The clipped outage time that belongs to one line. */
  ghost function OutageTime(incidents: seq<Incident>, key: Key, from: Time, to: Time): int {
    if incidents == [] then 0
    else
      var last := incidents[|incidents| - 1];
      var outage := OutageWithin(last, from, to);
      OutageTime(incidents[..|incidents| - 1], key, from, to)
      + if Counted(last, key, from, to) then outage.to - outage.from else 0
  }

  /** The part of it that fell into maintenance. */
  ghost function MaintenanceTime(incidents: seq<Incident>, windows: seq<Maintenance>, key: Key, from: Time,
                                 to: Time): int {
    if incidents == [] then 0
    else
      var last := incidents[|incidents| - 1];
      MaintenanceTime(incidents[..|incidents| - 1], windows, key, from, to)
      + if Counted(last, key, from, to) then |MaintainedInstants(last, windows, OutageWithin(last, from, to))| else 0
  }

  ghost function OutageCount(incidents: seq<Incident>, key: Key, from: Time, to: Time): nat {
    if incidents == [] then 0
    else
      OutageCount(incidents[..|incidents| - 1], key, from, to)
      + if Counted(incidents[|incidents| - 1], key, from, to) then 1 else 0
  }

  /**
   * Disjoint outages fit into the time that has passed: those that are over by `until` add up to at most the
   * time from the start of the period to `until`.
   */
  lemma {:induction false} OutageTimeBounded(incidents: seq<Incident>, subjects: set<string>, clock: Time,
                                             key: Key, from: Time, to: Time, until: Time)
    requires Timed(incidents, clock) && OutagesDisjoint(incidents, subjects) && key.name in subjects
    requires from <= until
    requires forall k | 0 <= k < |incidents| && Counted(incidents[k], key, from, to) ::
               OutageWithin(incidents[k], from, to).to <= until
    ensures 0 <= OutageTime(incidents, key, from, to) <= until - from
  {
    if incidents != [] {
      var front, last := incidents[..|incidents| - 1], incidents[|incidents| - 1];
      if Counted(last, key, from, to) {
        var outage := OutageWithin(last, from, to);
        forall k | 0 <= k < |front| && Counted(front[k], key, from, to)
          ensures OutageWithin(front[k], from, to).to <= outage.from
        {
          assert !incidents[k].active && incidents[k].resolvedAt <= last.openedAt;
        }
        OutageTimeBounded(front, subjects, clock, key, from, to, outage.from);
      } else {
        OutageTimeBounded(front, subjects, clock, key, from, to, until);
      }
    }
  }

  /** How much of an outage matching windows cover. */
  method Excluded(incident: Incident, windows: seq<Maintenance>, outage: Interval) returns (excluded: nat)
    requires forall m | m in windows :: m.Validate()
    requires outage.from < outage.to
    ensures excluded == |MaintainedInstants(incident, windows, outage)|
    ensures excluded <= outage.to - outage.from
  {
    var covered: seq<Interval> := [];
    for i := 0 to |windows|
      invariant forall t :: InSome(t, covered) <==>
                  Within(t, outage) && exists m :: m in windows[..i] && m.Covers(incident.alert) && m.Active(t)
    {
      PrefixStep(windows, i);
      assert windows[i] in windows;
      if windows[i].Covers(incident.alert) {
        var more := Occurrences(windows[i], outage);
        forall t ensures InSome(t, covered + more) <==> InSome(t, covered) || InSome(t, more) {
          InSomeConcat(t, covered, more);
        }
        covered := covered + more;
      }
    }
    assert windows[..|windows|] == windows;
    excluded := TotalDuration(covered);
    assert Union(covered) == MaintainedInstants(incident, windows, outage) by {
      forall t ensures t in Union(covered) <==> t in MaintainedInstants(incident, windows, outage) {
        UnionContains(covered, t);
      }
    }
    SubsetSize(MaintainedInstants(incident, windows, outage), Instants(outage));
  }

  lemma InSomeConcat(t: Time, xs: seq<Interval>, ys: seq<Interval>)
    ensures InSome(t, xs + ys) <==> InSome(t, xs) || InSome(t, ys)
  {
    var both := xs + ys;
    if InSome(t, xs) {
      var k :| 0 <= k < |xs| && Within(t, xs[k]);
      assert Within(t, both[k]);
    }
    if InSome(t, ys) {
      var k :| 0 <= k < |ys| && Within(t, ys[k]);
      assert Within(t, both[|xs| + k]);
    }
  }

  /** What has been added up for a line so far. */
  datatype Sums = Sums(downtime: int, maintenance: int, outages: nat)

  ghost predicate Adds(sums: Sums, incidents: seq<Incident>, windows: seq<Maintenance>, key: Key, from: Time,
                       to: Time) {
    && sums.downtime + sums.maintenance == OutageTime(incidents, key, from, to)
    && sums.maintenance == MaintenanceTime(incidents, windows, key, from, to) >= 0
    && sums.downtime >= 0
    && sums.outages == OutageCount(incidents, key, from, to)
  }

  lemma AddsStep(sums: Sums, incidents: seq<Incident>, i: nat, windows: seq<Maintenance>, key: Key, from: Time,
                 to: Time)
    requires i < |incidents| && Adds(sums, incidents[..i], windows, key, from, to)
    ensures !Counted(incidents[i], key, from, to) ==> Adds(sums, incidents[..i + 1], windows, key, from, to)
    ensures Counted(incidents[i], key, from, to) ==>
              var outage := OutageWithin(incidents[i], from, to);
              var excluded := |MaintainedInstants(incidents[i], windows, outage)|;
              excluded <= outage.to - outage.from ==>
                Adds(Sums(sums.downtime + (outage.to - outage.from - excluded), sums.maintenance + excluded,
                          sums.outages + 1),
                     incidents[..i + 1], windows, key, from, to)
  {
    assert incidents[..i + 1][..i] == incidents[..i];
  }

  /** One pass over the ledger adds up every line. */
  method Collect(incidents: seq<Incident>, windows: seq<Maintenance>, keys: set<Key>, from: Time, to: Time)
    returns (sums: map<Key, Sums>)
    requires forall m | m in windows :: m.Validate()
    ensures sums.Keys == keys && forall key | key in keys :: Adds(sums[key], incidents, windows, key, from, to)
  {
    sums := map key | key in keys :: Sums(0, 0, 0);
    for i := 0 to |incidents|
      invariant sums.Keys == keys && forall key | key in keys :: Adds(sums[key], incidents[..i], windows, key, from, to)
    {
      var incident := incidents[i];
      forall key | key in keys
        ensures !Counted(incident, key, from, to) ==> Adds(sums[key], incidents[..i + 1], windows, key, from, to)
      {
        AddsStep(sums[key], incidents, i, windows, key, from, to);
      }
      if incident.kind != KindDown || incident.alert.prober != "" {
        continue;
      }
      var key := if incident.alert.component != "" then ComponentKey(incident.alert.component)
                 else CheckKey(incident.alert.check);
      var outage := OutageWithin(incident, from, to);
      if key !in sums || !(outage.to > outage.from) {
        continue;
      }
      var excluded := Excluded(incident, windows, outage);
      var s := sums[key];
      AddsStep(s, incidents, i, windows, key, from, to);
      var downtime := s.downtime + (outage.to - outage.from - excluded);
      sums := sums[key := Sums(downtime, s.maintenance + excluded, s.outages + 1)];
    }
    assert incidents[..|incidents|] == incidents;
  }

  // ----- the sums as numbers of instants -----

  /** An outage of what the line is about: of the check, or of the component. */
  predicate OutageOf(incident: Incident, key: Key) {
    && incident.kind == KindDown && incident.alert.prober == ""
    && match key
       case CheckKey(name) => incident.alert.component == "" && incident.alert.check == name
       case ComponentKey(name) => incident.alert.component == name && name != ""
  }

  predicate OpenAt(incident: Incident, t: Time) {
    incident.openedAt <= t && (incident.active || t < incident.resolvedAt)
  }

  ghost predicate DownAt(incidents: seq<Incident>, key: Key, t: Time) {
    exists i :: 0 <= i < |incidents| && OutageOf(incidents[i], key) && OpenAt(incidents[i], t)
  }

  /** Down, but a window that concerns the outage is on. */
  ghost predicate ExcusedAt(incidents: seq<Incident>, windows: seq<Maintenance>, key: Key, t: Time) {
    exists i :: 0 <= i < |incidents| && OutageOf(incidents[i], key) && OpenAt(incidents[i], t)
                && Excuses(windows, incidents[i].alert, t)
  }

  ghost predicate Excuses(windows: seq<Maintenance>, a: Alert, t: Time) {
    exists m :: m in windows && SuppressionLaws.WindowHolds(m, a, t)
  }

  ghost predicate OpenWithin(incident: Incident, from: Time, to: Time) {
    exists t :: from <= t < to && OpenAt(incident, t)
  }

  ghost function DownInstants(incidents: seq<Incident>, key: Key, from: Time, to: Time): set<Time> {
    set t: Time | from <= t < to && DownAt(incidents, key, t)
  }

  ghost function ExcusedInstants(incidents: seq<Incident>, windows: seq<Maintenance>, key: Key, from: Time,
                                 to: Time): set<Time> {
    set t: Time | from <= t < to && ExcusedAt(incidents, windows, key, t)
  }

  /** The numbers of the outages that are open at some instant of the period. */
  ghost function OpenOutages(incidents: seq<Incident>, key: Key, from: Time, to: Time): set<int> {
    set i | 0 <= i < |incidents| && OutageOf(incidents[i], key) && OpenWithin(incidents[i], from, to)
  }

  /** The clipped outage holds exactly the instants at which the outage is open. */
  lemma OutageExactly(incident: Incident, key: Key, from: Time, to: Time, clock: Time)
    requires Timed([incident], clock)
    ensures Counted(incident, key, from, to) <==> OutageOf(incident, key) && OpenWithin(incident, from, to)
    ensures Counted(incident, key, from, to) ==>
              var outage := OutageWithin(incident, from, to);
              ZERO_TIME < outage.from < outage.to
    ensures !OpenWithin(incident, from, to) ==> forall t | from <= t < to :: !OpenAt(incident, t)
    ensures Counted(incident, key, from, to) ==>
              forall t :: t in Instants(OutageWithin(incident, from, to)) <==> from <= t < to && OpenAt(incident, t)
  {
    assert [incident][0] == incident;
    var outage := OutageWithin(incident, from, to);
    if Counted(incident, key, from, to) {
      assert OpenAt(incident, outage.from);
    }
  }

  lemma DownMore(front: seq<Incident>, last: Incident, windows: seq<Maintenance>, key: Key, t: Time)
    ensures DownAt(front + [last], key, t) <==> DownAt(front, key, t) || (OutageOf(last, key) && OpenAt(last, t))
    ensures ExcusedAt(front + [last], windows, key, t)
            <==> ExcusedAt(front, windows, key, t)
                 || (OutageOf(last, key) && OpenAt(last, t) && Excuses(windows, last.alert, t))
  {
    var all := front + [last];
    assert all[|front|] == last;
    if DownAt(front, key, t) {
      var i :| 0 <= i < |front| && OutageOf(front[i], key) && OpenAt(front[i], t);
      assert all[i] == front[i];
    }
    if ExcusedAt(front, windows, key, t) {
      var i :| 0 <= i < |front| && OutageOf(front[i], key) && OpenAt(front[i], t)
               && Excuses(windows, front[i].alert, t);
      assert all[i] == front[i];
    }
  }

  lemma OutagesMore(front: seq<Incident>, last: Incident, key: Key, from: Time, to: Time)
    ensures |OpenOutages(front + [last], key, from, to)|
            == |OpenOutages(front, key, from, to)|
               + if OutageOf(last, key) && OpenWithin(last, from, to) then 1 else 0
  {
    hide OpenWithin, OutageOf;
    var all := front + [last];
    var more := if OutageOf(last, key) && OpenWithin(last, from, to) then {|front|} else {};
    assert OpenOutages(all, key, from, to) == OpenOutages(front, key, from, to) + more;
  }

  /** No two outages of a line are open at once. */
  lemma OutagesApart(front: seq<Incident>, last: Incident, subjects: set<string>, clock: Time, key: Key, t: Time)
    requires Timed(front + [last], clock) && OutagesDisjoint(front + [last], subjects) && key.name in subjects
    requires OutageOf(last, key) && OpenAt(last, t)
    ensures !DownAt(front, key, t)
  {
    var all := front + [last];
    assert all[|front|] == last;
    forall i | 0 <= i < |front| && OutageOf(front[i], key) ensures !OpenAt(front[i], t) {
      assert all[i] == front[i];
    }
  }

  lemma InstantsSize(i: Interval)
    requires ZERO_TIME <= i.from <= i.to
    ensures |Instants(i)| == i.to - i.from
  {
  }

  lemma MaintainedExactly(incident: Incident, windows: seq<Maintenance>, outage: Interval)
    ensures forall t :: t in MaintainedInstants(incident, windows, outage)
                        <==> t in Instants(outage) && Excuses(windows, incident.alert, t)
  {
    hide Instants, SuppressionLaws.WindowHolds;
    forall t ensures (exists m :: m in windows && m.Covers(incident.alert) && m.Active(t))
                     <==> Excuses(windows, incident.alert, t)
    {
      forall m | m in windows
        ensures m.Active(t) && m.Covers(incident.alert) <==> SuppressionLaws.WindowHolds(m, incident.alert, t)
      {
        SuppressionLaws.WindowExactly(m, incident.alert, t);
      }
    }
  }

  /** What is added up for a line counts instants, and the outages that have one. */
  lemma {:induction false} SumsAreInstants(incidents: seq<Incident>, windows: seq<Maintenance>, subjects: set<string>,
                                           clock: Time, key: Key, from: Time, to: Time)
    requires Timed(incidents, clock) && OutagesDisjoint(incidents, subjects) && key.name in subjects
    ensures OutageTime(incidents, key, from, to) == |DownInstants(incidents, key, from, to)|
    ensures MaintenanceTime(incidents, windows, key, from, to) == |ExcusedInstants(incidents, windows, key, from, to)|
    ensures OutageCount(incidents, key, from, to) == |OpenOutages(incidents, key, from, to)|
  {
    hide Timed, OutagesDisjoint, DownInstants, ExcusedInstants, OpenOutages, Counted, OutageWithin, OutageOf,
         OpenWithin, MaintainedInstants;
    if incidents == [] {
      NoInstants(windows, key, from, to);
    } else {
      var front, last := incidents[..|incidents| - 1], incidents[|incidents| - 1];
      assert incidents == front + [last];
      FrontOutages(front, last, subjects, clock);
      SumsAreInstants(front, windows, subjects, clock, key, from, to);
      OutagesMore(front, last, key, from, to);
      InstantsStep(front, last, windows, subjects, clock, key, from, to);
      OutageExactly(last, key, from, to, clock);
    }
  }

  lemma NoInstants(windows: seq<Maintenance>, key: Key, from: Time, to: Time)
    ensures |DownInstants([], key, from, to)| == |ExcusedInstants([], windows, key, from, to)| == 0
    ensures |OpenOutages([], key, from, to)| == 0
  {
    assert DownInstants([], key, from, to) == ExcusedInstants([], windows, key, from, to) == {};
    assert OpenOutages([], key, from, to) == {};
  }

  lemma FrontOutages(front: seq<Incident>, last: Incident, subjects: set<string>, clock: Time)
    requires Timed(front + [last], clock) && OutagesDisjoint(front + [last], subjects)
    ensures Timed(front, clock) && OutagesDisjoint(front, subjects) && Timed([last], clock)
  {
    var all := front + [last];
    assert all[|front|] == last && forall i | 0 <= i < |front| :: all[i] == front[i];
  }

  /** One more outage adds its own instants. */
  lemma InstantsStep(front: seq<Incident>, last: Incident, windows: seq<Maintenance>, subjects: set<string>,
                     clock: Time, key: Key, from: Time, to: Time)
    requires Timed(front + [last], clock) && OutagesDisjoint(front + [last], subjects) && key.name in subjects
    ensures var all, outage := front + [last], OutageWithin(last, from, to);
            && |DownInstants(all, key, from, to)|
               == |DownInstants(front, key, from, to)|
                  + (if Counted(last, key, from, to) then outage.to - outage.from else 0)
            && |ExcusedInstants(all, windows, key, from, to)|
               == |ExcusedInstants(front, windows, key, from, to)|
                  + if Counted(last, key, from, to) then |MaintainedInstants(last, windows, outage)| else 0
  {
    hide DownAt, ExcusedAt, Excuses, Instants, MaintainedInstants, OutageOf, OpenAt, OpenWithin, Timed, OutagesDisjoint,
         Counted, OutageWithin;
    var all, outage := front + [last], OutageWithin(last, from, to);
    FrontOutages(front, last, subjects, clock);
    OutageExactly(last, key, from, to, clock);
    forall t
      ensures DownAt(all, key, t) <==> DownAt(front, key, t) || (OutageOf(last, key) && OpenAt(last, t))
      ensures ExcusedAt(all, windows, key, t)
              <==> ExcusedAt(front, windows, key, t)
                   || (OutageOf(last, key) && OpenAt(last, t) && Excuses(windows, last.alert, t))
      ensures ExcusedAt(front, windows, key, t) ==> DownAt(front, key, t)
      ensures OutageOf(last, key) && OpenAt(last, t) ==> !DownAt(front, key, t)
    {
      DownMore(front, last, windows, key, t);
      ExcusedIsDown(front, windows, key, t);
      if OutageOf(last, key) && OpenAt(last, t) {
        OutagesApart(front, last, subjects, clock, key, t);
      }
    }
    if Counted(last, key, from, to) {
      InstantsSize(outage);
      MaintainedExactly(last, windows, outage);
      assert DownInstants(all, key, from, to) == DownInstants(front, key, from, to) + Instants(outage);
      assert ExcusedInstants(all, windows, key, from, to)
          == ExcusedInstants(front, windows, key, from, to) + MaintainedInstants(last, windows, outage);
    } else {
      assert DownInstants(all, key, from, to) == DownInstants(front, key, from, to);
      assert ExcusedInstants(all, windows, key, from, to) == ExcusedInstants(front, windows, key, from, to);
    }
  }

  lemma ExcusedIsDown(incidents: seq<Incident>, windows: seq<Maintenance>, key: Key, t: Time)
    ensures ExcusedAt(incidents, windows, key, t) ==> DownAt(incidents, key, t)
  {
  }

  /**
   * What the report promises of a line: downtime and maintenance time together are the instants of the period at
   * which some outage of its subject is open, the maintenance time those at which a window that concerns the outage
   * is on, and the outages those that are open at some instant.
   */
  ghost predicate Reports(line: Line, incidents: seq<Incident>, windows: seq<Maintenance>, from: Time, to: Time) {
    && line.from == from && line.to == to
    && line.downtime >= 0
    && line.downtime + line.maintenance == |DownInstants(incidents, line.key, from, to)|
    && line.maintenance == |ExcusedInstants(incidents, windows, line.key, from, to)|
    && line.outages == |OpenOutages(incidents, line.key, from, to)|
    && line.downtime + line.maintenance <= (if from < to then to - from else 0)
    && 0.0 <= line.uptime <= 1.0
    && line.uptime == if from < to then 1.0 - line.downtime as real / (to - from) as real else 1.0
  }

  /**
   * Downtime and maintenance time of a line add up to at most the period; so the uptime lies between 0 and 1 without
   * having to be clamped.
   */
  method UptimeReport(keys: seq<Key>, incidents: seq<Incident>, windows: seq<Maintenance>, ghost subjects: set<string>,
                      from: Time, until: Time, now: Time)
    returns (report: seq<Line>)
    requires forall m | m in windows :: m.Validate()
    requires Timed(incidents, now) && OutagesDisjoint(incidents, subjects)
    requires forall key | key in keys :: key.name in subjects
    ensures |report| == |keys|
    ensures forall k | 0 <= k < |keys| ::
              && report[k].key == keys[k]
              && Reports(report[k], incidents, windows, from, if until > now then now else until)
  {
    hide Timed, OutagesDisjoint, DownInstants, ExcusedInstants, OpenOutages;
    var to := if until > now then now else until;
    var sums := Collect(incidents, windows, (set key | key in keys), from, to);
    var period := to - from;
    report := [];
    for k := 0 to |keys|
      invariant |report| == k
      invariant forall j | 0 <= j < k :: report[j].key == keys[j] && Reports(report[j], incidents, windows, from, to)
    {
      var key := keys[k];
      var s := sums[key];
      ClippedWithin(incidents, subjects, now, key, from, to);
      SumsAreInstants(incidents, windows, subjects, now, key, from, to);
      var uptime := 1.0;
      if period > 0 {
        Share(s.downtime, period);
        uptime := 1.0 - s.downtime as real / period as real;
        if uptime < 0.0 {
          uptime := 0.0;
        }
      }
      report := report + [Line(key, from, to, uptime, s.downtime, s.maintenance, s.outages)];
    }
  }

  lemma ClippedWithin(incidents: seq<Incident>, subjects: set<string>, clock: Time, key: Key, from: Time, to: Time)
    requires Timed(incidents, clock) && OutagesDisjoint(incidents, subjects) && key.name in subjects
    ensures 0 <= OutageTime(incidents, key, from, to) <= if from < to then to - from else 0
  {
    OutageTimeBounded(incidents, subjects, clock, key, from, to, if from < to then to else from);
  }

  lemma Share(part: int, whole: int)
    requires 0 <= part <= whole && whole > 0
    ensures 0.0 <= part as real / whole as real <= 1.0
  {
  }
}
