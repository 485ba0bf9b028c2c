// Maintenance windows, silences and selectors
// (internal/coordinator/operations.go, internal/coordinator/lifecycle.go, internal/coordinator/uptime.go).

/** When alerts are held back, and which. */
module Windows {
  import opened Types
  import opened Alerts

  /** The text of a window's repeat period: absent, not a duration, or a duration. */
  datatype Repeat = Never | Unparsable | Every(period: int)

  datatype Maintenance = Maintenance(
    name: string,
    startsAt: Time,
    endsAt: Time,
    repeat: Repeat,
    checks: seq<string>,
    components: seq<string>,
    probers: seq<string>)
  {
    predicate Recurring() {
      repeat.Every? && repeat.period > 0
    }

    predicate Active(now: Time) {
      if now < startsAt then false
      else if Recurring() then now - (now - startsAt) / repeat.period * repeat.period < endsAt
      else now < endsAt
    }

    predicate Validate() {
      && name != ""
      && startsAt != ZERO_TIME && startsAt < endsAt
      && (repeat != Never ==> Recurring() && endsAt - startsAt < repeat.period)
    }

    predicate Covers(a: Alert) {
      AlertMatches(a, checks, components, probers)
    }
  }

  datatype Silence = Silence(
    id: nat,
    startsAt: Time,
    endsAt: Time,
    checks: seq<string>,
    components: seq<string>,
    probers: seq<string>,
    cancelled: bool)
  {
    predicate Active(now: Time) {
      !cancelled && startsAt <= now < endsAt
    }

    predicate Covers(a: Alert) {
      AlertMatches(a, checks, components, probers)
    }
  }

  /** A selector without any name matches everything. */
  predicate AlertMatches(a: Alert, checks: seq<string>, components: seq<string>, probers: seq<string>) {
    || (checks == [] && components == [] && probers == [])
    || a.check in checks
    || (exists m :: m in a.members && m in checks)
    || a.component in components
    || a.prober in probers
  }

  predicate SelectorMatches(a: Alert, checks: seq<string>, components: seq<string>, probers: seq<string>,
                            kinds: seq<Kind>) {
    (kinds == [] || a.kind in kinds) && AlertMatches(a, checks, components, probers)
  }
}

/** Intervals of time and their measure. */
module Intervals {
  import opened Types
  import opened Windows

  /** The instants from `from` up to, but not including, `to`. */
  datatype Interval = Interval(from: Time, to: Time)

  function Clip(i: Interval, from: Time, to: Time): Interval {
    Interval(if i.from < from then from else i.from, if i.to > to then to else i.to)
  }

  ghost predicate Within(t: Time, i: Interval) {
    i.from <= t < i.to
  }

  ghost predicate InSome(t: Time, intervals: seq<Interval>) {
    exists k :: 0 <= k < |intervals| && Within(t, intervals[k])
  }

  lemma InSomeAppend(t: Time, intervals: seq<Interval>, i: Interval)
    ensures InSome(t, intervals + [i]) <==> InSome(t, intervals) || Within(t, i)
  {
    var more := intervals + [i];
    if Within(t, i) {
      assert Within(t, more[|intervals|]);
    }
    if InSome(t, intervals) {
      var k :| 0 <= k < |intervals| && Within(t, intervals[k]);
      assert Within(t, more[k]);
    }
  }

  /** The one repetition that an instant can fall into. */
  lemma Repetition(start: Time, period: int, t: Time, k: nat)
    requires period > 0 && start + k * period <= t < start + (k + 1) * period
    ensures (t - start) / period == k
  {
    var q, r := (t - start) / period, (t - start) % period;
    assert t - start == q * period + r;
    if q < k {
      Multiples(q + 1, k, period);
    } else if q > k {
      Multiples(k + 1, q, period);
    }
  }

  lemma Multiples(a: int, b: int, period: int)
    requires a <= b && period > 0
    ensures a * period <= b * period
  {
  }

  /** A recurring window is active exactly during its repetitions. */
  lemma ActiveDuring(m: Maintenance, t: Time, k: nat)
    requires m.Validate() && m.Recurring()
    requires var at := m.startsAt + k * m.repeat.period; at <= t < at + m.repeat.period
    ensures m.Active(t) <==> t < m.startsAt + k * m.repeat.period + (m.endsAt - m.startsAt)
  {
    assert (k + 1) * m.repeat.period == k * m.repeat.period + m.repeat.period;
    Repetition(m.startsAt, m.repeat.period, t, k);
    assert k * m.repeat.period >= 0;
  }

  /** The parts of `span` during which the window is active, and no others. */
  method Occurrences(m: Maintenance, span: Interval) returns (out: seq<Interval>)
    requires m.Validate()
    ensures forall t :: InSome(t, out) <==> Within(t, span) && m.Active(t)
  {
    var length := m.endsAt - m.startsAt;
    if !m.Recurring() {
      var part := Clip(Interval(m.startsAt, m.endsAt), span.from, span.to);
      if part.to > part.from {
        assert forall t :: Within(t, part) <==> InSome(t, [part]) by {
          assert forall t :: Within(t, [part][0]) <==> Within(t, part);
        }
        return [part];
      }
      return [];
    }
    var every := m.repeat.period;
    var start := m.startsAt;
    ghost var k: nat := 0;
    if span.from > start {
      k := (span.from - start) / every;
      start := start + (span.from - start) / every * every;
    }
    out := [];
    while start < span.to
      invariant start == m.startsAt + k * every
      invariant forall t :: InSome(t, out) <==> Within(t, span) && m.Active(t) && t < start
      decreases span.to - start
    {
      var part := Clip(Interval(start, start + length), span.from, span.to);
      forall t | Within(t, span) && start <= t < start + every
        ensures m.Active(t) <==> Within(t, part)
      {
        ActiveDuring(m, t, k);
      }
      ghost var before := out;
      if part.to > part.from {
        out := out + [part];
      }
      forall t ensures InSome(t, out) <==> Within(t, span) && m.Active(t) && t < start + every {
        InSomeAppend(t, before, part);
      }
      k := k + 1;
      start := start + every;
    }
  }
}
