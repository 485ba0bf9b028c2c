// When an alert is held back (internal/coordinator/lifecycle.go, internal/coordinator/uptime.go).

/** Windows, silences and selectors, said about their fields. */
module SuppressionLaws {
  import opened Types
  import opened Alerts
  import opened Windows
  import opened Intervals
  import opened Incidents

  /** The repetition number `k` of a window; one that does not repeat has only the number 0. */
  predicate Occurrence(m: Maintenance, k: nat, t: Time) {
    var shift := if m.repeat.Every? then k * m.repeat.period else 0;
    && (k == 0 || (m.repeat.Every? && m.repeat.period > 0))
    && m.startsAt + shift <= t < m.endsAt + shift
  }

  ghost predicate Occurs(m: Maintenance, t: Time) {
    exists k: nat :: Occurrence(m, k, t)
  }

  /** A window is active exactly during its repetitions, whether or not it passes validation. */
  lemma ActiveExactly(m: Maintenance, t: Time)
    ensures m.Active(t) <==> Occurs(m, t)
  {
    if m.Recurring() {
      RepeatsExactly(m, t);
    } else if Occurs(m, t) {
      var k: nat :| Occurrence(m, k, t);
      assert k == 0;
    } else {
      assert !Occurrence(m, 0, t);
    }
  }

  lemma RepeatsExactly(m: Maintenance, t: Time)
    requires m.Recurring()
    ensures m.Active(t) <==> Occurs(m, t)
  {
    var period := m.repeat.period;
    if t >= m.startsAt {
      var q := (t - m.startsAt) / period;
      assert q >= 0;
      if Occurs(m, t) {
        var k: nat :| Occurrence(m, k, t);
        LaterRepetition(t - m.startsAt, k, period);
        assert k * period <= q * period;
      }
      assert m.Active(t) <==> Occurrence(m, q, t);
    } else if Occurs(m, t) {
      var k: nat :| Occurrence(m, k, t);
      Multiples(0, k, period);
    }
  }

  lemma LaterRepetition(since: int, k: int, period: int)
    requires period > 0 && k * period <= since
    ensures k * period <= since / period * period
  {
    var q := since / period;
    if q < k {
      Multiples(q + 1, k, period);
    } else {
      Multiples(k, q, period);
    }
  }

  /** Nothing is named, or something the alert is about is. */
  ghost predicate Concerns(a: Alert, checks: seq<string>, components: seq<string>, probers: seq<string>) {
    || |checks| + |components| + |probers| == 0
    || (exists i :: 0 <= i < |checks| && (checks[i] == a.check || Includes(a.members, checks[i])))
    || Includes(components, a.component)
    || Includes(probers, a.prober)
  }

  ghost predicate Includes(names: seq<string>, name: string) {
    exists i :: 0 <= i < |names| && names[i] == name
  }

  lemma ConcernsExactly(a: Alert, checks: seq<string>, components: seq<string>, probers: seq<string>)
    ensures AlertMatches(a, checks, components, probers) <==> Concerns(a, checks, components, probers)
  {
    if m :| m in a.members && m in checks {
      var i :| 0 <= i < |checks| && checks[i] == m;
      assert Includes(a.members, checks[i]);
    }
    if a.check in checks {
      var i :| 0 <= i < |checks| && checks[i] == a.check;
    }
    if i :| 0 <= i < |checks| && Includes(a.members, checks[i]) {
      assert checks[i] in a.members && checks[i] in checks;
    }
  }

  ghost predicate WindowHolds(m: Maintenance, a: Alert, t: Time) {
    Occurs(m, t) && Concerns(a, m.checks, m.components, m.probers)
  }

  predicate Lasts(s: Silence, t: Time) {
    !s.cancelled && s.startsAt <= t < s.endsAt
  }

  ghost predicate SilenceHolds(s: Silence, a: Alert, t: Time) {
    Lasts(s, t) && Concerns(a, s.checks, s.components, s.probers)
  }

  /** Some window or silence that concerns the alert is on. */
  ghost predicate Muted(a: Alert, windows: seq<Maintenance>, silences: seq<Silence>, t: Time) {
    || (exists m :: m in windows && WindowHolds(m, a, t))
    || (exists s :: s in silences && SilenceHolds(s, a, t))
  }

  /** A window of this name holds the alert back. */
  ghost predicate WindowIsOn(name: string, a: Alert, windows: seq<Maintenance>, t: Time) {
    exists m :: m in windows && m.name == name && WindowHolds(m, a, t)
  }

  ghost predicate SilenceIsOn(id: nat, silences: seq<Silence>, t: Time) {
    exists s :: s in silences && s.id == id && Lasts(s, t)
  }

  /** What suppressed the incident is still on: a window of the recorded name, or the silence of that number. */
  ghost predicate StillHeld(incident: Incident, windows: seq<Maintenance>, silences: seq<Silence>, t: Time) {
    || (incident.maintenance != "" && WindowIsOn(incident.maintenance, incident.alert, windows, t))
    || (incident.silenceId != 0 && SilenceIsOn(incident.silenceId, silences, t))
  }

  /** A window and a silence that hold the alert back; "" and 0 if there is none. */
  ghost predicate Holders(a: Alert, name: string, id: nat, windows: seq<Maintenance>, silences: seq<Silence>, t: Time) {
    && (name != "" ==> WindowIsOn(name, a, windows, t))
    && (name == "" && (forall m | m in windows :: m.name != "") ==> forall m | m in windows :: !WindowHolds(m, a, t))
    && (id != 0 ==> exists s :: s in silences && s.id == id && SilenceHolds(s, a, t))
    && (id == 0 && (forall s | s in silences :: s.id != 0) ==> forall s | s in silences :: !SilenceHolds(s, a, t))
  }

  /** An active incident whose suppression is over. */
  ghost predicate Ends(incident: Incident, windows: seq<Maintenance>, silences: seq<Silence>, t: Time) {
    incident.active && incident.suppressed && !StillHeld(incident, windows, silences, t)
  }

  lemma WindowExactly(m: Maintenance, a: Alert, t: Time)
    ensures m.Active(t) && m.Covers(a) <==> WindowHolds(m, a, t)
  {
    ActiveExactly(m, t);
    ConcernsExactly(a, m.checks, m.components, m.probers);
  }

  lemma SilenceExactly(s: Silence, a: Alert, t: Time)
    ensures s.Active(t) <==> Lasts(s, t)
    ensures s.Active(t) && s.Covers(a) <==> SilenceHolds(s, a, t)
  {
    ConcernsExactly(a, s.checks, s.components, s.probers);
  }
}
