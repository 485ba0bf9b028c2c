// Replay protection of probe requests (internal/prober/prober.go, internal/wire/wire.go).

/** A request as it arrives: `authentic` and `checkValid` stand for the signature and the check's own validation. */
module Requests {
  import opened Types

  const MAX_CLOCK_SKEW := 120_000_000_000

  datatype Request = Request(
    id: string,
    prober: string,
    issuedAt: Time,
    expiresAt: Time,
    checkValid: bool,
    authentic: bool)

  /** `OpenRequest`: a clock that reads the zero time switches the tests against it off. */
  predicate Opens(r: Request, now: Time) {
    && r.authentic
    && !(now != ZERO_TIME && now > r.expiresAt)
    && r.prober != ""
    && !(now != ZERO_TIME && r.issuedAt > now + MAX_CLOCK_SKEW)
    && r.issuedAt != ZERO_TIME && r.expiresAt > r.issuedAt
    && r.checkValid
  }

  /** What is remembered after pruning at `now`. */
  function Pruned(seen: map<string, Time>, now: Time): map<string, Time> {
    map id | id in seen && now <= seen[id] :: seen[id]
  }
}

/** The prober's memory. */
module Prober {
  import opened Types
  import opened Requests

  datatype Answer = Rejected | AnotherProber | AlreadyUsed | Executed

  class Prober {
    const name: string
    var seenRequests: map<string, Time>
    /** The requests executed so far, and the latest reading of the clock. */
    ghost var executed: set<Request>
    ghost var clock: Time

    /** What was executed is remembered until it has expired. */
    ghost predicate Valid()
      reads this
    {
      && clock > ZERO_TIME
      && forall r | r in executed :: clock > r.expiresAt || (r.id in seenRequests && seenRequests[r.id] == r.expiresAt)
    }

    constructor (name: string, ghost now: Time)
      requires now > ZERO_TIME
      ensures Valid() && executed == {} && seenRequests == map[] && clock == now && this.name == name
    {
      this.name, seenRequests := name, map[];
      executed, clock := {}, now;
    }

    /** Forgets what has expired, then refuses what it remembers. */
    method AcceptRequest(id: string, expires: Time, now: Time) returns (accepted: bool)
      modifies this`seenRequests
      ensures accepted <==> id !in Pruned(old(seenRequests), now)
      ensures var kept := Pruned(old(seenRequests), now);
              seenRequests == if accepted then kept[id := expires] else kept
    {
      var rest := seenRequests.Keys;
      ghost var before := seenRequests;
      while rest != {}
        invariant rest <= before.Keys
        invariant seenRequests == map i | i in before && (i in rest || now <= before[i]) :: before[i]
      {
        var seen: string :| seen in rest;
        if now > seenRequests[seen] {
          seenRequests := seenRequests - {seen};
        }
        rest := rest - {seen};
      }
      assert seenRequests == Pruned(before, now);
      if id in seenRequests {
        return false;
      }
      seenRequests := seenRequests[id := expires];
      return true;
    }

    /**
     * One request; the clock is read once to open it and once more to look it up. It is executed exactly if it
     * opens, is for this prober, and its identifier is not remembered; so a request that was executed before is
     * executed again exactly if it expires between the two readings.
     */
    method HandleProbe(r: Request, openedAt: Time, now: Time) returns (answer: Answer)
      requires Valid() && clock <= openedAt <= now
      modifies this
      ensures Valid() && clock == now
      ensures executed == old(executed) + if answer == Executed then {r} else {}
      ensures answer == Rejected <==> !Opens(r, openedAt)
      ensures answer == AnotherProber <==> Opens(r, openedAt) && r.prober != name
      ensures answer == AlreadyUsed <==>
                Opens(r, openedAt) && r.prober == name && r.id in Pruned(old(seenRequests), now)
      ensures seenRequests == if !Opens(r, openedAt) || r.prober != name then old(seenRequests)
                              else if answer == Executed then Pruned(old(seenRequests), now)[r.id := r.expiresAt]
                              else Pruned(old(seenRequests), now)
      ensures answer == Executed <==>
                && r.authentic && r.checkValid && r.prober == name != ""
                && ZERO_TIME != r.issuedAt < r.expiresAt
                && r.issuedAt - 120 * 1_000_000_000 <= openedAt <= r.expiresAt
                && (r.id in old(seenRequests) ==> old(seenRequests)[r.id] < now)
      ensures answer == Rejected <==>
                || !r.authentic || !r.checkValid || r.prober == ""
                || r.issuedAt == ZERO_TIME || r.expiresAt <= r.issuedAt
                || openedAt < r.issuedAt - 120 * 1_000_000_000 || r.expiresAt < openedAt
      ensures r in old(executed) && r.prober == name && Opens(r, openedAt) ==>
                (answer == Executed <==> openedAt <= r.expiresAt < now)
      ensures r in old(executed) && answer == Executed ==> openedAt <= r.expiresAt < now
    {
      ghost var last := clock;
      clock := now;
      if !Opens(r, openedAt) {
        return Rejected;
      }
      if r.prober != name {
        return AnotherProber;
      }
      var accepted := AcceptRequest(r.id, r.expiresAt, now);
      if !accepted {
        return AlreadyUsed;
      }
      executed := executed + {r};
      return Executed;
    }
  }

  /** The exception occurs: a request that expires between the two readings is executed for a second time. */
  method ExecutedTwice() returns (p: Prober, r: Request, first: Answer, second: Answer)
    ensures fresh(p) && p.Valid()
    ensures first == Executed && second == Executed
  {
    p := new Prober("p", 1);
    r := Request("id", "p", 4, 10, true, true);
    first := p.HandleProbe(r, 5, 5);
    second := p.HandleProbe(r, 10, 11);
  }

  /** What arrives in a run, with a pause before each request. */
  datatype Arrival = Arrival(request: Request, pause: nat)

  /** When the last of them arrives. */
  function Moment(arrivals: seq<Arrival>, start: Time): Time {
    if arrivals == [] then start
    else Moment(arrivals[..|arrivals| - 1], start) + arrivals[|arrivals| - 1].pause
  }

  /** What is remembered after the arrivals, and what has been executed: whatever opened and was not remembered. */
  function Served(name: string, seen: map<string, Time>, arrivals: seq<Arrival>, start: Time)
    : (map<string, Time>, seq<Request>)
  {
    if arrivals == [] then (seen, [])
    else
      var (kept, log) := Served(name, seen, arrivals[..|arrivals| - 1], start);
      var r, now := arrivals[|arrivals| - 1].request, Moment(arrivals, start);
      if !Opens(r, now) || r.prober != name then (kept, log)
      else if r.id in Pruned(kept, now) then (Pruned(kept, now), log)
      else (Pruned(kept, now)[r.id := r.expiresAt], log + [r])
  }

  /**
   * With one reading of the clock for each request, no request is executed twice in any run, although the
   * prober forgets requests that have expired.
   */
  method Serve(p: Prober, arrivals: seq<Arrival>, start: Time) returns (log: seq<Request>)
    requires p.Valid() && p.executed == {} && p.clock <= start
    modifies p
    ensures p.Valid()
    ensures (p.seenRequests, log) == Served(p.name, old(p.seenRequests), arrivals, start)
    ensures forall i, j | 0 <= i < j < |log| :: log[i] != log[j]
    ensures forall r :: r in log <==> r in p.executed
  {
    log := [];
    var now := start;
    for i := 0 to |arrivals|
      invariant p.Valid() && p.clock <= now && now == Moment(arrivals[..i], start)
      invariant (p.seenRequests, log) == Served(p.name, old(p.seenRequests), arrivals[..i], start)
      invariant forall j, k | 0 <= j < k < |log| :: log[j] != log[k]
      invariant forall r :: r in log <==> r in p.executed
    {
      assert arrivals[..i + 1][..i] == arrivals[..i];
      now := now + arrivals[i].pause;
      var answer := p.HandleProbe(arrivals[i].request, now, now);
      if answer == Executed {
        log := log + [arrivals[i].request];
      }
    }
    assert arrivals[..|arrivals|] == arrivals;
  }
}
