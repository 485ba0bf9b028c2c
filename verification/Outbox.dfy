// The durable delivery queue as a value (internal/coordinator/delivery.go).

/** Exponential backoff. */
module Backoff {
  newtype int64 = x: int | -0x8000_0000_0000_0000 <= x < 0x8000_0000_0000_0000

  ghost function Pow2(n: nat): nat {
    if n == 0 then 1 else 2 * Pow2(n - 1)
  }

  /** The wait after the given number of failed attempts: doubled each time, up to the maximum. */
  ghost function Delay(initial: int, maximum: int, attempts: nat): int {
    var doubled := initial * Pow2(if attempts == 0 then 0 else attempts - 1);
    if doubled < maximum then doubled else maximum
  }

  lemma {:induction false} Pow2Monotone(m: nat, n: nat)
    requires m <= n
    ensures 1 <= Pow2(m) <= Pow2(n)
    decreases n
  {
    if n > m {
      Pow2Monotone(m, n - 1);
    } else if m > 0 {
      Pow2Monotone(m - 1, m - 1);
    }
  }

  lemma Scaled(initial: int, m: nat, n: nat)
    requires initial > 0 && m <= n
    ensures initial * Pow2(m) <= initial * Pow2(n)
  {
    Pow2Monotone(m, n);
  }

  lemma Doubled(initial: int, m: nat)
    ensures initial * Pow2(m + 1) == 2 * (initial * Pow2(m))
  {
  }

  /** Delays never shrink and never exceed the maximum. */
  lemma DelayMonotone(initial: int, maximum: int, m: nat, n: nat)
    requires 0 < initial <= maximum && m <= n
    ensures 0 < Delay(initial, maximum, m) <= Delay(initial, maximum, n) <= maximum
  {
    var a, b := if m == 0 then 0 else m - 1, if n == 0 then 0 else n - 1;
    Scaled(initial, 0, a);
    Scaled(initial, a, b);
  }

  /**
   * The doubling loop never overflows 64 bits and computes the delay; `rounds`, the number of doublings, is
   * logarithmic because doubling once less stays below the maximum.
   */
  method RetryDelay(initial: int64, maximum: int64, attempts: nat) returns (delay: int64, ghost rounds: nat)
    requires 0 < initial <= maximum
    ensures delay as int == Delay(initial as int, maximum as int, attempts)
    ensures rounds > 0 ==> initial as int * Pow2(rounds - 1) < maximum as int
    ensures rounds < attempts || rounds == 0
  {
    delay, rounds := initial, 0;
    var i: nat := 1;
    while i < attempts && delay < maximum
      invariant 1 <= i && rounds == i - 1
      invariant i <= attempts || i == 1
      invariant 0 < delay <= maximum && delay as int == initial as int * Pow2(i - 1)
      invariant rounds > 0 ==> initial as int * Pow2(rounds - 1) < maximum as int
      decreases attempts - i
    {
      Doubled(initial as int, i - 1);
      Scaled(initial as int, i, attempts - 1);
      if delay > maximum / 2 {
        return maximum, rounds;
      }
      delay := delay * 2;
      i := i + 1;
      rounds := rounds + 1;
    }
    if i < attempts {
      Scaled(initial as int, i - 1, attempts - 1);
    }
    if delay > maximum {
      delay := maximum;
    }
  }
}

/** What was issued to each destination, what was sent, and what is still queued. */
module Outboxes {
  import opened Types
  import opened Sorting
  import opened Alerts

  /** A notification to be tried again; `escalation` and `incidentId` are set on escalations only. */
  datatype Delivery = Delivery(
    id: nat,
    destination: string,
    alert: Alert,
    createdAt: Time,
    nextAttempt: Time,
    attempts: nat,
    lastAttempt: Time,
    escalation: string,
    incidentId: nat)

  /** One notification for one destination; `id` is its number in the outbox, or 0 if it never was queued. */
  datatype Issue = Issue(destination: string, alert: Alert, id: nat, incidentId: nat)

  function Queued(d: Delivery): Issue {
    Issue(d.destination, d.alert, d.id, d.incidentId)
  }

  ghost function Pending(outbox: seq<Delivery>): (r: seq<Issue>)
    ensures |r| == |outbox| && forall i | 0 <= i < |r| :: r[i] == Queued(outbox[i])
  {
    seq(|outbox|, i requires 0 <= i < |outbox| => Queued(outbox[i]))
  }

  /** What concerns one destination, in order. */
  ghost function On(issues: seq<Issue>, destination: string): seq<Issue> {
    if issues == [] then []
    else
      var last := issues[|issues| - 1];
      On(issues[..|issues| - 1], destination) + if last.destination == destination then [last] else []
  }

  /** What has not been cancelled, in order. */
  ghost function Live(issues: seq<Issue>, cancelled: set<nat>): seq<Issue> {
    if issues == [] then []
    else
      var last := issues[|issues| - 1];
      Live(issues[..|issues| - 1], cancelled) + if last.id in cancelled then [] else [last]
  }

  ghost function Ids(outbox: seq<Delivery>): set<nat> {
    set d | d in outbox :: d.id
  }

  ghost predicate Increasing(outbox: seq<Delivery>) {
    forall i, j | 0 <= i < j < |outbox| :: outbox[i].id < outbox[j].id
  }

  /** For every destination: what was sent, then what is pending, is what was issued and not cancelled. */
  ghost predicate Conserved(issued: seq<Issue>, sent: seq<Issue>, outbox: seq<Delivery>, cancelled: set<nat>) {
    forall destination ::
      On(sent, destination) + On(Pending(outbox), destination) == On(Live(issued, cancelled), destination)
  }

  /** The queue's invariant; `next` is the number last handed out. */
  ghost predicate Queue(issued: seq<Issue>, sent: seq<Issue>, outbox: seq<Delivery>, cancelled: set<nat>, next: nat) {
    && Increasing(outbox)
    && (forall d | d in outbox :: 1 <= d.id <= next && d.id !in cancelled)
    && (forall s | s in sent :: s.id <= next && s.id !in Ids(outbox))
    && (forall id | id in cancelled :: 1 <= id <= next)
    && Conserved(issued, sent, outbox, cancelled)
  }

  /** Numbers identify what was queued. */
  ghost predicate Identified(issued: seq<Issue>, next: nat) {
    && (forall x | x in issued :: x.id <= next)
    && (forall i, j | 0 <= i < j < |issued| && issued[i].id != 0 :: issued[i].id != issued[j].id)
  }

  lemma SameIssue(issued: seq<Issue>, next: nat, x: Issue, y: Issue)
    requires Identified(issued, next) && x in issued && y in issued && x.id == y.id != 0
    ensures x == y
  {
    var i :| 0 <= i < |issued| && issued[i] == x;
    var j :| 0 <= j < |issued| && issued[j] == y;
    assert i == j;
  }

  /** What is pending was issued. */
  lemma PendingIssued(issued: seq<Issue>, sent: seq<Issue>, outbox: seq<Delivery>, cancelled: set<nat>, next: nat,
                      d: Delivery)
    requires Queue(issued, sent, outbox, cancelled, next) && d in outbox
    ensures Queued(d) in issued && d.id != 0
  {
    var x := Queued(d);
    var i :| 0 <= i < |outbox| && outbox[i] == d;
    assert Pending(outbox)[i] == x;
    OnMembers(Pending(outbox), x.destination, x);
    var sum := On(sent, x.destination) + On(Pending(outbox), x.destination);
    assert x in sum;
    assert sum == On(Live(issued, cancelled), x.destination);
    OnMembers(Live(issued, cancelled), x.destination, x);
    LiveMembers(issued, cancelled, x);
  }

  lemma {:induction false} OnMembers(xs: seq<Issue>, destination: string, x: Issue)
    ensures x in On(xs, destination) <==> x in xs && x.destination == destination
  {
    if xs != [] {
      var front, last := xs[..|xs| - 1], xs[|xs| - 1];
      OnMembers(front, destination, x);
      assert xs == front + [last];
    }
  }

  lemma {:induction false} LiveMembers(xs: seq<Issue>, cancelled: set<nat>, x: Issue)
    ensures x in Live(xs, cancelled) <==> x in xs && x.id !in cancelled
  {
    if xs != [] {
      var front, last := xs[..|xs| - 1], xs[|xs| - 1];
      LiveMembers(front, cancelled, x);
      assert xs == front + [last];
    }
  }

  /** Neither the next number nor 0 has been cancelled. */
  lemma QueueFresh(issued: seq<Issue>, sent: seq<Issue>, outbox: seq<Delivery>, cancelled: set<nat>, next: nat)
    requires Queue(issued, sent, outbox, cancelled, next)
    ensures next + 1 !in cancelled && 0 !in cancelled
  {
  }

  lemma OnLast(front: seq<Issue>, x: Issue, destination: string)
    ensures On(front + [x], destination) == On(front, destination) + if x.destination == destination then [x] else []
  {
    assert (front + [x])[..|front|] == front;
  }

  lemma {:induction false} OnConcat(xs: seq<Issue>, ys: seq<Issue>, destination: string)
    ensures On(xs + ys, destination) == On(xs, destination) + On(ys, destination)
  {
    hide On;
    OnNone([], destination);
    if ys == [] {
      assert xs + ys == xs;
    } else {
      var front, last := ys[..|ys| - 1], ys[|ys| - 1];
      OnConcat(xs, front, destination);
      OnLast(front, last, destination);
      OnLast(xs + front, last, destination);
      Regroup(xs, front, [last]);
      Regroup(On(xs, destination), On(front, destination), if last.destination == destination then [last] else []);
      assert ys == front + [last];
    }
  }

  lemma OnOne(x: Issue, destination: string)
    ensures On([x], destination) == if x.destination == destination then [x] else []
  {
    assert [x][..0] == [];
  }

  lemma {:induction false} OnNone(xs: seq<Issue>, destination: string)
    requires forall x | x in xs :: x.destination != destination
    ensures On(xs, destination) == []
  {
    if xs != [] {
      OnNone(xs[..|xs| - 1], destination);
    }
  }

  lemma LiveAppend(issued: seq<Issue>, x: Issue, cancelled: set<nat>)
    requires x.id !in cancelled
    ensures Live(issued + [x], cancelled) == Live(issued, cancelled) + [x]
  {
    assert (issued + [x])[..|issued|] == issued;
  }

  /** Cancelling and picking out a destination commute. */
  lemma {:induction false} OnLive(issues: seq<Issue>, cancelled: set<nat>, destination: string)
    ensures On(Live(issues, cancelled), destination) == Live(On(issues, destination), cancelled)
  {
    if issues != [] {
      var front, last := issues[..|issues| - 1], issues[|issues| - 1];
      OnLive(front, cancelled, destination);
      OnConcat(Live(front, cancelled), if last.id in cancelled then [] else [last], destination);
      OnOne(last, destination);
      LiveConcat(On(front, destination), if last.destination == destination then [last] else [], cancelled);
      LiveOne(last, cancelled);
    }
  }

  lemma LiveOne(x: Issue, cancelled: set<nat>)
    ensures Live([x], cancelled) == if x.id in cancelled then [] else [x]
  {
    assert [x][..0] == [];
  }

  lemma LiveLast(front: seq<Issue>, x: Issue, cancelled: set<nat>)
    ensures Live(front + [x], cancelled) == Live(front, cancelled) + if x.id in cancelled then [] else [x]
  {
    assert (front + [x])[..|front|] == front;
  }

  lemma {:induction false} LiveConcat(xs: seq<Issue>, ys: seq<Issue>, cancelled: set<nat>)
    ensures Live(xs + ys, cancelled) == Live(xs, cancelled) + Live(ys, cancelled)
  {
    hide Live;
    LiveAll([], cancelled);
    if ys == [] {
      assert xs + ys == xs;
    } else {
      var front, last := ys[..|ys| - 1], ys[|ys| - 1];
      LiveConcat(xs, front, cancelled);
      LiveLast(front, last, cancelled);
      LiveLast(xs + front, last, cancelled);
      Regroup(xs, front, [last]);
      Regroup(Live(xs, cancelled), Live(front, cancelled), if last.id in cancelled then [] else [last]);
      assert ys == front + [last];
    }
  }

  lemma {:induction false} LiveAll(issues: seq<Issue>, cancelled: set<nat>)
    requires forall x | x in issues :: x.id !in cancelled
    ensures Live(issues, cancelled) == issues
  {
    if issues != [] {
      var front, last := issues[..|issues| - 1], issues[|issues| - 1];
      assert last in issues && front + [last] == issues;
      LiveAll(front, cancelled);
    }
  }

  lemma {:induction false} LiveTwice(issues: seq<Issue>, first: set<nat>, more: set<nat>)
    ensures Live(issues, first + more) == Live(Live(issues, first), more)
  {
    if issues != [] {
      var front, last := issues[..|issues| - 1], issues[|issues| - 1];
      LiveTwice(front, first, more);
      LiveConcat(Live(front, first), if last.id in first then [] else [last], more);
      LiveOne(last, more);
    }
  }

  /** The outbox without the cancelled deliveries: the source filters the slice in place. */
  function Without(outbox: seq<Delivery>, cancelled: set<nat>): seq<Delivery> {
    if outbox == [] then []
    else
      var last := outbox[|outbox| - 1];
      Without(outbox[..|outbox| - 1], cancelled) + if last.id in cancelled then [] else [last]
  }

  lemma {:induction false} WithoutContains(outbox: seq<Delivery>, cancelled: set<nat>)
    ensures forall d :: d in Without(outbox, cancelled) <==> d in outbox && d.id !in cancelled
  {
    if outbox != [] {
      WithoutContains(outbox[..|outbox| - 1], cancelled);
      assert outbox == outbox[..|outbox| - 1] + [outbox[|outbox| - 1]];
    }
  }

  lemma {:induction false} PendingWithout(outbox: seq<Delivery>, cancelled: set<nat>)
    ensures Pending(Without(outbox, cancelled)) == Live(Pending(outbox), cancelled)
  {
    if outbox != [] {
      var front, last := outbox[..|outbox| - 1], outbox[|outbox| - 1];
      PendingWithout(front, cancelled);
      PendingAppend(front, last);
      assert outbox == front + [last];
      PendingAppend(Without(front, cancelled), last);
      assert (Pending(front) + [Queued(last)])[..|front|] == Pending(front);
    }
  }

  lemma PendingAppend(outbox: seq<Delivery>, d: Delivery)
    ensures Pending(outbox + [d]) == Pending(outbox) + [Queued(d)]
  {
  }

  lemma {:induction false} WithoutIncreasing(outbox: seq<Delivery>, cancelled: set<nat>)
    requires Increasing(outbox)
    ensures Increasing(Without(outbox, cancelled))
  {
    if outbox != [] {
      var front, last := outbox[..|outbox| - 1], outbox[|outbox| - 1];
      WithoutIncreasing(front, cancelled);
      WithoutContains(front, cancelled);
      var kept := Without(front, cancelled);
      forall i | 0 <= i < |kept| ensures kept[i].id < last.id {
        assert kept[i] in front;
      }
    }
  }

  lemma WithoutLast(front: seq<Delivery>, x: Delivery, cancelled: set<nat>)
    ensures Without(front + [x], cancelled) == Without(front, cancelled) + if x.id in cancelled then [] else [x]
  {
    assert (front + [x])[..|front|] == front;
  }

  lemma {:induction false} WithoutConcat(xs: seq<Delivery>, ys: seq<Delivery>, cancelled: set<nat>)
    ensures Without(xs + ys, cancelled) == Without(xs, cancelled) + Without(ys, cancelled)
  {
    hide Without;
    WithoutNone([], cancelled);
    if ys == [] {
      assert xs + ys == xs;
    } else {
      var front, last := ys[..|ys| - 1], ys[|ys| - 1];
      WithoutConcat(xs, front, cancelled);
      WithoutLast(front, last, cancelled);
      WithoutLast(xs + front, last, cancelled);
      Regroup(xs, front, [last]);
      Regroup(Without(xs, cancelled), Without(front, cancelled), if last.id in cancelled then [] else [last]);
      assert ys == front + [last];
    }
  }

  lemma {:induction false} WithoutNone(outbox: seq<Delivery>, cancelled: set<nat>)
    requires forall d | d in outbox :: d.id !in cancelled
    ensures Without(outbox, cancelled) == outbox
  {
    if outbox != [] {
      var front, last := outbox[..|outbox| - 1], outbox[|outbox| - 1];
      assert last in outbox;
      WithoutNone(front, cancelled);
      assert front + [last] == outbox;
    }
  }

  lemma WithoutOne(done: seq<Delivery>, d: Delivery, rest: seq<Delivery>)
    requires Increasing(done + [d] + rest)
    ensures Without(done + [d] + rest, {d.id}) == done + rest
    ensures {d.id} <= Ids(done + [d] + rest)
  {
    hide Without, Increasing;
    OtherIds(done, d, rest);
    WithoutNone([], {d.id});
    WithoutConcat(done + [d], rest, {d.id});
    WithoutConcat(done, [d], {d.id});
    WithoutNone(done, {d.id});
    WithoutNone(rest, {d.id});
    WithoutLast([], d, {d.id});
    assert [] + [d] == [d] && done + [] == done;
  }

  lemma OtherIds(done: seq<Delivery>, d: Delivery, rest: seq<Delivery>)
    requires Increasing(done + [d] + rest)
    ensures forall e | e in done || e in rest :: e.id != d.id
    ensures {d.id} <= Ids(done + [d] + rest)
  {
    RemovedId(done, d, rest);
    forall e | e in done || e in rest ensures e.id != d.id {
      assert e in done + rest;
      assert e.id in Ids(done + rest);
    }
  }

  /** Issuing a notification to a destination by queueing it. */
  lemma EnqueueKeepsQueue(issued: seq<Issue>, sent: seq<Issue>, outbox: seq<Delivery>, cancelled: set<nat>, next: nat,
                          d: Delivery)
    requires Queue(issued, sent, outbox, cancelled, next) && d.id == next + 1
    ensures Queue(issued + [Queued(d)], sent, outbox + [d], cancelled, next + 1)
  {
    hide On, Live, Pending;
    forall destination
      ensures On(sent, destination) + On(Pending(outbox + [d]), destination)
              == On(Live(issued + [Queued(d)], cancelled), destination)
    {
      EnqueueOn(issued, outbox, cancelled, d, destination);
    }
  }

  lemma EnqueueOn(issued: seq<Issue>, outbox: seq<Delivery>, cancelled: set<nat>, d: Delivery, destination: string)
    requires d.id !in cancelled
    ensures On(Live(issued + [Queued(d)], cancelled), destination)
            == On(Live(issued, cancelled), destination) + On([Queued(d)], destination)
    ensures On(Pending(outbox + [d]), destination) == On(Pending(outbox), destination) + On([Queued(d)], destination)
  {
    LiveAppend(issued, Queued(d), cancelled);
    OnConcat(Live(issued, cancelled), [Queued(d)], destination);
    PendingAppend(outbox, d);
    OnConcat(Pending(outbox), [Queued(d)], destination);
  }

  /** Issuing a notification and sending it at once, which needs an empty queue to its destination. */
  lemma SendKeepsQueue(issued: seq<Issue>, sent: seq<Issue>, outbox: seq<Delivery>, cancelled: set<nat>, next: nat,
                       x: Issue)
    requires Queue(issued, sent, outbox, cancelled, next) && x.id == 0
    requires forall d | d in outbox :: d.destination != x.destination
    ensures Queue(issued + [x], sent + [x], outbox, cancelled, next)
  {
    hide On, Live, Pending, Increasing;
    forall destination
      ensures On(sent + [x], destination) + On(Pending(outbox), destination)
              == On(Live(issued + [x], cancelled), destination)
    {
      SendOn(issued, sent, outbox, cancelled, x, destination);
    }
  }

  lemma SendOn(issued: seq<Issue>, sent: seq<Issue>, outbox: seq<Delivery>, cancelled: set<nat>, x: Issue,
               destination: string)
    requires x.id !in cancelled && forall d | d in outbox :: d.destination != x.destination
    requires On(sent, destination) + On(Pending(outbox), destination) == On(Live(issued, cancelled), destination)
    ensures On(sent + [x], destination) + On(Pending(outbox), destination)
            == On(Live(issued + [x], cancelled), destination)
  {
    hide On, Live;
    LiveAppend(issued, x, cancelled);
    OnConcat(Live(issued, cancelled), [x], destination);
    OnConcat(sent, [x], destination);
    OnOne(x, destination);
    if destination == x.destination {
      OnNone(Pending(outbox), destination);
    }
  }

  /** Sending a queued notification that is the first one for its destination. */
  lemma RetryKeepsQueue(issued: seq<Issue>, sent: seq<Issue>, done: seq<Delivery>, d: Delivery, rest: seq<Delivery>,
                        cancelled: set<nat>, next: nat)
    requires Queue(issued, sent, done + [d] + rest, cancelled, next)
    requires forall e | e in done :: e.destination != d.destination
    ensures Queue(issued, sent + [Queued(d)], done + rest, cancelled, next)
  {
    RemovedId(done, d, rest);
    forall destination
      ensures On(sent + [Queued(d)], destination) + On(Pending(done + rest), destination)
              == On(Live(issued, cancelled), destination)
    {
      RetryOn(sent, done, d, rest, destination);
    }
  }

  lemma RemovedId(done: seq<Delivery>, d: Delivery, rest: seq<Delivery>)
    requires Increasing(done + [d] + rest)
    ensures Increasing(done + rest) && d.id !in Ids(done + rest) && Ids(done + rest) <= Ids(done + [d] + rest)
    ensures d in done + [d] + rest
  {
    var before, after := done + [d] + rest, done + rest;
    assert before[|done|] == d;
    forall i | 0 <= i < |after| ensures after[i] == before[if i < |done| then i else i + 1] {
    }
  }

  lemma RetryOn(sent: seq<Issue>, done: seq<Delivery>, d: Delivery, rest: seq<Delivery>, destination: string)
    requires forall e | e in done :: e.destination != d.destination
    ensures On(sent + [Queued(d)], destination) + On(Pending(done + rest), destination)
            == On(sent, destination) + On(Pending(done + [d] + rest), destination)
  {
    hide On;
    PendingOn(done, rest, destination);
    PendingOn(done + [d], rest, destination);
    PendingOn(done, [d], destination);
    OnConcat(sent, [Queued(d)], destination);
    assert Pending([d]) == [Queued(d)];
    OnOne(Queued(d), destination);
    if destination == d.destination {
      OnNone(Pending(done), destination);
    }
    Moved(On(sent, destination), On(Pending(done), destination), On([Queued(d)], destination), On(Pending(rest),
          destination));
  }

  lemma Moved<T>(sent: seq<T>, done: seq<T>, x: seq<T>, rest: seq<T>)
    requires done == [] || x == []
    ensures (sent + x) + (done + rest) == sent + ((done + x) + rest)
  {
  }

  lemma PendingOn(xs: seq<Delivery>, ys: seq<Delivery>, destination: string)
    ensures On(Pending(xs + ys), destination) == On(Pending(xs), destination) + On(Pending(ys), destination)
  {
    assert Pending(xs + ys) == Pending(xs) + Pending(ys);
    OnConcat(Pending(xs), Pending(ys), destination);
  }

  /** Cancelling queued notifications. */
  lemma CancelKeepsQueue(issued: seq<Issue>, sent: seq<Issue>, outbox: seq<Delivery>, cancelled: set<nat>, next: nat,
                         more: set<nat>)
    requires Queue(issued, sent, outbox, cancelled, next) && more <= Ids(outbox)
    ensures Queue(issued, sent, Without(outbox, more), cancelled + more, next)
  {
    PendingWithout(outbox, more);
    WithoutIncreasing(outbox, more);
    WithoutContains(outbox, more);
    forall destination
      ensures On(sent, destination) + On(Pending(Without(outbox, more)), destination)
              == On(Live(issued, cancelled + more), destination)
    {
      LiveTwice(issued, cancelled, more);
      OnLive(Live(issued, cancelled), more, destination);
      LiveConcat(On(sent, destination), On(Pending(outbox), destination), more);
      OnSubset(sent, destination);
      LiveAll(On(sent, destination), more);
      OnLive(Pending(outbox), more, destination);
    }
  }

  lemma {:induction false} OnSubset(xs: seq<Issue>, destination: string)
    ensures forall x | x in On(xs, destination) :: x in xs
  {
    if xs != [] {
      OnSubset(xs[..|xs| - 1], destination);
    }
  }

  /** Recording a failed attempt. */
  lemma UpdateKeepsQueue(issued: seq<Issue>, sent: seq<Issue>, outbox: seq<Delivery>, cancelled: set<nat>, next: nat,
                         i: nat, d: Delivery)
    requires Queue(issued, sent, outbox, cancelled, next)
    requires i < |outbox| && Queued(d) == Queued(outbox[i])
    ensures Queue(issued, sent, outbox[i := d], cancelled, next)
  {
    assert Pending(outbox[i := d]) == Pending(outbox);
    assert forall k | 0 <= k < |outbox| :: outbox[i := d][k].id == outbox[k].id;
  }

  /** The outbox is in the order of its numbers. */
  lemma QueueIncreasing(issued: seq<Issue>, sent: seq<Issue>, outbox: seq<Delivery>, cancelled: set<nat>, next: nat)
    requires Queue(issued, sent, outbox, cancelled, next)
    ensures Increasing(outbox)
  {
  }
}
