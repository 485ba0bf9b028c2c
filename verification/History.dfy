// The observation history (internal/coordinator/history.go).

/** A check's history as a value: sorted by time of receipt, trimmed from the old end. */
module Trimming {
  import opened Types
  import opened Sorting

  /** One prober's accepted result. */
  datatype Observation = Observation(id: string, check: string, prober: string, status: Status, receivedAt: Time)

  predicate ByReceipt(a: Observation, b: Observation) {
    a.receivedAt <= b.receivedAt
  }

  ghost predicate InOrder(items: seq<Observation>) {
    SortedBy(items, ByReceipt)
  }

  /** The newest `max` observations, as far as they were received at `cutoff` or later. */
  function Trim(items: seq<Observation>, cutoff: Time, max: nat): seq<Observation> {
    if items == [] || max == 0 || items[|items| - 1].receivedAt < cutoff then []
    else Trim(items[..|items| - 1], cutoff, max - 1) + [items[|items| - 1]]
  }

  function InsertOne(items: seq<Observation>, o: Observation): seq<Observation> {
    Insert(items, o, ByReceipt)
  }

  function SortAll(items: seq<Observation>): seq<Observation> {
    Sort(items, ByReceipt)
  }

  /** One more observation at the new end. */
  lemma TrimLast(front: seq<Observation>, last: Observation, cutoff: Time, max: nat)
    ensures Trim(front + [last], cutoff, max)
            == if max == 0 || last.receivedAt < cutoff then [] else Trim(front, cutoff, max - 1) + [last]
  {
    assert (front + [last])[..|front|] == front;
  }

  /** Trimming harder makes an earlier, gentler trim unnecessary. */
  lemma {:induction false} TrimTrim(items: seq<Observation>, early: Time, late: Time, more: nat, max: nat)
    requires early <= late && max <= more
    ensures Trim(Trim(items, early, more), late, max) == Trim(items, late, max)
  {
    if items != [] && more > 0 && items[|items| - 1].receivedAt >= early {
      var front, last := items[..|items| - 1], items[|items| - 1];
      TrimLast(Trim(front, early, more - 1), last, late, max);
      if max > 0 {
        TrimTrim(front, early, late, more - 1, max - 1);
      }
    }
  }

  /** What was trimmed away before an insertion would be trimmed away after it, too. */
  lemma {:induction false} TrimInsert(items: seq<Observation>, o: Observation, early: Time, late: Time, more: nat,
                                      max: nat)
    requires early <= late && max <= more
    ensures Trim(InsertOne(Trim(items, early, more), o), late, max) == Trim(InsertOne(items, o), late, max)
  {
    hide Trim, InsertOne;
    TrimEmpty(early, more);
    if items != [] {
      var front, last := items[..|items| - 1], items[|items| - 1];
      var kept := Trim(items, early, more);
      assert items == front + [last];
      TrimLast(front, last, early, more);
      if ByReceipt(last, o) {
        TrimInsertLast(items, kept, o, late, max);
        if max > 0 {
          TrimTrim(items, early, late, more, max - 1);
        }
      } else {
        InsertBefore(front, last, o);
        TrimLast(InsertOne(front, o), last, late, max);
        if kept == [] {
          TrimNewest(o, last, late, max);
        } else {
          var rest := Trim(front, early, more - 1);
          InsertBefore(rest, last, o);
          TrimLast(InsertOne(rest, o), last, late, max);
          if max > 0 {
            TrimInsert(front, o, early, late, more - 1, max - 1);
          }
        }
      }
    }
  }

  lemma InsertAfter(items: seq<Observation>, o: Observation)
    requires items == [] || ByReceipt(items[|items| - 1], o)
    ensures InsertOne(items, o) == items + [o]
  {
  }

  lemma TrimEmpty(cutoff: Time, max: nat)
    ensures Trim([], cutoff, max) == []
  {
  }

  lemma TrimNewest(o: Observation, last: Observation, late: Time, max: nat)
    requires !ByReceipt(last, o)
    requires last.receivedAt < late || max == 0
    ensures Trim(InsertOne([], o), late, max) == []
  {
  }

  /** The newest observation goes to the end of both. */
  lemma TrimInsertLast(items: seq<Observation>, kept: seq<Observation>, o: Observation, late: Time, max: nat)
    requires items == [] || ByReceipt(items[|items| - 1], o)
    requires kept == [] || ByReceipt(kept[|kept| - 1], o)
    ensures Trim(InsertOne(items, o), late, max)
            == if max == 0 || o.receivedAt < late then [] else Trim(items, late, max - 1) + [o]
    ensures Trim(InsertOne(kept, o), late, max)
            == if max == 0 || o.receivedAt < late then [] else Trim(kept, late, max - 1) + [o]
  {
    TrimLast(items, o, late, max);
    TrimLast(kept, o, late, max);
  }

  /** An observation older than the last one goes in front of it. */
  lemma InsertBefore(front: seq<Observation>, last: Observation, o: Observation)
    requires !ByReceipt(last, o)
    ensures InsertOne(front + [last], o) == InsertOne(front, o) + [last]
  {
    assert (front + [last])[..|front|] == front;
  }

  /** An expired observation changes nothing. */
  lemma {:induction false} TrimExpired(items: seq<Observation>, o: Observation, cutoff: Time, max: nat)
    requires o.receivedAt < cutoff
    ensures Trim(InsertOne(items, o), cutoff, max) == Trim(items, cutoff, max)
  {
    hide Trim, InsertOne;
    TrimLast(items, o, cutoff, max);
    TrimEmpty(cutoff, max);
    if items == [] {
      InsertAfter(items, o);
    } else {
      var front, last := items[..|items| - 1], items[|items| - 1];
      assert front + [last] == items;
      TrimLast(front, last, cutoff, max);
      if ByReceipt(last, o) {
        InsertAfter(items, o);
      } else {
        InsertBefore(front, last, o);
        TrimLast(InsertOne(front, o), last, cutoff, max);
        if max > 0 {
          TrimExpired(front, o, cutoff, max - 1);
        }
      }
    }
  }

  /** Inserting one by one, trimming each time. */
  function Fold(items: seq<Observation>, cutoff: Time, max: nat): seq<Observation> {
    if items == [] then []
    else Trim(InsertOne(Fold(items[..|items| - 1], cutoff, max), items[|items| - 1]), cutoff, max)
  }

  /** Sorting everything and trimming once gives the same. */
  lemma {:induction false} FoldIsTrimmedSort(items: seq<Observation>, cutoff: Time, max: nat)
    ensures Fold(items, cutoff, max) == Trim(SortAll(items), cutoff, max)
  {
    if items != [] {
      var front, last := items[..|items| - 1], items[|items| - 1];
      FoldIsTrimmedSort(front, cutoff, max);
      TrimInsert(SortAll(front), last, cutoff, cutoff, max, max);
    }
  }

  function Recent(items: seq<Observation>, cutoff: Time): seq<Observation> {
    if items == [] then []
    else
      var last := items[|items| - 1];
      Recent(items[..|items| - 1], cutoff) + if last.receivedAt < cutoff then [] else [last]
  }

  function Cap(items: seq<Observation>, max: nat): seq<Observation> {
    if |items| > max then items[|items| - max..] else items
  }

  /** The loader: drop what has expired, sort what is left, keep the newest. */
  function Bulk(items: seq<Observation>, cutoff: Time, max: nat): seq<Observation> {
    Cap(SortAll(Recent(items, cutoff)), max)
  }

  /** The bulk loader computes what one insertion after the other would have computed. */
  lemma BulkIsFold(items: seq<Observation>, cutoff: Time, max: nat)
    ensures Bulk(items, cutoff, max) == Fold(items, cutoff, max)
  {
    FoldIsTrimmedSort(items, cutoff, max);
    DropExpiredFirst(items, cutoff, max);
    RecentIsRecent(items, cutoff);
    SameElements(Recent(items, cutoff), SortAll(Recent(items, cutoff)));
    TrimIsCap(SortAll(Recent(items, cutoff)), cutoff, max);
  }

  lemma RecentLast(front: seq<Observation>, o: Observation, cutoff: Time)
    ensures Recent(front + [o], cutoff)
            == if o.receivedAt < cutoff then Recent(front, cutoff) else Recent(front, cutoff) + [o]
  {
    assert (front + [o])[..|front|] == front;
  }

  lemma {:induction false} DropExpiredFirst(items: seq<Observation>, cutoff: Time, max: nat)
    ensures Trim(SortAll(Recent(items, cutoff)), cutoff, max) == Trim(SortAll(items), cutoff, max)
  {
    if items != [] {
      var front, last := items[..|items| - 1], items[|items| - 1];
      var recent := Recent(front, cutoff);
      RecentLast(front, last, cutoff);
      assert items == front + [last];
      hide Recent, Trim;
      DropExpiredFirst(front, cutoff, max);
      if last.receivedAt < cutoff {
        TrimExpired(SortAll(front), last, cutoff, max);
      } else {
        assert (recent + [last])[..|recent|] == recent;
        TrimInsert(SortAll(front), last, cutoff, cutoff, max, max);
        TrimInsert(SortAll(recent), last, cutoff, cutoff, max, max);
      }
    }
  }

  lemma {:induction false} RecentIsRecent(items: seq<Observation>, cutoff: Time)
    ensures forall o | o in Recent(items, cutoff) :: o.receivedAt >= cutoff
  {
    if items != [] {
      RecentIsRecent(items[..|items| - 1], cutoff);
    }
  }

  lemma {:induction false} TrimIsCap(items: seq<Observation>, cutoff: Time, max: nat)
    requires forall o | o in items :: o.receivedAt >= cutoff
    ensures Trim(items, cutoff, max) == Cap(items, max)
  {
    if items != [] && max > 0 {
      TrimIsCap(items[..|items| - 1], cutoff, max - 1);
    }
  }

  /** On a history in order, trimming keeps exactly what is recent, as long as the size allows. */
  lemma {:induction false} TrimIsRecent(items: seq<Observation>, cutoff: Time, max: nat)
    requires InOrder(items) && |items| <= max
    ensures Trim(items, cutoff, max) == Recent(items, cutoff)
  {
    if items != [] {
      var front, last := items[..|items| - 1], items[|items| - 1];
      if last.receivedAt < cutoff {
        NothingRecent(items, cutoff);
      } else {
        TrimIsRecent(front, cutoff, max - 1);
      }
    }
  }

  lemma {:induction false} NothingRecent(items: seq<Observation>, cutoff: Time)
    requires forall o | o in items :: o.receivedAt < cutoff
    ensures Recent(items, cutoff) == []
  {
    if items != [] {
      NothingRecent(items[..|items| - 1], cutoff);
    }
  }

  // ----- stability -----

  /** The observations received at `t`, in order. */
  function At(items: seq<Observation>, t: Time): seq<Observation> {
    if items == [] then []
    else
      var last := items[|items| - 1];
      At(items[..|items| - 1], t) + if last.receivedAt == t then [last] else []
  }

  lemma AtLast(front: seq<Observation>, last: Observation, t: Time)
    ensures At(front + [last], t) == At(front, t) + if last.receivedAt == t then [last] else []
  {
    assert (front + [last])[..|front|] == front;
  }

  /** `sorted` is what a stable sort makes of `items`: in order, with observations of one time left as they were. */
  ghost predicate StablySorted(items: seq<Observation>, sorted: seq<Observation>) {
    InOrder(sorted) && forall t :: At(items, t) == At(sorted, t)
  }

  lemma {:induction false} InsertIsStable(items: seq<Observation>, o: Observation, t: Time)
    requires InOrder(items)
    ensures At(InsertOne(items, o), t) == At(items, t) + if o.receivedAt == t then [o] else []
  {
    if items == [] || ByReceipt(items[|items| - 1], o) {
      AtLast(items, o, t);
    } else {
      var front, last := items[..|items| - 1], items[|items| - 1];
      assert items == front + [last];
      InsertBefore(front, last, o);
      InsertIsStable(front, o, t);
      AtLast(InsertOne(front, o), last, t);
      AtLast(front, last, t);
      if o.receivedAt == t {
        assert last.receivedAt != t;
      }
    }
  }

  lemma {:induction false} SortIsStable(items: seq<Observation>)
    ensures StablySorted(items, SortAll(items))
  {
    SortSorted(items, ByReceipt);
    if items != [] {
      var front, last := items[..|items| - 1], items[|items| - 1];
      SortIsStable(front);
      forall t ensures At(items, t) == At(SortAll(items), t) {
        InsertIsStable(SortAll(front), last, t);
      }
    }
  }

  /** Any stable sort gives the same result. */
  lemma {:induction false} StableSortUnique(a: seq<Observation>, b: seq<Observation>)
    requires InOrder(a) && InOrder(b) && forall t :: At(a, t) == At(b, t)
    ensures a == b
  {
    hide At;
    EmptyAt();
    if a == [] {
      AllEmpty(b);
    } else if b == [] {
      AllEmpty(a);
    } else {
      var x, y := a[|a| - 1], b[|b| - 1];
      AtMember(b, x, a);
      AtMember(a, y, b);
      var frontA, frontB := a[..|a| - 1], b[..|b| - 1];
      assert a == frontA + [x] && b == frontB + [y];
      SameEnd(frontA, x, frontB, y);
      StableSortUnique(frontA, frontB);
    }
  }

  /** Whatever stable sort the library uses, the result is this one. */
  lemma AnyStableSort(items: seq<Observation>, sorted: seq<Observation>)
    requires StablySorted(items, sorted)
    ensures sorted == SortAll(items)
  {
    SortIsStable(items);
    forall t ensures At(sorted, t) == At(SortAll(items), t) {
      assert At(items, t) == At(sorted, t);
    }
    StableSortUnique(sorted, SortAll(items));
  }

  lemma EmptyAt()
    ensures forall t :: At([], t) == []
  {
  }

  lemma SameEnd(frontA: seq<Observation>, x: Observation, frontB: seq<Observation>, y: Observation)
    requires x.receivedAt == y.receivedAt
    requires forall t :: At(frontA + [x], t) == At(frontB + [y], t)
    ensures x == y && forall t :: At(frontA, t) == At(frontB, t)
  {
    hide At;
    assert At(frontA + [x], x.receivedAt) == At(frontB + [y], x.receivedAt);
    AtLast(frontA, x, x.receivedAt);
    AtLast(frontB, y, x.receivedAt);
    Cancel(At(frontA, x.receivedAt), [x], At(frontB, x.receivedAt), [y]);
    forall t: Time {:trigger At(frontA, t)} ensures At(frontA, t) == At(frontB, t) {
      assert At(frontA + [x], t) == At(frontB + [y], t);
      AtLast(frontA, x, t);
      AtLast(frontB, y, t);
      var end := if x.receivedAt == t then [x] else [];
      Cancel(At(frontA, t), end, At(frontB, t), end);
    }
  }

  lemma Cancel<T>(a: seq<T>, x: seq<T>, b: seq<T>, y: seq<T>)
    requires a + x == b + y && |x| == |y|
    ensures a == b && x == y
  {
    assert (a + x)[..|a|] == a && (b + y)[..|a|] == b;
    assert (a + x)[|a|..] == x && (b + y)[|a|..] == y;
  }

  lemma AllEmpty(items: seq<Observation>)
    requires forall t :: At(items, t) == []
    ensures items == []
  {
    if items != [] {
      var front, last := items[..|items| - 1], items[|items| - 1];
      assert items == front + [last];
      AtLast(front, last, last.receivedAt);
    }
  }

  /** The last of `a` has its time in `b`, too, so the last of `b` is not older. */
  lemma AtMember(b: seq<Observation>, x: Observation, a: seq<Observation>)
    requires a != [] && x == a[|a| - 1] && b != [] && InOrder(b)
    requires At(a, x.receivedAt) == At(b, x.receivedAt)
    ensures x.receivedAt <= b[|b| - 1].receivedAt
  {
    AtOccurs(b, x.receivedAt);
    var k :| 0 <= k < |b| && b[k].receivedAt == x.receivedAt;
    assert k < |b| - 1 ==> ByReceipt(b[k], b[|b| - 1]);
  }

  lemma {:induction false} AtOccurs(items: seq<Observation>, t: Time)
    ensures At(items, t) != [] ==> exists k :: 0 <= k < |items| && items[k].receivedAt == t
  {
    if items != [] {
      AtOccurs(items[..|items| - 1], t);
    }
  }

  /** The journal order of one check. */
  function Of(items: seq<Observation>, check: string): seq<Observation> {
    if items == [] then []
    else
      var last := items[|items| - 1];
      Of(items[..|items| - 1], check) + if last.check == check then [last] else []
  }

  lemma OfLast(front: seq<Observation>, o: Observation, check: string)
    ensures Of(front + [o], check) == Of(front, check) + if o.check == check then [o] else []
    ensures o.check != check ==> Of(front + [o], check) == Of(front, check)
  {
    assert (front + [o])[..|front|] == front;
  }

  lemma {:induction false} OfConcat(xs: seq<Observation>, ys: seq<Observation>, check: string)
    ensures Of(xs + ys, check) == Of(xs, check) + Of(ys, check)
  {
    hide Of;
    OfNone([], check);
    if ys == [] {
      assert xs + ys == xs;
    } else {
      var front, last := ys[..|ys| - 1], ys[|ys| - 1];
      OfConcat(xs, front, check);
      OfLast(front, last, check);
      OfLast(xs + front, last, check);
      Regroup(xs, front, [last]);
      Regroup(Of(xs, check), Of(front, check), if last.check == check then [last] else []);
      assert ys == front + [last];
    }
  }

  lemma {:induction false} OfAll(items: seq<Observation>, check: string)
    requires forall o | o in items :: o.check == check
    ensures Of(items, check) == items
  {
    if items != [] {
      OfAll(items[..|items| - 1], check);
    }
  }

  lemma {:induction false} OfNone(items: seq<Observation>, check: string)
    requires forall o | o in items :: o.check != check
    ensures Of(items, check) == []
  {
    if items != [] {
      OfNone(items[..|items| - 1], check);
    }
  }

  lemma OfEmpty()
    ensures forall check :: Of([], check) == []
  {
  }

  /** Appending the whole history of one check to a list. */
  lemma OfMore(all: seq<Observation>, items: seq<Observation>, name: string, check: string)
    requires forall o | o in items :: o.check == name
    ensures Of(all + items, check) == Of(all, check) + if check == name then items else []
  {
    hide Of;
    OfConcat(all, items, check);
    if check == name {
      OfAll(items, check);
    } else {
      OfNone(items, check);
    }
  }
}

/** The history in memory and its journal. */
module History {
  import opened Types
  import opened Sorting
  import opened Trimming

  /** A line of the journal. */
  datatype Line = Malformed | Record(observation: Observation)

  const COMPACT_EVERY := 1000

  function Records(lines: seq<Line>): seq<Observation> {
    if lines == [] then []
    else
      var last := lines[|lines| - 1];
      Records(lines[..|lines| - 1]) + if last.Record? then [last.observation] else []
  }

  function Lines(items: seq<Observation>): seq<Line> {
    seq(|items|, i requires 0 <= i < |items| => Record(items[i]))
  }

  lemma RecordsNone()
    ensures Records([]) == []
  {
  }

  lemma RecordsLast(front: seq<Line>, line: Line)
    ensures Records(front + [line]) == Records(front) + if line.Record? then [line.observation] else []
  {
    assert (front + [line])[..|front|] == front;
  }

  lemma {:induction false} RecordsConcat(xs: seq<Line>, ys: seq<Line>)
    ensures Records(xs + ys) == Records(xs) + Records(ys)
  {
    hide Records;
    RecordsNone();
    if ys == [] {
      assert xs + ys == xs;
    } else {
      var front, last := ys[..|ys| - 1], ys[|ys| - 1];
      RecordsConcat(xs, front);
      RecordsLast(front, last);
      RecordsLast(xs + front, last);
      Regroup(xs, front, [last]);
      Regroup(Records(xs), Records(front), if last.Record? then [last.observation] else []);
      assert ys == front + [last];
    }
  }

  lemma {:induction false} RecordsOfLines(items: seq<Observation>)
    ensures Records(Lines(items)) == items
  {
    if items != [] {
      RecordsOfLines(items[..|items| - 1]);
      assert Lines(items)[..|items| - 1] == Lines(items[..|items| - 1]);
    }
  }

  type Store = map<string, seq<Observation>>

  /** A check without an entry has an empty history. */
  function Items(history: Store, check: string): seq<Observation> {
    if check in history then history[check] else []
  }

  /** Every history is in order, within its size, and holds observations of its own check only. */
  ghost predicate Tidy(history: Store, max: nat) {
    forall check | check in history ::
      && InOrder(history[check])
      && |history[check]| <= max
      && forall o | o in history[check] :: o.check == check
  }

  /** From `cutoff` on the journal tells of every check exactly what the memory holds. */
  ghost predicate Faithful(history: Store, file: seq<Line>, cutoff: Time, max: nat) {
    forall check, later | cutoff <= later ::
      Trim(SortAll(Of(Records(file), check)), later, max) == Trim(Items(history, check), later, max)
  }

  /** From `cutoff` on the memory tells of the check what a list of everything recorded tells. */
  ghost predicate Agrees(history: Store, told: seq<Observation>, cutoff: Time, max: nat, check: string) {
    forall later | cutoff <= later ::
      Trim(SortAll(Of(told, check)), later, max) == Trim(Items(history, check), later, max)
  }

  /** What happens to a store: an observation, or a restart of the process. */
  datatype Event = Observed(observation: Observation, at: Time, compacted: bool) | Restarted(at: Time)

  function Observations(events: seq<Event>): seq<Observation> {
    if events == [] then []
    else
      var last := events[|events| - 1];
      Observations(events[..|events| - 1]) + if last.Observed? then [last.observation] else []
  }

  /** Nothing in the journal has to be left out when it is loaded. */
  ghost predicate Untouched(known: set<string>, file: seq<Line>, cutoff: Time, max: nat) {
    && (forall line | line in file :: Kept(known, line, cutoff))
    && (forall check | check in known :: |Recent(Of(Records(file), check), cutoff)| <= max)
  }

  /** A line is left out when it is malformed, of an unknown check, or expired. */
  predicate Kept(known: set<string>, line: Line, cutoff: Time) {
    line.Record? && line.observation.check in known && line.observation.receivedAt >= cutoff
  }

  ghost predicate LeavesOut(known: set<string>, file: seq<Line>, cutoff: Time) {
    exists line :: line in file && !Kept(known, line, cutoff)
  }

  ghost predicate TooLong(raw: Store, checks: set<string>, max: nat)
    requires checks <= raw.Keys
  {
    exists check :: check in checks && |raw[check]| > max
  }

  lemma LeavesOutStep(known: set<string>, file: seq<Line>, i: nat, cutoff: Time)
    requires i < |file|
    ensures LeavesOut(known, file[..i + 1], cutoff)
            <==> LeavesOut(known, file[..i], cutoff) || !Kept(known, file[i], cutoff)
  {
    hide Kept;
    PrefixStep(file, i);
  }

  lemma NoneLeftOut(known: set<string>, cutoff: Time)
    ensures !LeavesOut(known, [], cutoff)
  {
  }

  lemma NoneTooLong(raw: Store, max: nat)
    ensures !TooLong(raw, {}, max)
  {
  }

  lemma LongStep(raw: Store, checks: set<string>, name: string, max: nat)
    requires checks <= raw.Keys && name in raw
    ensures TooLong(raw, checks + {name}, max) <==> TooLong(raw, checks, max) || |raw[name]| > max
  {
  }

  // ----- what the steps keep -----

  lemma FaithfulTick(history: Store, file: seq<Line>, cutoff: Time, later: Time, max: nat)
    requires Faithful(history, file, cutoff, max) && cutoff <= later
    ensures Faithful(history, file, later, max)
  {
  }

  lemma AppendKeepsFaithful(history: Store, file: seq<Line>, cutoff: Time, max: nat, o: Observation,
                            kept: seq<Observation>)
    requires Faithful(history, file, cutoff, max)
    requires kept == Trim(InsertOne(Items(history, o.check), o), cutoff, max)
    ensures Faithful(history[o.check := kept], file + [Record(o)], cutoff, max)
  {
    hide Trim, InsertOne;
    RecordsConcat(file, [Record(o)]);
    assert [Record(o)][..0] == [];
    assert Records([Record(o)]) == [o];
    forall check, later | cutoff <= later
      ensures Trim(SortAll(Of(Records(file + [Record(o)]), check)), later, max)
              == Trim(Items(history[o.check := kept], check), later, max)
    {
      var before := Of(Records(file), check);
      OfConcat(Records(file), [o], check);
      assert [o][..0] == [];
      if check == o.check {
        assert Of([o], check) == [o];
        SortLast(before, o);
        TrimInsert(SortAll(before), o, later, later, max, max);
        TrimInsert(Items(history, check), o, later, later, max, max);
        TrimTrim(InsertOne(Items(history, check), o), cutoff, later, max, max);
      } else {
        assert Of([o], check) == [];
        assert before + [] == before;
      }
    }
  }

  lemma SortLast(items: seq<Observation>, o: Observation)
    ensures SortAll(items + [o]) == InsertOne(SortAll(items), o)
  {
    assert (items + [o])[..|items|] == items;
  }

  // ----- binary search -----

  /** The first position behind everything received at `t` or before. */
  method SearchAfter(items: seq<Observation>, t: Time) returns (k: nat)
    requires InOrder(items)
    ensures k <= |items|
    ensures forall i | 0 <= i < k :: items[i].receivedAt <= t
    ensures forall i | k <= i < |items| :: items[i].receivedAt > t
  {
    k := 0;
    var high := |items|;
    while k < high
      invariant k <= high <= |items|
      invariant forall i | 0 <= i < k :: items[i].receivedAt <= t
      invariant forall i | high <= i < |items| :: items[i].receivedAt > t
    {
      var middle := (k + high) / 2;
      assert forall i | 0 <= i < middle :: ByReceipt(items[i], items[middle]);
      assert forall i | middle < i < |items| :: ByReceipt(items[middle], items[i]);
      if items[middle].receivedAt > t {
        high := middle;
      } else {
        k := middle + 1;
      }
    }
  }

  lemma {:induction false} InsertIsSplice(items: seq<Observation>, o: Observation, k: nat)
    requires InOrder(items) && k <= |items|
    requires forall i | 0 <= i < k :: items[i].receivedAt <= o.receivedAt
    requires forall i | k <= i < |items| :: items[i].receivedAt > o.receivedAt
    ensures InsertOne(items, o) == items[..k] + [o] + items[k..]
  {
    hide InsertOne;
    if k == |items| {
      assert items[..k] == items && items[k..] == [];
      InsertAfter(items, o);
    } else {
      var front, last := items[..|items| - 1], items[|items| - 1];
      assert items == front + [last];
      InsertBefore(front, last, o);
      InsertIsSplice(front, o, k);
      assert items[..k] == front[..k] && items[k..] == front[k..] + [last];
    }
  }

  lemma {:induction false} CutIsTrim(items: seq<Observation>, cutoff: Time, first: nat, max: nat)
    requires InOrder(items) && first <= |items|
    requires forall i | 0 <= i < first :: items[i].receivedAt < cutoff
    requires forall i | first <= i < |items| :: items[i].receivedAt >= cutoff
    ensures Trim(items, cutoff, max) == Cap(items[first..], max)
  {
    hide Trim, InOrder, Cap;
    TrimEmpty(cutoff, max);
    CapNothing(items[first..], max);
    if items != [] {
      var front, last := items[..|items| - 1], items[|items| - 1];
      assert items == front + [last];
      TrimLast(front, last, cutoff, max);
      InOrderFront(items);
      if first < |items| && max > 0 {
        CutIsTrim(front, cutoff, first, max - 1);
        assert items[first..] == front[first..] + [last];
        CapLast(front[first..], last, max);
      }
    }
  }

  lemma CapNothing(items: seq<Observation>, max: nat)
    ensures items == [] || max == 0 ==> Cap(items, max) == []
  {
  }

  lemma CapLast(front: seq<Observation>, last: Observation, max: nat)
    requires max > 0
    ensures Cap(front + [last], max) == Cap(front, max - 1) + [last]
  {
  }

  /** Trimming keeps the newest part. */
  lemma {:induction false} TrimIsSuffix(items: seq<Observation>, cutoff: Time, max: nat) returns (n: nat)
    ensures n <= |items| && Trim(items, cutoff, max) == items[n..] && |items| - n <= max
  {
    n := |items|;
    if items != [] && max > 0 && items[|items| - 1].receivedAt >= cutoff {
      var front, last := items[..|items| - 1], items[|items| - 1];
      n := TrimIsSuffix(front, cutoff, max - 1);
      assert items[n..] == front[n..] + [last];
    }
  }

  /** From number `n` on: exactly what is not too old and among the last `max`. */
  ghost predicate StaysFrom(items: seq<Observation>, cutoff: Time, max: nat, n: nat) {
    && n <= |items|
    && forall i | 0 <= i < |items| :: n <= i <==> items[i].receivedAt >= cutoff && |items| - i <= max
  }

  /** In order of receipt, that is what stays. */
  lemma {:induction false} TrimExactly(items: seq<Observation>, cutoff: Time, max: nat) returns (n: nat)
    requires InOrder(items)
    ensures StaysFrom(items, cutoff, max, n) && Trim(items, cutoff, max) == items[n..]
  {
    if items == [] || max == 0 || items[|items| - 1].receivedAt < cutoff {
      n := |items|;
      NothingStays(items, cutoff, max);
    } else {
      var front, last := items[..|items| - 1], items[|items| - 1];
      InOrderFront(items);
      hide Trim, StaysFrom, InOrder;
      n := TrimExactly(front, cutoff, max - 1);
      assert items == front + [last];
      TrimLast(front, last, cutoff, max);
      OneMoreStays(front, last, cutoff, max, n);
    }
  }

  lemma NothingStays(items: seq<Observation>, cutoff: Time, max: nat)
    requires InOrder(items) && (items == [] || max == 0 || items[|items| - 1].receivedAt < cutoff)
    ensures StaysFrom(items, cutoff, max, |items|) && Trim(items, cutoff, max) == items[|items|..]
  {
    if items != [] {
      assert forall i | 0 <= i < |items| - 1 :: ByReceipt(items[i], items[|items| - 1]);
    }
  }

  lemma OneMoreStays(front: seq<Observation>, last: Observation, cutoff: Time, max: nat, n: nat)
    requires max > 0 && last.receivedAt >= cutoff && StaysFrom(front, cutoff, max - 1, n)
    ensures StaysFrom(front + [last], cutoff, max, n)
    ensures (front + [last])[n..] == front[n..] + [last]
  {
    var all := front + [last];
    forall i | 0 <= i < |all| ensures n <= i <==> all[i].receivedAt >= cutoff && |all| - i <= max {
      if i < |front| {
        assert all[i] == front[i];
      }
    }
  }

  /** What stands at these places is what is picked: all that is about the check, in order. */
  ghost predicate Picks(items: seq<Observation>, check: string, at: seq<nat>, picked: seq<Observation>) {
    && |at| == |picked|
    && (forall k | 0 <= k < |at| :: at[k] < |items| && items[at[k]] == picked[k])
    && (forall j, k | 0 <= j < k < |at| :: at[j] < at[k])
    && (forall i: nat | i < |items| :: items[i].check == check ==> i in at)
    && (forall k | 0 <= k < |picked| :: picked[k].check == check)
  }

  lemma PicksMore(front: seq<Observation>, last: Observation, check: string, at: seq<nat>, picked: seq<Observation>)
    requires Picks(front, check, at, picked)
    ensures if last.check == check then Picks(front + [last], check, at + [|front|], picked + [last])
            else Picks(front + [last], check, at, picked)
  {
    var all, more := front + [last], at + [|front|];
    forall i: nat | i < |all| && all[i].check == check ensures i in if last.check == check then more else at {
      if i < |front| {
        assert all[i] == front[i] && i in at;
      } else {
        assert more[|at|] == i;
      }
    }
  }

  lemma {:induction false} OfExactly(items: seq<Observation>, check: string) returns (at: seq<nat>)
    ensures Picks(items, check, at, Of(items, check))
  {
    at := [];
    if items != [] {
      hide Picks, Of;
      var front, last := items[..|items| - 1], items[|items| - 1];
      assert items == front + [last];
      at := OfExactly(front, check);
      PicksMore(front, last, check, at, Of(front, check));
      OfLast(front, last, check);
      if last.check == check {
        at := at + [|front|];
      } else {
        assert Of(front, check) + [] == Of(front, check);
      }
    }
  }

  /** From number `n` on: exactly what is not older than the instant and, if there is a limit, within it. */
  ghost predicate NewestFrom(items: seq<Observation>, from: Time, limit: int, n: int) {
    && 0 <= n <= |items|
    && forall i | 0 <= i < |items| :: n <= i <==> items[i].receivedAt >= from && (limit > 0 ==> |items| - i <= limit)
  }

  lemma RecentExactly(items: seq<Observation>, from: Time, limit: int) returns (n: nat)
    requires InOrder(items)
    ensures NewestFrom(items, from, limit, n)
    ensures items[n..] == if limit > 0 then Cap(Recent(items, from), limit) else Recent(items, from)
  {
    hide Recent, Trim, InOrder;
    TrimIsRecent(items, from, |items|);
    n := TrimExactly(items, from, |items|);
    if limit > 0 && |items| - n > limit {
      n := |items| - limit;
    }
  }

  lemma TidyInOrder(history: Store, max: nat, check: string)
    requires Tidy(history, max)
    ensures InOrder(Items(history, check))
  {
    EmptyInOrder();
  }

  /** A trimmed insertion leaves the store tidy. */
  lemma InsertKeepsTidy(history: Store, o: Observation, cutoff: Time, max: nat)
    requires Tidy(history, max)
    ensures Tidy(history[o.check := Trim(InsertOne(Items(history, o.check), o), cutoff, max)], max)
  {
    hide Trim, InsertOne, InOrder;
    EmptyInOrder();
    KeptIsTidy(Items(history, o.check), o, cutoff, max);
  }

  lemma EmptyInOrder()
    ensures InOrder([])
  {
  }

  lemma KeptIsTidy(items: seq<Observation>, o: Observation, cutoff: Time, max: nat)
    requires InOrder(items) && forall x | x in items :: x.check == o.check
    ensures var kept := Trim(InsertOne(items, o), cutoff, max);
            InOrder(kept) && |kept| <= max && forall x | x in kept :: x.check == o.check
  {
    hide Trim, InsertOne;
    InsertInOrder(items, o);
    InsertMembers(items, o);
    var more := InsertOne(items, o);
    var n := TrimIsSuffix(more, cutoff, max);
    assert forall x | x in more[n..] :: x in more;
  }

  lemma InsertMembers(items: seq<Observation>, o: Observation)
    ensures forall x | x in InsertOne(items, o) :: x == o || x in items
  {
    forall x | x in InsertOne(items, o) ensures x == o || x in items {
      assert x in multiset(InsertOne(items, o));
    }
  }

  class HistoryStore {
    const known: set<string>
    const retention: int
    const max: nat
    var history: Store
    var file: seq<Line>
    var appends: nat
    var clock: Time
    /** Whether a line of the journal has been lost since it last agreed with the memory. */
    ghost var lost: bool

    ghost predicate Valid()
      reads this
    {
      && max > 0
      && Tidy(history, max)
      && (!lost ==> Faithful(history, file, clock - retention, max))
    }

    constructor (known: set<string>, retention: int, max: nat, file: seq<Line>, now: Time)
      requires max > 0
      ensures Valid() && this.file == file && history == map[] && clock == now && (lost <==> file != [])
      ensures this.known == known && this.retention == retention && this.max == max
    {
      this.known, this.retention, this.max, this.file := known, retention, max, file;
      history, appends, clock, lost := map[], 0, now, file != [];
      EmptyFaithful(now - retention, max);
    }

    /** Binary search for the place, then for the part that is kept. */
    method AppendHistory(o: Observation)
      requires max > 0 && Tidy(history, max)
      modifies this`history
      ensures Tidy(history, max)
      ensures var kept := Trim(InsertOne(Items(old(history), o.check), o), clock - retention, max);
              history == old(history)[o.check := kept]
    {
      hide Trim, InsertOne, InOrder;
      EmptyInOrder();
      InsertKeepsTidy(history, o, clock - retention, max);
      var items := Items(history, o.check);
      assert InOrder(items);
      var insertAt := SearchAfter(items, o.receivedAt);
      InsertIsSplice(items, o, insertAt);
      InsertInOrder(items, o);
      items := items[..insertAt] + [o] + items[insertAt..];
      var cutoff := clock - retention;
      var first := SearchAfter(items, cutoff - 1);
      CutIsTrim(items, cutoff, first, max);
      items := items[first..];
      if |items| > max {
        items := items[|items| - max..];
      }
      history := history[o.check := items];
    }

    /** Takes an observation into memory and journal; every so often the journal is written anew. */
    method RecordObservation(o: Observation, now: Time, written: bool, compacted: bool)
      requires Valid() && now >= clock
      modifies this`history, this`file, this`appends, this`clock, this`lost
      ensures Valid() && clock == now
      ensures history == old(history)[o.check := Trim(InsertOne(Items(old(history), o.check), o), now - retention, max)]
      ensures !written ==> file == old(file) && appends == old(appends)
      ensures written && !(old(appends) + 1 >= COMPACT_EVERY && compacted) ==>
                file == old(file) + [Record(o)] && appends == old(appends) + 1
      ensures written && old(appends) + 1 >= COMPACT_EVERY && compacted ==> appends == 0 && Compacted() && !lost
      ensures written && !old(lost) ==> !lost
    {
      hide Faithful, Tidy, Trim, InsertOne, Compacted;
      if !lost {
        FaithfulTick(history, file, clock - retention, now - retention, max);
      }
      clock := now;
      ghost var before := history;
      AppendHistory(o);
      if !written {
        lost := true;
        return;
      }
      if !lost {
        AppendKeepsFaithful(before, file, clock - retention, max, o, Items(history, o.check));
      }
      file := file + [Record(o)];
      appends := appends + 1;
      if appends >= COMPACT_EVERY && compacted {
        Compact();
        appends := 0;
      }
    }

    /** The journal lists exactly the memory. */
    ghost predicate Compacted()
      reads this`file, this`history
    {
      forall check :: Of(Records(file), check) == Items(history, check)
    }

    /** Writes the journal anew from memory, check by check in the order of their names. */
    method Compact()
      requires max > 0 && Tidy(history, max)
      modifies this`file, this`lost
      ensures Valid() && !lost && Compacted()
    {
      hide Of, Faithful, InOrder;
      var names := SortedNames(history.Keys);
      var all: seq<Observation> := [];
      OfEmpty();
      for i := 0 to |names|
        invariant forall check :: Of(all, check) == if check in names[..i] then Items(history, check) else []
      {
        PrefixStep(names, i);
        assert names[i] in Elements(names);
        forall check
          ensures Of(all + history[names[i]], check) == if check in names[..i + 1] then Items(history, check) else []
        {
          OfMore(all, history[names[i]], names[i], check);
        }
        all := all + history[names[i]];
      }
      assert names[..|names|] == names;
      assert forall check :: check in Elements(names) <==> check in names;
      file, lost := Lines(all), false;
      RecordsOfLines(all);
      MemoryIsFaithful(history, file, clock - retention, max);
    }

    /** Files the lines of the journal under their checks, leaving out what is malformed, unknown or expired. */
    method ReadLines(cutoff: Time) returns (raw: Store, dropped: bool)
      ensures forall check ::
                Items(raw, check) == if check in known then Recent(Of(Records(file), check), cutoff) else []
      ensures dropped <==> LeavesOut(known, file, cutoff)
    {
      hide Recent, Of, Records, LeavesOut;
      NoLines(cutoff);
      NoneLeftOut(known, cutoff);
      assert file[..0] == [];
      raw, dropped := map[], false;
      for i := 0 to |file|
        invariant forall check ::
                    Items(raw, check) == if check in known then Recent(Of(Records(file[..i]), check), cutoff) else []
        invariant dropped <==> LeavesOut(known, file[..i], cutoff)
      {
        LeavesOutStep(known, file, i, cutoff);
        var line := file[i];
        ReadStep(file, i, cutoff);
        if line.Malformed? {
          dropped := true;
          continue;
        }
        var o := line.observation;
        if o.check !in known || o.receivedAt < cutoff {
          dropped := true;
          continue;
        }
        raw := raw[o.check := Items(raw, o.check) + [o]];
      }
      assert file[..|file|] == file;
    }

    /** Sorts every check's observations and keeps the newest. */
    method SortEach(raw: Store) returns (sorted: Store, capped: bool)
      ensures forall check :: Items(sorted, check) == Cap(SortAll(Items(raw, check)), max)
      ensures capped <==> TooLong(raw, raw.Keys, max)
    {
      hide SortAll, TooLong;
      sorted, capped := map[], false;
      assert sorted.Keys == {};
      NoneTooLong(raw, max);
      SortSize([]);
      var rest := raw.Keys;
      while rest != {}
        invariant rest <= raw.Keys && sorted.Keys == raw.Keys - rest
        invariant forall check | check in sorted :: sorted[check] == Cap(SortAll(raw[check]), max)
        invariant capped <==> TooLong(raw, sorted.Keys, max)
      {
        var name :| name in rest;
        var items := SortAll(raw[name]);
        SortSize(raw[name]);
        LongStep(raw, sorted.Keys, name, max);
        if |items| > max {
          items := items[|items| - max..];
          capped := true;
        }
        assert sorted[name := items].Keys == sorted.Keys + {name};
        sorted := sorted[name := items];
        rest := rest - {name};
      }
      assert sorted.Keys == raw.Keys;
    }

    /**
     * Start-up: the memory becomes what the journal tells, computed in bulk. As long as no line was lost,
     * that is the memory as it was before, seen through the retention window of the moment of loading.
     */
    method LoadHistory(now: Time, compacted: bool) returns (ok: bool)
      requires Valid() && now >= clock
      modifies this`history, this`file, this`appends, this`clock, this`lost
      ensures clock == now && appends == 0 && Tidy(history, max)
      ensures forall check ::
                Items(history, check)
                == if check in known then Fold(Of(Records(old(file)), check), now - retention, max) else []
      ensures ok ==> Valid() && !lost
      ensures if Untouched(known, old(file), now - retention, max) then ok && file == old(file)
              else (ok <==> compacted) && (ok ==> Compacted())
      ensures !old(lost) ==> forall check | check in known ::
                Items(history, check) == Recent(Items(old(history), check), now - retention)
    {
      hide Faithful, Tidy, Fold, Recent, Of, Records, Cap, SortAll, Items, Untouched, Kept, Compacted;
      clock, appends := now, 0;
      var cutoff := now - retention;
      var raw, dropped := ReadLines(cutoff);
      var sorted, capped := SortEach(raw);
      ghost var was, journal, wasLost := history, file, lost;
      history := sorted;
      Loaded(known, file, raw, sorted, cutoff, max);
      LeftOut(known, file, raw, cutoff, max);
      if !wasLost {
        SeenThrough(known, was, file, sorted, old(clock) - retention, cutoff, max);
      }
      if dropped || capped {
        if !compacted {
          return false;
        }
        Compact();
      } else {
        AllKnown(known, file, cutoff);
        UntouchedIsFaithful(known, file, sorted, cutoff, max);
        lost := false;
      }
      return true;
    }

    /**
     * A whole life of the store: observations are recorded, compactions happen whenever they come due and may
     * fail, and the process restarts and loads the journal. What is known of a configured check is what one would
     * know by keeping every observation and looking at them all at the end. The time of an event counts unless a
     * later one has been read already.
     */
    method Live(events: seq<Event>)
      requires Valid() && !lost
      modifies this`history, this`file, this`appends, this`clock, this`lost
      ensures Valid() && !lost && clock >= old(clock)
      ensures forall e | e in events :: e.at <= clock
      ensures clock == old(clock) || exists e :: e in events && e.at == clock
      ensures forall check | check in known ::
                Agrees(history, Records(old(file)) + Observations(events), clock - retention, max, check)
    {
      hide Valid, Agrees, Observations, Records, Trim, InsertOne, Compacted, Items, Recent, Untouched;
      NothingObserved();
      StoreAgrees();
      assert Records(file) + [] == Records(file);
      for k := 0 to |events|
        invariant Valid() && !lost && clock >= old(clock)
        invariant (forall e | e in events[..k] :: e.at <= clock)
        invariant clock == old(clock) || exists e :: e in events[..k] && e.at == clock
        invariant forall check | check in known ::
                    Agrees(history, Records(old(file)) + Observations(events[..k]), clock - retention, max, check)
      {
        PrefixStep(events, k);
        ghost var told := Records(old(file)) + Observations(events[..k]);
        Happen(events[k], told);
        ObservedMore(Records(old(file)), events, k);
      }
      assert events[..|events|] == events;
    }

    method Happen(event: Event, ghost told: seq<Observation>)
      requires Valid() && !lost
      requires forall check | check in known :: Agrees(history, told, clock - retention, max, check)
      modifies this`history, this`file, this`appends, this`clock, this`lost
      ensures Valid() && !lost && clock == if event.at < old(clock) then old(clock) else event.at
      ensures forall check | check in known ::
                Agrees(history, told + (if event.Observed? then [event.observation] else []), clock - retention, max,
                       check)
    {
      hide Agrees, Trim, InsertOne, Compacted, Items, Recent, Untouched, Faithful, Tidy;
      var now := if event.at < clock then clock else event.at;
      ghost var before, was := history, clock;
      match event {
        case Observed(o, _, compacted) =>
          RecordObservation(o, now, true, compacted);
          forall check | check in known ensures Agrees(history, told + [o], clock - retention, max, check) {
            AgreesMore(before, told, was - retention, clock - retention, max, o, check);
          }
        case Restarted(_) =>
          var ok := LoadHistory(now, true);
          assert told + [] == told;
          forall check | check in known ensures Agrees(history, told, clock - retention, max, check) {
            AgreesLoaded(before, history, told, was - retention, clock - retention, max, check);
          }
      }
    }

    /** The same with a last restart: then the memory itself is everything recorded, sorted and trimmed once. */
    method RecordAndLoad(events: seq<Event>, now: Time)
      requires Valid() && !lost && clock <= now && forall e | e in events :: e.at <= now
      modifies this`history, this`file, this`appends, this`clock, this`lost
      ensures Valid() && !lost && clock == now
      ensures forall check | check in known ::
                Items(history, check)
                == Trim(SortAll(Of(Records(old(file)) + Observations(events), check)), now - retention, max)
    {
      hide Agrees, Trim, SortAll, Of, Items, Recent, Untouched, Faithful, Tidy, Compacted, Records, Observations;
      Live(events);
      ghost var kept, reached := history, clock - retention;
      var ok := LoadHistory(now, true);
      forall check | check in known
        ensures Items(history, check)
                == Trim(SortAll(Of(Records(old(file)) + Observations(events), check)), now - retention, max)
      {
        Remembered(kept, Records(old(file)) + Observations(events), reached, now - retention, max, check);
      }
    }

    lemma StoreAgrees()
      requires Valid() && !lost
      ensures forall check | check in known :: Agrees(history, Records(file), clock - retention, max, check)
    {
    }

    /** The newest observations of one check since an instant, never older than the retention window. */
    method Query(check: string, since: Time, limit: int, now: Time) returns (out: seq<Observation>)
      requires Valid()
      ensures var from := if since == ZERO_TIME || since < now - retention then now - retention else since;
              out == (if limit > 0 then Cap(Recent(Items(history, check), from), limit)
                      else Recent(Items(history, check), from))
      ensures var from := if since == ZERO_TIME || since < now - retention then now - retention else since;
              exists n :: NewestFrom(Items(history, check), from, limit, n) && out == Items(history, check)[n..]
    {
      hide Recent, Tidy, Faithful, NewestFrom;
      assert InOrder(Items(history, check)) by {
        TidyInOrder(history, max, check);
      }
      RecentNone(now - retention);
      RecentNone(since);
      var from := since;
      if since == ZERO_TIME || since < now - retention {
        from := now - retention;
      }
      var items := Items(history, check);
      out := [];
      for i := 0 to |items|
        invariant out == Recent(items[..i], from)
      {
        assert items[..i + 1] == items[..i] + [items[i]];
        RecentLast(items[..i], items[i], from);
        if !(items[i].receivedAt < from) {
          out := out + [items[i]];
        }
      }
      assert items[..|items|] == items;
      if limit > 0 && |out| > limit {
        out := out[|out| - limit..];
      }
      ghost var n := RecentExactly(items, from, limit);
    }

    method SortedNames(keys: set<string>) returns (names: seq<string>)
      ensures Elements(names) == keys && Distinct(names) && SortedBy(names, StringLe)
    {
      names := [];
      var rest := keys;
      while rest != {}
        invariant rest <= keys && Elements(names) == keys - rest && Distinct(names)
      {
        var name :| name in rest;
        ElementsAppend(names, name);
        assert name !in Elements(names);
        names := names + [name];
        rest := rest - {name};
      }
      StringOrder();
      SortSorted(names, StringLe);
      SameElements(names, Sort(names, StringLe));
      SameDistinct(names, Sort(names, StringLe));
      names := Sort(names, StringLe);
    }
  }

  lemma EmptyFaithful(cutoff: Time, max: nat)
    ensures Faithful(map[], Lines([]), cutoff, max)
  {
    RecordsOfLines([]);
  }

  lemma NothingObserved()
    ensures Observations([]) == []
  {
  }

  lemma ObservedMore(first: seq<Observation>, events: seq<Event>, k: nat)
    requires k < |events|
    ensures first + Observations(events[..k + 1])
            == first + Observations(events[..k]) + if events[k].Observed? then [events[k].observation] else []
  {
    assert events[..k + 1][..k] == events[..k];
  }

  lemma AgreesMore(history: Store, told: seq<Observation>, early: Time, cutoff: Time, max: nat, o: Observation,
                   check: string)
    requires Agrees(history, told, early, max, check) && early <= cutoff
    ensures var kept := Trim(InsertOne(Items(history, o.check), o), cutoff, max);
            Agrees(history[o.check := kept], told + [o], cutoff, max, check)
  {
    hide Trim, InsertOne, Of;
    var after := history[o.check := Trim(InsertOne(Items(history, o.check), o), cutoff, max)];
    OfLast(told, o, check);
    forall later | cutoff <= later
      ensures Trim(SortAll(Of(told + [o], check)), later, max) == Trim(Items(after, check), later, max)
    {
      var before := Of(told, check);
      if check == o.check {
        SortLast(before, o);
        TrimInsert(SortAll(before), o, later, later, max, max);
        TrimInsert(Items(history, check), o, later, later, max, max);
        TrimTrim(InsertOne(Items(history, check), o), cutoff, later, max, max);
      }
    }
  }

  lemma AgreesLoaded(history: Store, loaded: Store, told: seq<Observation>, early: Time, cutoff: Time, max: nat,
                     check: string)
    requires Tidy(history, max) && Agrees(history, told, early, max, check) && early <= cutoff
    requires Items(loaded, check) == Recent(Items(history, check), cutoff)
    ensures Agrees(loaded, told, cutoff, max, check)
  {
    hide Trim, Recent, SortAll, Of;
    EmptyInOrder();
    TrimIsRecent(Items(history, check), cutoff, max);
    forall later | cutoff <= later
      ensures Trim(SortAll(Of(told, check)), later, max) == Trim(Items(loaded, check), later, max)
    {
      TrimTrim(Items(history, check), cutoff, later, max, max);
    }
  }

  /** A memory that agrees with the list of everything recorded shows its newest part through any later window. */
  lemma Remembered(history: Store, told: seq<Observation>, early: Time, cutoff: Time, max: nat, check: string)
    requires Tidy(history, max) && Agrees(history, told, early, max, check) && early <= cutoff
    ensures Recent(Items(history, check), cutoff) == Trim(SortAll(Of(told, check)), cutoff, max)
  {
    hide Trim, Recent, SortAll, Of;
    EmptyInOrder();
    TrimIsRecent(Items(history, check), cutoff, max);
  }

  lemma RecentNone(cutoff: Time)
    ensures Recent([], cutoff) == []
  {
  }

  lemma NoLines(cutoff: Time)
    ensures Records([]) == [] && forall check :: Recent(Of([], check), cutoff) == []
  {
  }

  lemma ReadStep(file: seq<Line>, i: nat, cutoff: Time)
    requires i < |file|
    ensures Records(file[..i + 1]) == Records(file[..i]) + if file[i].Record? then [file[i].observation] else []
    ensures forall check ::
              Recent(Of(Records(file[..i + 1]), check), cutoff)
              == Recent(Of(Records(file[..i]), check), cutoff)
                 + if file[i].Record? && file[i].observation.check == check && file[i].observation.receivedAt >= cutoff
                   then [file[i].observation] else []
  {
    assert file[..i + 1][..i] == file[..i];
    var front := Records(file[..i]);
    if file[i].Record? {
      var o := file[i].observation;
      forall check
        ensures Recent(Of(front + [o], check), cutoff)
                == Recent(Of(front, check), cutoff) + if o.check == check && o.receivedAt >= cutoff then [o] else []
      {
        ReadOne(front, o, check, cutoff);
      }
      assert Records(file[..i + 1]) == front + [o];
    } else {
      assert Records(file[..i + 1]) == front;
    }
  }

  lemma ReadOne(front: seq<Observation>, o: Observation, check: string, cutoff: Time)
    ensures Recent(Of(front + [o], check), cutoff)
            == Recent(Of(front, check), cutoff) + if o.check == check && o.receivedAt >= cutoff then [o] else []
  {
    hide Of, Recent;
    OfLast(front, o, check);
    if o.check == check {
      RecentLast(Of(front, check), o, cutoff);
    }
  }

  /** What was loaded in bulk is tidy, and the same as one insertion after the other. */
  lemma Loaded(known: set<string>, file: seq<Line>, raw: Store, sorted: Store, cutoff: Time, max: nat)
    requires forall check ::
               Items(raw, check) == if check in known then Recent(Of(Records(file), check), cutoff) else []
    requires forall check :: Items(sorted, check) == Cap(SortAll(Items(raw, check)), max)
    ensures forall check ::
              Items(sorted, check) == if check in known then Fold(Of(Records(file), check), cutoff, max) else []
    ensures Tidy(sorted, max)
  {
    hide Fold, Recent, Of, SortAll, Records, Cap, IsTidy, Items, Tidy;
    forall check
      ensures Items(sorted, check) == if check in known then Fold(Of(Records(file), check), cutoff, max) else []
      ensures IsTidy(Items(sorted, check), check, max)
    {
      LoadedOne(Records(file), check, Items(raw, check), cutoff, max, check in known);
    }
    EachTidy(sorted, max);
  }

  lemma LoadedOne(all: seq<Observation>, check: string, raw: seq<Observation>, cutoff: Time, max: nat, known: bool)
    requires raw == if known then Recent(Of(all, check), cutoff) else []
    ensures Cap(SortAll(raw), max) == if known then Fold(Of(all, check), cutoff, max) else []
    ensures IsTidy(Cap(SortAll(raw), max), check, max)
  {
    hide Fold, Recent, Of, InOrder;
    BulkIsFold(Of(all, check), cutoff, max);
    OfMembers(all, check);
    BulkIsTidy(raw, check, max, Of(all, check), cutoff);
  }

  lemma EachTidy(history: Store, max: nat)
    requires forall check :: IsTidy(Items(history, check), check, max)
    ensures Tidy(history, max)
  {
    hide InOrder;
    forall check | check in history ensures IsTidy(history[check], check, max) {
      assert IsTidy(Items(history, check), check, max);
    }
  }

  ghost predicate IsTidy(items: seq<Observation>, check: string, max: nat) {
    InOrder(items) && |items| <= max && forall o | o in items :: o.check == check
  }

  lemma BulkIsTidy(raw: seq<Observation>, check: string, max: nat, all: seq<Observation>, cutoff: Time)
    requires raw == [] || (raw == Recent(all, cutoff) && forall o | o in all :: o.check == check)
    ensures IsTidy(Cap(SortAll(raw), max), check, max)
  {
    SortSorted(raw, ByReceipt);
    SameElements(raw, SortAll(raw));
    RecentMembers(all, cutoff);
    var sorted := SortAll(raw);
    var kept := Cap(sorted, max);
    forall o | o in kept ensures o.check == check {
      assert o in sorted;
    }
  }

  lemma {:induction false} RecentMembers(items: seq<Observation>, cutoff: Time)
    ensures forall o | o in Recent(items, cutoff) :: o in items
  {
    if items != [] {
      RecentMembers(items[..|items| - 1], cutoff);
    }
  }

  lemma {:induction false} OfMembers(items: seq<Observation>, check: string)
    ensures forall o | o in Of(items, check) :: o.check == check && o in items
  {
    if items != [] {
      OfMembers(items[..|items| - 1], check);
    }
  }

  /** The loaded history is the old memory, seen through the later window. */
  lemma SeenThrough(known: set<string>, was: Store, file: seq<Line>, loaded: Store, early: Time, cutoff: Time, max: nat)
    requires Tidy(was, max) && Faithful(was, file, early, max) && early <= cutoff
    requires forall check | check in known :: Items(loaded, check) == Fold(Of(Records(file), check), cutoff, max)
    ensures forall check | check in known :: Items(loaded, check) == Recent(Items(was, check), cutoff)
  {
    forall check | check in known ensures Items(loaded, check) == Recent(Items(was, check), cutoff) {
      FoldIsTrimmedSort(Of(Records(file), check), cutoff, max);
      TrimIsRecent(Items(was, check), cutoff, max);
    }
  }

  lemma LeftOut(known: set<string>, file: seq<Line>, raw: Store, cutoff: Time, max: nat)
    requires forall check ::
               Items(raw, check) == if check in known then Recent(Of(Records(file), check), cutoff) else []
    ensures Untouched(known, file, cutoff, max)
            <==> !LeavesOut(known, file, cutoff) && !TooLong(raw, raw.Keys, max)
  {
    hide Recent, Of, Records, Kept;
    forall check | check in raw ensures raw[check] == Items(raw, check) {
    }
    if Untouched(known, file, cutoff, max) {
      forall check | check in raw ensures |raw[check]| <= max {
        assert check !in known ==> Items(raw, check) == [];
      }
    } else if forall line | line in file :: Kept(known, line, cutoff) {
      var check :| check in known && |Recent(Of(Records(file), check), cutoff)| > max;
      assert |Items(raw, check)| > max;
    }
  }

  lemma {:induction false} AllKnown(known: set<string>, file: seq<Line>, cutoff: Time)
    requires forall line | line in file :: Kept(known, line, cutoff)
    ensures forall o | o in Records(file) :: o.check in known
  {
    if file != [] {
      AllKnown(known, file[..|file| - 1], cutoff);
      assert Kept(known, file[|file| - 1], cutoff);
    }
  }

  lemma SortSize(items: seq<Observation>)
    ensures |SortAll(items)| == |items|
  {
    SortSorted(items, ByReceipt);
    assert |multiset(items)| == |multiset(SortAll(items))|;
  }

  /** A journal of which nothing was left out agrees with what was loaded from it. */
  lemma UntouchedIsFaithful(known: set<string>, file: seq<Line>, loaded: Store, cutoff: Time, max: nat)
    requires forall o | o in Records(file) :: o.check in known
    requires forall check ::
               Items(loaded, check) == if check in known then Fold(Of(Records(file), check), cutoff, max) else []
    ensures Faithful(loaded, file, cutoff, max)
  {
    forall check, later | cutoff <= later
      ensures Trim(SortAll(Of(Records(file), check)), later, max) == Trim(Items(loaded, check), later, max)
    {
      if check in known {
        FoldIsTrimmedSort(Of(Records(file), check), cutoff, max);
        TrimTrim(SortAll(Of(Records(file), check)), cutoff, later, max, max);
      } else {
        OfNone(Records(file), check);
      }
    }
  }

  lemma InsertInOrder(items: seq<Observation>, o: Observation)
    requires InOrder(items)
    ensures InOrder(InsertOne(items, o))
  {
    InsertSorted(items, o, ByReceipt);
  }

  /** A journal that lists the memory agrees with it. */
  lemma MemoryIsFaithful(history: Store, file: seq<Line>, cutoff: Time, max: nat)
    requires Tidy(history, max)
    requires forall check :: Of(Records(file), check) == Items(history, check)
    ensures Faithful(history, file, cutoff, max)
  {
    forall check, later | cutoff <= later
      ensures Trim(SortAll(Of(Records(file), check)), later, max) == Trim(Items(history, check), later, max)
    {
      SortInOrder(Items(history, check));
    }
  }

  lemma InOrderFront(items: seq<Observation>)
    requires InOrder(items) && items != []
    ensures InOrder(items[..|items| - 1])
    ensures |items| > 1 ==> ByReceipt(items[|items| - 2], items[|items| - 1])
  {
  }

  lemma {:induction false} SortInOrder(items: seq<Observation>)
    requires InOrder(items)
    ensures SortAll(items) == items
  {
    if items != [] {
      var front, last := items[..|items| - 1], items[|items| - 1];
      InOrderFront(items);
      hide InOrder;
      SortInOrder(front);
      InsertAfter(front, last);
    }
  }
}
