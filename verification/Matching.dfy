// Counting independent votes (internal/quorum/quorum.go, IndependentResults).

/**
 * A vote has two keys: who cast it (the prober, or its hosting provider when the rule asks for
 * provider diversity) and where it left the network (the prober itself, or a proxy exit).
 * A set of votes is independent when no two of them share a key of either kind.
 */
module Independence {
  import opened Types

  function ProviderKey(provider: string): string {
    var trimmed := TrimSpace(provider);
    if trimmed == "" then "unknown" else trimmed
  }

  function LeftKey(r: Result, distinctProviders: bool): string {
    if distinctProviders then ProviderKey(r.provider) else r.prober
  }

  function RightKey(r: Result): string {
    if r.proxyProfile != "" then "proxy:" + r.egress else "direct:" + r.prober
  }

  /** A proxied result that cannot name its exit is no vote at all. */
  predicate Routed(r: Result) {
    r.proxyProfile == "" || r.egress != ""
  }

  ghost predicate Independent(votes: set<Result>, distinctProviders: bool) {
    forall a, b | a in votes && b in votes && a != b ::
      LeftKey(a, distinctProviders) != LeftKey(b, distinctProviders) && RightKey(a) != RightKey(b)
  }

  /** `votes` is an independent choice among `results`. */
  ghost predicate Selection(votes: set<Result>, results: set<Result>, distinctProviders: bool) {
    && votes <= results
    && (forall r | r in votes :: Routed(r))
    && Independent(votes, distinctProviders)
  }

  ghost function LargestUpTo(results: set<Result>, distinctProviders: bool, bound: nat): nat {
    if bound == 0 || exists votes :: Selection(votes, results, distinctProviders) && |votes| == bound then bound
    else LargestUpTo(results, distinctProviders, bound - 1)
  }

  /** The size of a largest independent choice: the number that every quorum decision compares with. */
  ghost function IndependentCount(results: set<Result>, distinctProviders: bool): nat {
    LargestUpTo(results, distinctProviders, |results|)
  }

  lemma {:induction false} LargestUpToIsLargest(results: set<Result>, distinctProviders: bool, bound: nat)
    ensures exists votes :: Selection(votes, results, distinctProviders)
                            && |votes| == LargestUpTo(results, distinctProviders, bound)
    ensures forall votes | Selection(votes, results, distinctProviders) && |votes| <= bound ::
              |votes| <= LargestUpTo(results, distinctProviders, bound)
  {
    if bound == 0 {
      assert Selection({}, results, distinctProviders);
    } else if !exists votes :: Selection(votes, results, distinctProviders) && |votes| == bound {
      LargestUpToIsLargest(results, distinctProviders, bound - 1);
    }
  }

  /** The count is attained, and nothing independent is larger. */
  lemma CountIsMaximum(results: set<Result>, distinctProviders: bool) returns (best: set<Result>)
    ensures Selection(best, results, distinctProviders) && |best| == IndependentCount(results, distinctProviders)
    ensures forall votes | Selection(votes, results, distinctProviders) ::
              |votes| <= IndependentCount(results, distinctProviders)
  {
    LargestUpToIsLargest(results, distinctProviders, |results|);
    best :| Selection(best, results, distinctProviders) && |best| == IndependentCount(results, distinctProviders);
    forall votes | Selection(votes, results, distinctProviders)
      ensures |votes| <= IndependentCount(results, distinctProviders)
    {
      SubsetSize(votes, results);
    }
  }

  /** Whatever is independent and at least as large as every other independent choice has the size counted. */
  lemma CountUnique(results: set<Result>, distinctProviders: bool, votes: set<Result>)
    requires Selection(votes, results, distinctProviders)
    requires forall other | Selection(other, results, distinctProviders) :: |other| <= |votes|
    ensures |votes| == IndependentCount(results, distinctProviders)
  {
    var best := CountIsMaximum(results, distinctProviders);
  }

  /** More evidence never lowers the count. */
  lemma CountMonotone(fewer: set<Result>, more: set<Result>, distinctProviders: bool)
    requires fewer <= more
    ensures IndependentCount(fewer, distinctProviders) <= IndependentCount(more, distinctProviders)
  {
    var small := CountIsMaximum(fewer, distinctProviders);
    var large := CountIsMaximum(more, distinctProviders);
    assert Selection(small, more, distinctProviders);
  }

  /** One more vote raises the count by at most one. */
  lemma CountStep(results: set<Result>, r: Result, distinctProviders: bool)
    ensures IndependentCount(results + {r}, distinctProviders) <= IndependentCount(results, distinctProviders) + 1
  {
    var small := CountIsMaximum(results, distinctProviders);
    var large := CountIsMaximum(results + {r}, distinctProviders);
    var rest := large - {r};
    assert Selection(rest, results, distinctProviders);
    assert |rest| <= |small|;
    assert large <= rest + {r};
    SubsetSize(large, rest + {r});
  }

  lemma SubsetSize<T>(small: set<T>, large: set<T>)
    requires small <= large
    ensures |small| <= |large|
  {
    assert large == small + (large - small);
  }

  /** An injective assignment of members of `ks` to the elements of `s` bounds the size of `s`. */
  lemma {:induction false} Pigeonhole<S, K>(s: set<S>, f: map<S, K>, ks: set<K>)
    requires f.Keys == s
    requires forall a | a in s :: f[a] in ks
    requires forall a, b | a in s && b in s && a != b :: f[a] != f[b]
    ensures |s| <= |ks|
  {
    if s != {} {
      var a :| a in s;
      Pigeonhole(s - {a}, f - {a}, ks - {f[a]});
    }
  }

  /** The two kinds of right key never collide, so equal keys mean the same exit. */
  lemma RightKeysSeparate(a: Result, b: Result)
    ensures RightKey(a) == RightKey(b) <==>
              (a.proxyProfile == "" <==> b.proxyProfile == "")
              && if a.proxyProfile == "" then a.prober == b.prober else a.egress == b.egress
  {
    assert RightKey(a)[0] == if a.proxyProfile == "" then 'd' else 'p';
    assert RightKey(b)[0] == if b.proxyProfile == "" then 'd' else 'p';
    if a.proxyProfile == "" {
      assert RightKey(a)[|"direct:"|..] == a.prober;
    } else {
      assert RightKey(a)[|"proxy:"|..] == a.egress;
    }
    if b.proxyProfile == "" {
      assert RightKey(b)[|"direct:"|..] == b.prober;
    } else {
      assert RightKey(b)[|"proxy:"|..] == b.egress;
    }
  }
}

/** The augmenting-path search of `IndependentResults`. */
module Matching {
  import opened Wrappers
  import opened Types
  import opened Sorting
  import opened Independence

  type Edges = map<string, seq<Result>>

  /** No right key of `m` outside `hole` shares its left key with another one. */
  ghost predicate InjectiveOff(m: map<string, string>, hole: Option<string>) {
    forall a, b | a in m && b in m && a != b && m[a] == m[b] :: hole == Some(a) || hole == Some(b)
  }

  /**
   * `dead` holds left keys whose neighbours are all matched back into `dead`: no search that reaches
   * one of them can find a free right key.
   */
  ghost predicate Dead(edges: Edges, m: map<string, string>, dead: set<string>) {
    forall left, e | left in dead && left in edges && e in edges[left] ::
      RightKey(e) in m && m[RightKey(e)] in dead
  }

  /** Every neighbour of `left` has been visited. */
  ghost predicate Exhausted(edges: Edges, left: string, seen: set<string>) {
    left in edges && forall e | e in edges[left] :: RightKey(e) in seen
  }

  /** Everything visited since `before` is matched, and the search from its partner came back empty. */
  ghost predicate DeadEnds(edges: Edges, m: map<string, string>, before: set<string>, seen: set<string>) {
    forall right | right in seen && right !in before :: right in m && Exhausted(edges, m[right], seen)
  }

  /**
   * `m2` matches one more time `left` than `m1`, at a right key not in `seen`, keeps what was already
   * visited, and keeps every match of a dead left key. `hole` is the right key that `left` is about to lose.
   */
  ghost predicate Augmented(m1: map<string, string>, m2: map<string, string>, left: string,
                            hole: Option<string>, seen: set<string>, dead: set<string>) {
    && InjectiveOff(m2, hole)
    && (exists right :: right in m2 && right !in seen && m2[right] == left)
    && (forall right | right in m2 :: m2[right] == left || m2[right] in m1.Values)
    && (forall right | right in m1 :: m1[right] in m2.Values)
    && (forall right | right in seen :: (right in m1 <==> right in m2) && (right in m1 ==> m1[right] == m2[right]))
    && left !in dead
    && (forall right | right in m1 && m1[right] in dead :: right in m2 && m2[right] == m1[right])
  }

  /** Every matched right key was selected for a vote of the left key it is matched with. */
  ghost predicate Matches(edges: Edges, matched: map<string, string>, selected: map<string, Result>) {
    && selected.Keys == matched.Keys
    && forall right | right in matched ::
         && matched[right] in edges
         && selected[right] in edges[matched[right]]
         && RightKey(selected[right]) == right
  }

  ghost function Neighbours(edges: Edges): set<string> {
    set left, e | left in edges && e in edges[left] :: RightKey(e)
  }

  /** The maps that the source's closure captures. */
  class Matcher {
    const edges: Edges
    ghost const rights: set<string>
    var matched: map<string, string>
    var selected: map<string, Result>
    var seen: set<string>

    ghost predicate Valid()
      reads this
    {
      && Neighbours(edges) <= rights
      && seen <= rights
      && Matches(edges, matched, selected)
    }

    constructor (edges: Edges)
      ensures Valid() && this.edges == edges
      ensures matched == map[] && selected == map[] && seen == {}
    {
      this.edges := edges;
      rights := Neighbours(edges);
      matched, selected, seen := map[], map[], {};
    }

    method Visit(left: string, ghost hole: Option<string>, ghost dead: set<string>) returns (found: bool)
      requires Valid() && left in edges
      requires InjectiveOff(matched, None) && Dead(edges, matched, dead)
      requires if hole.Some? then hole.value in seen && hole.value in matched && matched[hole.value] == left
               else left !in matched.Values
      modifies this`matched, this`selected, this`seen
      ensures Valid() && old(seen) <= seen
      ensures found ==> Augmented(old(matched), matched, left, hole, old(seen), dead)
      ensures !found ==> matched == old(matched) && selected == old(selected)
      ensures !found ==> Exhausted(edges, left, seen) && DeadEnds(edges, matched, old(seen), seen)
      decreases rights - seen
    {
      ghost var m := matched;
      for i := 0 to |edges[left]|
        invariant Valid() && old(seen) <= seen
        invariant matched == m && selected == old(selected)
        invariant forall k | 0 <= k < i :: RightKey(edges[left][k]) in seen
        invariant DeadEnds(edges, m, old(seen), seen)
      {
        var r := edges[left][i];
        var right := RightKey(r);
        if right in seen {
          continue;
        }
        ghost var before := seen;
        assert right in Neighbours(edges);
        seen := seen + {right};
        found := right !in matched;
        if !found {
          found := Visit(matched[right], Some(right), dead);
        }
        assert old(seen) <= before <= seen;
        if found {
          Replace(edges, m, matched, left, hole, old(seen), before + {right}, r, dead);
          MatchesStep(edges, matched, selected, left, r);
          matched := matched[right := left];
          selected := selected[right := r];
          return true;
        }
        DeadEndsStep(edges, m, old(seen), before, right, seen);
      }
      return false;
    }
  }

  lemma MatchesStep(edges: Edges, matched: map<string, string>, selected: map<string, Result>, left: string, r: Result)
    requires Matches(edges, matched, selected)
    requires left in edges && r in edges[left]
    ensures Matches(edges, matched[RightKey(r) := left], selected[RightKey(r) := r])
  {
  }

  lemma DeadEndsStep(edges: Edges, m: map<string, string>, start: set<string>, before: set<string>,
                     right: string, seen: set<string>)
    requires DeadEnds(edges, m, start, before) && start <= before
    requires before + {right} <= seen && right in m
    requires Exhausted(edges, m[right], seen) && DeadEnds(edges, m, before + {right}, seen)
    ensures DeadEnds(edges, m, start, seen) && start <= seen
  {
  }

  /** The match of `left` over the edge `r`, once its right key is free or has been vacated. */
  lemma Replace(edges: Edges, m: map<string, string>, m1: map<string, string>, left: string, hole: Option<string>,
                seen: set<string>, seen1: set<string>, r: Result, dead: set<string>)
    requires left in edges && r in edges[left] && Dead(edges, m, dead)
    requires InjectiveOff(m, None)
    requires if hole.Some? then hole.value in seen && hole.value in m && m[hole.value] == left
             else left !in m.Values
    requires seen <= seen1 && RightKey(r) !in seen && RightKey(r) in seen1
    requires if RightKey(r) in m then Augmented(m, m1, m[RightKey(r)], Some(RightKey(r)), seen1, dead) else m1 == m
    ensures Augmented(m, m1[RightKey(r) := left], left, hole, seen, dead)
  {
    if RightKey(r) in m {
      ReplaceMoved(m, m1, left, hole, seen, seen1, RightKey(r), dead);
    } else {
      ReplaceFree(m, left, hole, seen, RightKey(r), dead);
    }
  }

  lemma ReplaceFree(m: map<string, string>, left: string, hole: Option<string>, seen: set<string>,
                    right: string, dead: set<string>)
    requires InjectiveOff(m, None)
    requires if hole.Some? then hole.value in seen && hole.value in m && m[hole.value] == left
             else left !in m.Values
    requires right !in m && right !in seen && left !in dead
    ensures Augmented(m, m[right := left], left, hole, seen, dead)
  {
    var m2 := m[right := left];
    forall a | a in m ensures m[a] in m2.Values {
      assert m2[a] == m[a];
    }
  }

  lemma ReplaceMoved(m: map<string, string>, m1: map<string, string>, left: string, hole: Option<string>,
                     seen: set<string>, seen1: set<string>, right: string, dead: set<string>)
    requires InjectiveOff(m, None)
    requires if hole.Some? then hole.value in seen && hole.value in m && m[hole.value] == left
             else left !in m.Values
    requires seen <= seen1 && right !in seen && right in seen1 && right in m && left !in dead
    requires Augmented(m, m1, m[right], Some(right), seen1, dead)
    ensures Augmented(m, m1[right := left], left, hole, seen, dead)
  {
    var m2 := m1[right := left];
    assert m1[right] == m[right];
    var moved :| moved in m1 && moved !in seen1 && m1[moved] == m[right];
    forall a | a in m ensures m[a] in m2.Values {
      var b :| b in m1 && m1[b] == m[a];
      assert b == right ==> m2[moved] == m[a];
      assert b != right ==> m2[b] == m[a];
    }
    forall a, b | a in m2 && b in m2 && a != b && m2[a] == m2[b] ensures hole == Some(a) || hole == Some(b) {
      if a == right || b == right {
        var c := if a == right then b else a;
        assert m1[c] == left;
        assert left in m.Values;
      }
    }
  }

  predicate ByProber(a: Result, b: Result) {
    StringLe(a.prober, b.prober)
  }

  lemma ByProberOrder()
    ensures TotalPreorder(ByProber)
  {
    StringOrder();
    forall a, b ensures ByProber(a, b) || ByProber(b, a) {
      assert StringLe(a.prober, b.prober) || StringLe(b.prober, a.prober);
    }
    forall a, b, c | ByProber(a, b) && ByProber(b, c) ensures ByProber(a, c) {
      assert StringLe(a.prober, b.prober) && StringLe(b.prober, c.prober);
    }
  }

  /** `edges` files exactly the routed results, each under its left key. */
  ghost predicate EdgesOf(edges: Edges, results: set<Result>, distinctProviders: bool) {
    && (forall left, e | left in edges && e in edges[left] ::
          e in results && Routed(e) && LeftKey(e, distinctProviders) == left)
    && (forall r | r in results && Routed(r) ::
          LeftKey(r, distinctProviders) in edges && r in edges[LeftKey(r, distinctProviders)])
  }

  method BuildEdges(results: seq<Result>, distinctProviders: bool) returns (edges: Edges)
    ensures EdgesOf(edges, Elements(results), distinctProviders)
  {
    edges := map[];
    NoEdges(distinctProviders);
    assert Elements(results[..0]) == {};
    hide EdgesOf, LeftKey, Routed;
    for i := 0 to |results|
      invariant EdgesOf(edges, Elements(results[..i]), distinctProviders)
    {
      var r := results[i];
      PrefixStep(results, i);
      EdgesStep(edges, Elements(results[..i]), distinctProviders, r);
      if Routed(r) {
        var left := LeftKey(r, distinctProviders);
        edges := edges[left := (if left in edges then edges[left] else []) + [r]];
      }
    }
    assert results[..|results|] == results;
  }

  lemma NoEdges(distinctProviders: bool)
    ensures EdgesOf(map[], {}, distinctProviders)
  {
  }

  lemma EdgesStep(edges: Edges, results: set<Result>, distinctProviders: bool, r: Result)
    requires EdgesOf(edges, results, distinctProviders)
    ensures var left := LeftKey(r, distinctProviders);
            var more := edges[left := (if left in edges then edges[left] else []) + [r]];
            EdgesOf(if Routed(r) then more else edges, results + {r}, distinctProviders)
  {
    hide LeftKey, Routed;
  }

  lemma SortedEdges(edges: Edges, results: set<Result>, distinctProviders: bool, left: string)
    requires EdgesOf(edges, results, distinctProviders) && left in edges
    ensures EdgesOf(edges[left := Sort(edges[left], ByProber)], results, distinctProviders)
  {
    SameElements(edges[left], Sort(edges[left], ByProber));
  }

  /** Orders the left keys, and the votes of each left key. */
  method SortEdges(unsorted: Edges, ghost results: set<Result>, distinctProviders: bool)
    returns (edges: Edges, lefts: seq<string>)
    requires EdgesOf(unsorted, results, distinctProviders)
    ensures EdgesOf(edges, results, distinctProviders)
    ensures Elements(lefts) == edges.Keys && Distinct(lefts) && SortedBy(lefts, StringLe)
  {
    hide EdgesOf, Distinct;
    edges, lefts := unsorted, [];
    var remaining := edges.Keys;
    assert Distinct(lefts) by {
      DistinctSize(lefts);
    }
    while remaining != {}
      invariant EdgesOf(edges, results, distinctProviders)
      invariant remaining <= edges.Keys && Elements(lefts) == edges.Keys - remaining && Distinct(lefts)
    {
      var left :| left in remaining;
      ElementsAppend(lefts, left);
      DistinctAppend(lefts, left);
      remaining := remaining - {left};
      lefts := lefts + [left];
      SortedEdges(edges, results, distinctProviders, left);
      edges := edges[left := Sort(edges[left], ByProber)];
    }
    StringOrder();
    SortSorted(lefts, StringLe);
    SameElements(lefts, Sort(lefts, StringLe));
    SameDistinct(lefts, Sort(lefts, StringLe));
    lefts := Sort(lefts, StringLe);
  }

  /** Once every left key is matched or dead, the matching cannot be enlarged. */
  ghost predicate Settled(edges: Edges, matched: map<string, string>, dead: set<string>) {
    && InjectiveOff(matched, None)
    && Dead(edges, matched, dead)
    && forall left | left in edges :: left in dead || left in matched.Values
  }

  lemma SettledIsMaximum(edges: Edges, matched: map<string, string>, selected: map<string, Result>, dead: set<string>,
                         results: set<Result>, distinctProviders: bool)
    requires EdgesOf(edges, results, distinctProviders)
    requires Matches(edges, matched, selected) && Settled(edges, matched, dead)
    ensures Selection(selected.Values, results, distinctProviders)
    ensures |selected| == |selected.Values| == IndependentCount(results, distinctProviders)
  {
    SelectedIndependent(edges, matched, selected, results, distinctProviders);
    ValuesSize(selected);
    forall votes | Selection(votes, results, distinctProviders) ensures |votes| <= |selected.Values| {
      SettledBounds(edges, matched, dead, results, distinctProviders, votes);
    }
    CountUnique(results, distinctProviders, selected.Values);
  }

  lemma SelectedIndependent(edges: Edges, matched: map<string, string>, selected: map<string, Result>,
                            results: set<Result>, distinctProviders: bool)
    requires EdgesOf(edges, results, distinctProviders)
    requires Matches(edges, matched, selected) && InjectiveOff(matched, None)
    ensures Selection(selected.Values, results, distinctProviders)
  {
    hide LeftKey, RightKey, Routed, EdgesOf, Matches;
    forall v | v in selected.Values ensures v in results && Routed(v) {
      SelectedVote(edges, matched, selected, results, distinctProviders, v);
    }
    forall a, b | a in selected.Values && b in selected.Values && a != b
      ensures LeftKey(a, distinctProviders) != LeftKey(b, distinctProviders) && RightKey(a) != RightKey(b)
    {
      SelectedVote(edges, matched, selected, results, distinctProviders, a);
      SelectedVote(edges, matched, selected, results, distinctProviders, b);
    }
  }

  lemma SelectedVote(edges: Edges, matched: map<string, string>, selected: map<string, Result>, results: set<Result>,
                     distinctProviders: bool, v: Result)
    requires EdgesOf(edges, results, distinctProviders) && Matches(edges, matched, selected) && v in selected.Values
    ensures v in results && Routed(v)
    ensures RightKey(v) in selected && selected[RightKey(v)] == v
    ensures RightKey(v) in matched && matched[RightKey(v)] == LeftKey(v, distinctProviders)
  {
    hide LeftKey, RightKey, Routed;
    var right :| right in selected && selected[right] == v;
    assert v in edges[matched[right]];
  }

  /** Each selected vote is filed under its own right key, so none is selected twice. */
  lemma ValuesSize(selected: map<string, Result>)
    requires forall right | right in selected :: RightKey(selected[right]) == right
    ensures |selected| == |selected.Values|
  {
    Pigeonhole(selected.Keys, selected, selected.Values);
    var back := map v | v in selected.Values :: RightKey(v);
    Pigeonhole(selected.Values, back, selected.Keys);
  }

  /**
   * Any independent choice fits into the matched right keys: a vote with a dead left key takes its own right
   * key, every other vote takes the right key that its left key is matched with.
   */
  lemma SettledBounds(edges: Edges, matched: map<string, string>, dead: set<string>,
                      results: set<Result>, distinctProviders: bool, votes: set<Result>)
    requires EdgesOf(edges, results, distinctProviders)
    requires Settled(edges, matched, dead) && Selection(votes, results, distinctProviders)
    ensures |votes| <= |matched.Keys|
  {
    hide LeftKey, RightKey, Routed;
    forall v | v in votes
      ensures exists right :: right in matched && Takes(matched, dead, distinctProviders, v, right)
    {
      var left := LeftKey(v, distinctProviders);
      if left in dead {
        assert Takes(matched, dead, distinctProviders, v, RightKey(v));
      } else {
        var right :| right in matched && matched[right] == left;
        assert Takes(matched, dead, distinctProviders, v, right);
      }
    }
    var takes := map v | v in votes ::
      var right :| right in matched && Takes(matched, dead, distinctProviders, v, right); right;
    Pigeonhole(votes, takes, matched.Keys);
  }

  ghost predicate Takes(matched: map<string, string>, dead: set<string>, distinctProviders: bool, v: Result,
                        right: string)
    requires right in matched
  {
    if LeftKey(v, distinctProviders) in dead then right == RightKey(v) && matched[right] in dead
    else matched[right] == LeftKey(v, distinctProviders)
  }

  /** Where the searches stand after the first `i` left keys. */
  ghost predicate Progress(edges: Edges, matched: map<string, string>, dead: set<string>, lefts: seq<string>, i: nat)
    requires i <= |lefts|
  {
    && InjectiveOff(matched, None)
    && Dead(edges, matched, dead)
    && (forall k | 0 <= k < i :: lefts[k] in dead || lefts[k] in matched.Values)
    && (forall k | i <= k < |lefts| :: lefts[k] !in matched.Values)
  }

  /** A failed search turns its left key, and everything it visited, into dead left keys. */
  lemma FailureStep(edges: Edges, matched: map<string, string>, dead: set<string>, lefts: seq<string>, i: nat,
                    seen: set<string>)
    requires i < |lefts| && Progress(edges, matched, dead, lefts, i)
    requires Exhausted(edges, lefts[i], seen) && DeadEnds(edges, matched, {}, seen)
    ensures Progress(edges, matched, dead + {lefts[i]} + (set right | right in seen :: matched[right]), lefts, i + 1)
  {
    var dead2 := dead + {lefts[i]} + set right | right in seen :: matched[right];
    assert Dead(edges, matched, dead2);
  }

  /** A successful search leaves the dead left keys dead. */
  lemma SuccessStep(edges: Edges, m1: map<string, string>, m2: map<string, string>, dead: set<string>,
                    lefts: seq<string>, i: nat)
    requires i < |lefts| && Distinct(lefts) && Progress(edges, m1, dead, lefts, i)
    requires Augmented(m1, m2, lefts[i], None, {}, dead)
    ensures Progress(edges, m2, dead, lefts, i + 1)
  {
    assert Dead(edges, m2, dead);
    forall k | 0 <= k < i + 1 ensures lefts[k] in dead || lefts[k] in m2.Values {
      if k < i && lefts[k] in m1.Values {
        var right :| right in m1 && m1[right] == lefts[k];
      }
    }
  }

  /** The selected votes in the order of their probers. */
  method Collect(selected: map<string, Result>) returns (out: seq<Result>)
    ensures Elements(out) == selected.Values && |out| == |selected|
    ensures SortedBy(out, ByProber)
  {
    out := [];
    var remaining := selected;
    while remaining != map[]
      invariant selected.Values == Elements(out) + remaining.Values
      invariant |out| + |remaining| == |selected|
      decreases |remaining|
    {
      var right :| right in remaining;
      ElementsAppend(out, remaining[right]);
      var rest := remaining - {right};
      assert remaining == rest[right := remaining[right]];
      assert remaining.Values == rest.Values + {remaining[right]};
      out := out + [remaining[right]];
      remaining := rest;
    }
    ByProberOrder();
    SortSorted(out, ByProber);
    SameElements(out, Sort(out, ByProber));
    out := Sort(out, ByProber);
  }

  /** The search from every left key in turn. */
  method Search(edges: Edges, lefts: seq<string>)
    returns (selected: map<string, Result>, ghost matched: map<string, string>, ghost dead: set<string>)
    requires Elements(lefts) == edges.Keys && Distinct(lefts)
    ensures Matches(edges, matched, selected) && Settled(edges, matched, dead)
  {
    var search := new Matcher(edges);
    dead := {};
    for i := 0 to |lefts|
      invariant search.Valid() && fresh(search) && search.edges == edges
      invariant Progress(edges, search.matched, dead, lefts, i)
    {
      ghost var m := search.matched;
      search.seen := {};
      assert lefts[i] in Elements(lefts);
      var found := search.Visit(lefts[i], None, dead);
      if found {
        SuccessStep(edges, m, search.matched, dead, lefts, i);
      } else {
        FailureStep(edges, m, dead, lefts, i, search.seen);
        dead := dead + {lefts[i]} + set right | right in search.seen :: m[right];
      }
    }
    AllSettled(edges, search.matched, dead, lefts);
    selected, matched := search.selected, search.matched;
  }

  lemma AllSettled(edges: Edges, matched: map<string, string>, dead: set<string>, lefts: seq<string>)
    requires Elements(lefts) == edges.Keys
    requires Progress(edges, matched, dead, lefts, |lefts|)
    ensures Settled(edges, matched, dead)
  {
    forall left | left in edges ensures left in dead || left in matched.Values {
      assert left in Elements(lefts);
    }
  }

  /**
   * The result is an independent choice among `results`, holds no vote twice, and no independent
   * choice is larger.
   */
  method IndependentResults(results: seq<Result>, distinctProviders: bool) returns (out: seq<Result>)
    ensures Selection(Elements(out), Elements(results), distinctProviders)
    ensures |out| == |Elements(out)| == IndependentCount(Elements(results), distinctProviders)
    ensures SortedBy(out, ByProber)
  {
    var unsorted := BuildEdges(results, distinctProviders);
    var edges, lefts := SortEdges(unsorted, Elements(results), distinctProviders);
    var selected;
    ghost var matched, dead;
    selected, matched, dead := Search(edges, lefts);
    SettledIsMaximum(edges, matched, selected, dead, Elements(results), distinctProviders);
    out := Collect(selected);
  }

  method CountIndependent(results: seq<Result>, distinctProviders: bool) returns (count: nat)
    ensures count == IndependentCount(Elements(results), distinctProviders)
  {
    var votes := IndependentResults(results, distinctProviders);
    count := |votes|;
  }
}
