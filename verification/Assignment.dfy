// Which prober runs a check in steady state (internal/coordinator/assign.go).

/** Rendezvous hashing: who wins, as a relation on sets of probers. */
module Rendezvous {
  import opened Wrappers
  import opened Types
  import opened Sorting

  /** The hash of a check and a prober; any total function will do. */
  type Weight = (string, string) -> nat

  predicate Better(w: Weight, check: string, p: Peer, q: Peer) {
    w(check, p.name) > w(check, q.name) || (w(check, p.name) == w(check, q.name) && !StringLe(q.name, p.name))
  }

  ghost predicate DistinctlyNamed(ps: set<Peer>) {
    forall p, q | p in ps && q in ps && p.name == q.name :: p == q
  }

  ghost predicate Best(w: Weight, check: string, ps: set<Peer>, b: Peer) {
    b in ps && forall p | p in ps && p != b :: Better(w, check, b, p)
  }

  /** The best has the greatest weight, and the smallest name among those with that weight. */
  lemma GreatestWins(w: Weight, check: string, ps: set<Peer>, b: Peer)
    requires DistinctlyNamed(ps)
    ensures Best(w, check, ps, b)
            <==> && b in ps
                 && (forall p | p in ps :: w(check, p.name) <= w(check, b.name))
                 && (forall p | p in ps && w(check, p.name) == w(check, b.name) :: StringLe(b.name, p.name))
  {
    forall p | p in ps && b in ps ensures StringLe(b.name, p.name) <==> p == b || !StringLe(p.name, b.name) {
      StringLeTotal(p.name, b.name);
    }
  }

  /** The winner's name, if there is anyone to win. */
  ghost predicate Wins(w: Weight, check: string, ps: set<Peer>, owner: Option<string>) {
    if ps == {} then owner == None
    else exists b :: Best(w, check, ps, b) && owner == Some(b.name)
  }

  lemma BetterTotal(w: Weight, check: string, p: Peer, q: Peer)
    requires p.name != q.name
    ensures Better(w, check, p, q) <==> !Better(w, check, q, p)
  {
    StringLeTotal(p.name, q.name);
  }

  lemma BetterTransitive(w: Weight, check: string, p: Peer, q: Peer, r: Peer)
    requires Better(w, check, p, q) && Better(w, check, q, r)
    ensures Better(w, check, p, r)
  {
    if w(check, p.name) == w(check, q.name) == w(check, r.name) && StringLe(r.name, p.name) {
      StringLeTotal(q.name, r.name);
      StringLeTotal(p.name, q.name);
      StringLeTransitive(r.name, p.name, q.name);
    }
  }

  lemma BestUnique(w: Weight, check: string, ps: set<Peer>, a: Peer, b: Peer)
    requires DistinctlyNamed(ps) && Best(w, check, ps, a) && Best(w, check, ps, b)
    ensures a == b
  {
    if a != b {
      BetterTotal(w, check, a, b);
    }
  }

  /** The winner among many still wins among fewer, as long as it is there. */
  lemma BestOfFewer(w: Weight, check: string, more: set<Peer>, fewer: set<Peer>, b: Peer)
    requires Best(w, check, more, b) && fewer <= more && b in fewer
    ensures Best(w, check, fewer, b)
  {
  }

  /** With one more prober, either it wins or the old winner does. */
  lemma BestOfMore(w: Weight, check: string, ps: set<Peer>, b: Peer, p: Peer)
    requires DistinctlyNamed(ps + {p}) && Best(w, check, ps, b) && p !in ps
    ensures if Better(w, check, p, b) then Best(w, check, ps + {p}, p) else Best(w, check, ps + {p}, b)
  {
    if Better(w, check, p, b) {
      forall q | q in ps ensures Better(w, check, p, q) {
        if q != b {
          BetterTransitive(w, check, p, b, q);
        }
      }
    } else {
      BetterTotal(w, check, p, b);
    }
  }

  ghost function Available(ps: set<Peer>, unavailable: set<string>): set<Peer> {
    set p | p in ps && p.name !in unavailable
  }

  /** The owner when everyone is in service. */
  ghost predicate BaseOwner(w: Weight, chk: Check, eligible: set<Peer>, owner: Option<string>) {
    if chk.prober != "" then owner == Some(chk.prober) else Wins(w, chk.name, eligible, owner)
  }

  /**
   * The owner: the preferred prober unless it is out of service and not just recovering, and otherwise the
   * winner among those in service.
   */
  ghost predicate Owns(w: Weight, chk: Check, eligible: set<Peer>, unavailable: set<string>, recovering: set<string>,
                       owner: Option<string>) {
    exists base :: BaseOwner(w, chk, eligible, base) && OwnsWith(w, chk, eligible, unavailable, recovering, base, owner)
  }

  ghost predicate OwnsWith(w: Weight, chk: Check, eligible: set<Peer>, unavailable: set<string>,
                           recovering: set<string>,
                           base: Option<string>, owner: Option<string>) {
    if base.None? then owner == None
    else if base.value !in unavailable || base.value in recovering then owner == base
    else Wins(w, chk.name, Available(eligible, unavailable), owner)
  }

  lemma WinsUnique(w: Weight, check: string, ps: set<Peer>, a: Option<string>, b: Option<string>)
    requires DistinctlyNamed(ps) && Wins(w, check, ps, a) && Wins(w, check, ps, b)
    ensures a == b
  {
    if ps != {} {
      var p :| Best(w, check, ps, p) && a == Some(p.name);
      var q :| Best(w, check, ps, q) && b == Some(q.name);
      BestUnique(w, check, ps, p, q);
    }
  }

  /** The owner does not depend on the order in which the probers are listed, or on anything else. */
  lemma OwnerUnique(w: Weight, chk: Check, eligible: set<Peer>, unavailable: set<string>, recovering: set<string>,
                    a: Option<string>, b: Option<string>)
    requires DistinctlyNamed(eligible)
    requires Owns(w, chk, eligible, unavailable, recovering, a)
    requires Owns(w, chk, eligible, unavailable, recovering, b)
    ensures a == b
  {
    var x :| BaseOwner(w, chk, eligible, x) && OwnsWith(w, chk, eligible, unavailable, recovering, x, a);
    var y :| BaseOwner(w, chk, eligible, y) && OwnsWith(w, chk, eligible, unavailable, recovering, y, b);
    if chk.prober == "" {
      WinsUnique(w, chk.name, eligible, x, y);
    }
    if x.Some? && x.value in unavailable && x.value !in recovering {
      WinsUnique(w, chk.name, Available(eligible, unavailable), a, b);
    }
  }

  /** Taking more probers out of service moves no check whose owner stays in service. */
  lemma OutOfServiceMovesOnlyTheirs(w: Weight, chk: Check, eligible: set<Peer>, few: set<string>, many: set<string>,
                                    recovering: set<string>, a: Option<string>, b: Option<string>)
    requires DistinctlyNamed(eligible) && few <= many
    requires Owns(w, chk, eligible, few, recovering, a) && Owns(w, chk, eligible, many, recovering, b)
    requires a.Some? && a.value !in many
    ensures b == a
  {
    var base :| BaseOwner(w, chk, eligible, base) && OwnsWith(w, chk, eligible, few, recovering, base, a);
    if base != a {
      var p :| Best(w, chk.name, Available(eligible, few), p) && a == Some(p.name);
      BestOfFewer(w, chk.name, Available(eligible, few), Available(eligible, many), p);
      assert Wins(w, chk.name, Available(eligible, many), a);
    }
    assert OwnsWith(w, chk, eligible, many, recovering, base, a);
    OwnerUnique(w, chk, eligible, many, recovering, a, b);
  }

  /**
   * The newcomer is itself out of service, yet becomes the preferred owner in place of one that only kept the
   * check because it is recovering.
   */
  ghost predicate Upsets(w: Weight, chk: Check, eligible: set<Peer>, unavailable: set<string>,
                         recovering: set<string>, p: Peer) {
    && chk.prober == "" && p.name in unavailable && p.name !in recovering
    && exists b :: Best(w, chk.name, eligible, b) && b.name in unavailable && b.name in recovering
                   && Better(w, chk.name, p, b)
  }

  /** A new prober takes a check itself or leaves it where it is: exactly unless it upsets a recovering owner. */
  lemma NewcomerMovesOnlyToItself(w: Weight, chk: Check, eligible: set<Peer>, unavailable: set<string>,
                                  recovering: set<string>, p: Peer, a: Option<string>, b: Option<string>)
    requires DistinctlyNamed(eligible + {p}) && p !in eligible
    requires Owns(w, chk, eligible, unavailable, recovering, a)
    requires Owns(w, chk, eligible + {p}, unavailable, recovering, b)
    ensures (b == a || b == Some(p.name)) <==> !Upsets(w, chk, eligible, unavailable, recovering, p)
  {
    var x :| BaseOwner(w, chk, eligible, x) && OwnsWith(w, chk, eligible, unavailable, recovering, x, a);
    var y :| BaseOwner(w, chk, eligible + {p}, y) && OwnsWith(w, chk, eligible + {p}, unavailable, recovering, y, b);
    if chk.prober != "" {
      NewcomerAmongAvailable(w, chk, eligible, unavailable, p);
      SameBase(w, chk, eligible, unavailable, recovering, p, x, a, b);
    } else if eligible == {} {
      assert Available(eligible + {p}, unavailable) == if p.name in unavailable then {} else {p};
      NewcomerAlone(w, chk, p, y);
    } else {
      var best :| Best(w, chk.name, eligible, best) && x == Some(best.name);
      BestOfMore(w, chk.name, eligible, best, p);
      if Better(w, chk.name, p, best) {
        assert Wins(w, chk.name, eligible + {p}, Some(p.name));
        WinsUnique(w, chk.name, eligible + {p}, y, Some(p.name));
        NewcomerPreferred(w, chk, eligible, unavailable, recovering, p, best, a, b);
      } else {
        assert Wins(w, chk.name, eligible + {p}, x);
        WinsUnique(w, chk.name, eligible + {p}, y, x);
        SameBase(w, chk, eligible, unavailable, recovering, p, x, a, b);
        NotUpset(w, chk, eligible, unavailable, recovering, p, best);
      }
    }
  }

  lemma NewcomerAlone(w: Weight, chk: Check, p: Peer, y: Option<string>)
    requires Wins(w, chk.name, {} + {p}, y)
    ensures y == Some(p.name)
  {
    var b :| Best(w, chk.name, {p}, b) && y == Some(b.name);
  }

  lemma NewcomerAmongAvailable(w: Weight, chk: Check, eligible: set<Peer>, unavailable: set<string>, p: Peer)
    ensures Available(eligible + {p}, unavailable)
            == Available(eligible, unavailable) + if p.name in unavailable then {} else {p}
  {
  }

  /** The preferred owner stays the same: then the newcomer can at most win among those in service. */
  lemma SameBase(w: Weight, chk: Check, eligible: set<Peer>, unavailable: set<string>, recovering: set<string>, p: Peer,
                 base: Option<string>, a: Option<string>, b: Option<string>)
    requires DistinctlyNamed(eligible + {p}) && p !in eligible
    requires OwnsWith(w, chk, eligible, unavailable, recovering, base, a)
    requires OwnsWith(w, chk, eligible + {p}, unavailable, recovering, base, b)
    ensures b == a || b == Some(p.name)
  {
    NewcomerAmongAvailable(w, chk, eligible, unavailable, p);
    var before, after := Available(eligible, unavailable), Available(eligible + {p}, unavailable);
    if base.Some? && base.value in unavailable && base.value !in recovering {
      if p.name in unavailable {
        WinsUnique(w, chk.name, after, a, b);
      } else if before != {} {
        var best :| Best(w, chk.name, before, best) && a == Some(best.name);
        BestOfMore(w, chk.name, before, best, p);
        assert Wins(w, chk.name, after, if Better(w, chk.name, p, best) then Some(p.name) else a);
        WinsUnique(w, chk.name, after, b, if Better(w, chk.name, p, best) then Some(p.name) else a);
      } else {
        var q :| Best(w, chk.name, after, q) && b == Some(q.name);
      }
    }
  }

  lemma NotUpset(w: Weight, chk: Check, eligible: set<Peer>, unavailable: set<string>, recovering: set<string>,
                 p: Peer, best: Peer)
    requires DistinctlyNamed(eligible) && Best(w, chk.name, eligible, best) && !Better(w, chk.name, p, best)
    ensures !Upsets(w, chk, eligible, unavailable, recovering, p)
  {
    forall b | Best(w, chk.name, eligible, b) ensures b == best {
      BestUnique(w, chk.name, eligible, b, best);
    }
  }

  /** The newcomer becomes the preferred owner. */
  lemma NewcomerPreferred(w: Weight, chk: Check, eligible: set<Peer>, unavailable: set<string>, recovering: set<string>,
                          p: Peer, best: Peer, a: Option<string>, b: Option<string>)
    requires DistinctlyNamed(eligible + {p}) && p !in eligible && chk.prober == ""
    requires Best(w, chk.name, eligible, best) && Better(w, chk.name, p, best)
    requires OwnsWith(w, chk, eligible, unavailable, recovering, Some(best.name), a)
    requires OwnsWith(w, chk, eligible + {p}, unavailable, recovering, Some(p.name), b)
    ensures (b == a || b == Some(p.name)) <==> !Upsets(w, chk, eligible, unavailable, recovering, p)
  {
    NewcomerAmongAvailable(w, chk, eligible, unavailable, p);
    var available := Available(eligible, unavailable);
    forall q | Best(w, chk.name, eligible, q) ensures q == best {
      BestUnique(w, chk.name, eligible, q, best);
    }
    if p.name in unavailable && p.name !in recovering {
      if best.name !in unavailable {
        BestOfFewer(w, chk.name, eligible, available, best);
        assert Wins(w, chk.name, available, a);
      }
      if best.name !in unavailable || best.name !in recovering {
        WinsUnique(w, chk.name, available, a, b);
      } else {
        assert b.Some? ==> exists q :: q in available && b == Some(q.name);
      }
    }
  }

  /** The exception occurs: a check moves from one prober to another although neither is the newcomer. */
  lemma NewcomerCanUpset()
    returns (w: Weight, chk: Check, veteran: Peer, third: Peer, p: Peer, unavailable: set<string>)
    ensures Owns(w, chk, {veteran, third}, unavailable, {veteran.name}, Some(veteran.name))
    ensures Owns(w, chk, {veteran, third} + {p}, unavailable, {veteran.name}, Some(third.name))
    ensures veteran.name != third.name && p.name != third.name && p.name != veteran.name
  {
    w := (check, name) => if name == "c" then 3 else if name == "a" then 2 else 1;
    chk := Check("web", Public, QuorumRule(1, 1, false), "", "", []);
    veteran, third, p := Peer("a", "", map[]), Peer("b", "", map[]), Peer("c", "", map[]);
    unavailable := {"a", "c"};
    ThirdTakesOver(w, chk, veteran, third, p);
  }

  /** A newcomer out of service that outranks a recovering owner leaves the check to a third prober. */
  lemma ThirdTakesOver(w: Weight, chk: Check, veteran: Peer, third: Peer, p: Peer)
    requires chk.prober == "" && veteran.name != third.name && p.name != third.name && p.name != veteran.name
    requires Better(w, chk.name, veteran, third) && Better(w, chk.name, p, veteran) && Better(w, chk.name, p, third)
    ensures Owns(w, chk, {veteran, third}, {veteran.name, p.name}, {veteran.name}, Some(veteran.name))
    ensures Owns(w, chk, {veteran, third} + {p}, {veteran.name, p.name}, {veteran.name}, Some(third.name))
  {
    hide Better;
    assert Best(w, chk.name, {veteran, third}, veteran);
    assert Best(w, chk.name, {veteran, third} + {p}, p);
    assert Available({veteran, third} + {p}, {veteran.name, p.name}) == {third};
    assert Best(w, chk.name, {third}, third);
    assert BaseOwner(w, chk, {veteran, third}, Some(veteran.name));
    assert BaseOwner(w, chk, {veteran, third} + {p}, Some(p.name));
  }
}

/** The loops. */
module Assignment {
  import opened Wrappers
  import opened Types
  import opened Sorting
  import opened Fleet
  import opened Corroboration
  import opened Rendezvous

  method Assign(w: Weight, check: string, peers: seq<Peer>) returns (best: Option<Peer>)
    requires UniqueNames(peers)
    ensures best.None? <==> peers == []
    ensures best.Some? ==> Best(w, check, Elements(peers), best.value)
  {
    best := None;
    var score := 0;
    for i := 0 to |peers|
      invariant best.None? <==> i == 0
      invariant best.Some? ==> Best(w, check, Elements(peers[..i]), best.value) && score == w(check, best.value.name)
    {
      var p := peers[i];
      PrefixStep(peers, i);
      var s := w(check, p.name);
      if best.Some? {
        if p in Elements(peers[..i]) {
          assert Elements(peers[..i + 1]) == Elements(peers[..i]);
          KnownPeer(w, check, Elements(peers[..i]), best.value, p);
        } else {
          BestOfMore(w, check, Elements(peers[..i]), best.value, p);
        }
      }
      if best.None? || s > score || (s == score && !StringLe(best.value.name, p.name)) {
        best, score := Some(p), s;
      }
    }
    assert peers[..|peers|] == peers;
  }

  lemma KnownPeer(w: Weight, check: string, ps: set<Peer>, best: Peer, p: Peer)
    requires DistinctlyNamed(ps) && Best(w, check, ps, best) && p in ps
    ensures !Better(w, check, p, best)
  {
    StringLeTotal(best.name, best.name);
    if p != best {
      BetterTotal(w, check, best, p);
    }
  }

  method BaseAssignedTo(w: Weight, chk: Check, peers: seq<Peer>) returns (owner: Option<string>)
    requires UniqueNames(peers) && Distinct(peers)
    ensures BaseOwner(w, chk, EligibleSet(chk, peers), owner)
  {
    if chk.prober != "" {
      return Some(chk.prober);
    }
    var eligible := EligiblePeers(chk, peers);
    assert forall p | p in eligible :: p in Elements(eligible);
    var p := Assign(w, chk.name, eligible);
    assert eligible == [] <==> Elements(eligible) == {} by {
      if eligible != [] {
        assert eligible[0] in Elements(eligible);
      }
    }
    owner := if p.Some? then Some(p.value.name) else None;
  }

  method AssignedTo(w: Weight, chk: Check, peers: seq<Peer>, unavailable: set<string>, recovering: set<string>)
    returns (owner: Option<string>)
    requires UniqueNames(peers) && Distinct(peers)
    ensures Owns(w, chk, EligibleSet(chk, peers), unavailable, recovering, owner)
  {
    var preferred := BaseAssignedTo(w, chk, peers);
    ghost var all := EligibleSet(chk, peers);
    if preferred.None? {
      owner := None;
      assert OwnsWith(w, chk, all, unavailable, recovering, preferred, owner);
      return;
    }
    var absent := unavailable;
    if preferred.value in absent && preferred.value in recovering {
      absent := absent - {preferred.value};
    }
    if preferred.value !in absent {
      owner := preferred;
      assert OwnsWith(w, chk, all, unavailable, recovering, preferred, owner);
      return;
    }
    var eligible := EligiblePeers(chk, peers);
    assert forall p | p in eligible :: p in Elements(eligible);
    var healthy: seq<Peer> := [];
    for i := 0 to |eligible|
      invariant Elements(healthy) == Available(Elements(eligible[..i]), absent)
    {
      PrefixStep(eligible, i);
      ElementsAppend(healthy, eligible[i]);
      if eligible[i].name !in absent {
        healthy := healthy + [eligible[i]];
      }
    }
    assert eligible[..|eligible|] == eligible;
    assert forall p | p in healthy :: p in Elements(healthy);
    var p := Assign(w, chk.name, healthy);
    assert healthy == [] <==> Elements(healthy) == {} by {
      if healthy != [] {
        assert healthy[0] in Elements(healthy);
      }
    }
    owner := if p.Some? then Some(p.value.name) else None;
    assert OwnsWith(w, chk, all, unavailable, recovering, preferred, owner);
  }
}
