/** What the two passes of the rack-aware chain amount to, and what a leaving node changes. */
module RackAware {
  import opened Lists
  import opened Numbers
  import opened HashRing

  /** The nodes that are the first of their rack, in order. */
  ghost function Firsts(all: seq<NodeDescriptor>): seq<NodeDescriptor> {
    if all == [] then []
    else
      var front, last := all[..|all| - 1], all[|all| - 1];
      Firsts(front) + if Rack(last) in AllRacks(front) then [] else [last]
  }

  /** The others, in order. */
  ghost function Others(all: seq<NodeDescriptor>): seq<NodeDescriptor> {
    if all == [] then []
    else
      var front, last := all[..|all| - 1], all[|all| - 1];
      Others(front) + if Rack(last) in AllRacks(front) then [last] else []
  }

  lemma Snoc(front: seq<NodeDescriptor>, last: NodeDescriptor)
    ensures Firsts(front + [last]) == Firsts(front) + if Rack(last) in AllRacks(front) then [] else [last]
    ensures Others(front + [last]) == Others(front) + if Rack(last) in AllRacks(front) then [last] else []
    ensures AllRacks(front + [last]) == AllRacks(front) + {Rack(last)}
  {
    var all := front + [last];
    assert all[..|all| - 1] == front;
    assert AllRacks(all) == AllRacks(front) + {Rack(last)} by {
      forall r | r in AllRacks(front) ensures r in AllRacks(all) {
        var n :| n in front && Rack(n) == r;
        assert n in all;
      }
      assert last in all;
    }
  }

  lemma {:induction false} Counts(all: seq<NodeDescriptor>)
    ensures |Firsts(all)| == |AllRacks(all)| && |Firsts(all)| + |Others(all)| == |all|
  {
    if all != [] {
      var front, last := all[..|all| - 1], all[|all| - 1];
      Counts(front);
      assert all == front + [last];
      Snoc(front, last);
      if Rack(last) in AllRacks(front) { AddMember(AllRacks(front), Rack(last)); }
    }
  }

  /** Later nodes only add to the end. */
  lemma {:induction false} Prefixes(a: seq<NodeDescriptor>, b: seq<NodeDescriptor>)
    ensures Firsts(a) <= Firsts(a + b) && Others(a) <= Others(a + b)
  {
    if b == [] {
      assert a + b == a;
    } else {
      var front, last := b[..|b| - 1], b[|b| - 1];
      Prefixes(a, front);
      assert a + b == (a + front) + [last];
      Snoc(a + front, last);
    }
  }

  /** The chain as it should be read: first the best node of every rack, then the rest, by rank, up to `rf`. */
  ghost function Order(ranked: seq<NodeDescriptor>): seq<NodeDescriptor> { Firsts(ranked) + Others(ranked) }

  // ---------------------------------------------------------------- the passes

  function Top<T>(rf: nat, s: seq<T>): seq<T> { s[..Min(rf, |s|)] }

  lemma IdsConcat(a: seq<NodeDescriptor>, b: seq<NodeDescriptor>)
    ensures Ids(a + b) == Ids(a) + Ids(b)
  {
  }

  lemma IdsPrefix(a: seq<NodeDescriptor>, b: seq<NodeDescriptor>)
    requires a <= b
    ensures Ids(a) == Ids(b)[..|a|]
  {
  }

  /** From `a` on, with the firsts of `a` taken. */
  lemma {:induction false} RackPassTakesFirsts(a: seq<NodeDescriptor>, rest: seq<NodeDescriptor>, rf: nat)
    requires |Firsts(a)| <= rf
    ensures RackPass(rest, rf, Ids(Firsts(a)), AllRacks(a)) == Top(rf, Ids(Firsts(a + rest)))
    decreases |rest|
  {
    if rest == [] {
      assert a + rest == a;
    } else if |Firsts(a)| == rf {
      Prefixes(a, rest);
      IdsPrefix(Firsts(a), Firsts(a + rest));
    } else {
      var n := rest[0];
      assert a + rest == (a + [n]) + rest[1..];
      if Rack(n) in AllRacks(a) {
        OldRack(a, n);
      } else {
        NewRack(a, n);
        IdsSnoc(Firsts(a), n);
      }
      RackPassTakesFirsts(a + [n], rest[1..], rf);
    }
  }

  lemma OldRack(a: seq<NodeDescriptor>, n: NodeDescriptor)
    requires Rack(n) in AllRacks(a)
    ensures Firsts(a + [n]) == Firsts(a) && Others(a + [n]) == Others(a) + [n] && AllRacks(a + [n]) == AllRacks(a)
  {
    Snoc(a, n);
    AddMember(AllRacks(a), Rack(n));
  }

  lemma NewRack(a: seq<NodeDescriptor>, n: NodeDescriptor)
    requires Rack(n) !in AllRacks(a)
    ensures Firsts(a + [n]) == Firsts(a) + [n] && Others(a + [n]) == Others(a)
    ensures AllRacks(a + [n]) == AllRacks(a) + {Rack(n)}
  {
    Snoc(a, n);
  }

  lemma IdsSnoc(f: seq<NodeDescriptor>, n: NodeDescriptor)
    ensures Ids(f + [n]) == Ids(f) + [n.id]
  {
  }

  lemma AddMember<T>(s: set<T>, x: T)
    requires x in s
    ensures s + {x} == s
  {
  }

  lemma FillStep(rest: seq<NodeDescriptor>, rf: nat, selected: seq<string>)
    requires rest != [] && |selected| < rf
    ensures FillPass(rest, rf, selected) ==
      FillPass(rest[1..], rf, if rest[0].id in selected then selected else selected + [rest[0].id])
  {
  }

  lemma TakenStep(f: seq<NodeDescriptor>, a: seq<NodeDescriptor>, n: NodeDescriptor)
    ensures Ids(f + Others(a + [n])) ==
      if Rack(n) in AllRacks(a) then Ids(f + Others(a)) + [n.id] else Ids(f + Others(a))
    ensures |Others(a + [n])| <= |Others(a)| + 1
  {
    if Rack(n) in AllRacks(a) {
      OldRack(a, n);
      assert f + (Others(a) + [n]) == (f + Others(a)) + [n];
      IdsSnoc(f + Others(a), n);
    } else {
      NewRack(a, n);
    }
  }

  /** From `a` on, with all firsts and the others of `a` taken. */
  lemma {:induction false} FillPassTakesOthers(a: seq<NodeDescriptor>, rest: seq<NodeDescriptor>, rf: nat)
    requires Membership(a + rest) && |Firsts(a + rest)| + |Others(a)| <= rf
    ensures FillPass(rest, rf, Ids(Firsts(a + rest) + Others(a))) == Top(rf, Ids(Order(a + rest)))
    decreases |rest|
  {
    var all := a + rest;
    var taken := Firsts(all) + Others(a);
    if rest == [] {
      assert all == a;
    } else if |taken| == rf {
      FillPassFull(rest, rf, Ids(taken));
      Prefixes(a, rest);
      IdsPrefix(taken, Order(all));
    } else {
      var n, rest' := rest[0], rest[1..];
      assert rest == [n] + rest' && all == a + ([n] + rest');
      assert all == (a + [n]) + rest';
      FillStep(rest, rf, Ids(taken));
      IsTaken(a, n, rest');
      TakenStep(Firsts(all), a, n);
      FillPassTakesOthers(a + [n], rest', rf);
    }
  }

  /** Where a node comes in the order: among the firsts if its rack is new, else after all firsts. */
  ghost function Seat(a: seq<NodeDescriptor>, n: NodeDescriptor, b: seq<NodeDescriptor>): nat {
    if Rack(n) in AllRacks(a) then |Firsts(a + [n] + b)| + |Others(a)| else |Firsts(a)|
  }

  lemma SeatIsPlace(a: seq<NodeDescriptor>, n: NodeDescriptor, b: seq<NodeDescriptor>)
    ensures var order := Order(a + [n] + b); Seat(a, n, b) < |order| && order[Seat(a, n, b)] == n
  {
    Snoc(a, n);
    Prefixes(a + [n], b);
    if Rack(n) in AllRacks(a) {
      assert Others(a + [n])[|Others(a)|] == n;
    } else {
      assert Firsts(a + [n])[|Firsts(a)|] == n;
    }
  }

  lemma OrderDistinct(all: seq<NodeDescriptor>)
    requires Membership(all)
    ensures Membership(Order(all)) && |Order(all)| == |all|
  {
    OrderMultiset(all);
    SameMembers(Order(all), all);
    MultisetDistinct(all, Order(all));
  }

  lemma {:induction false} OrderMultiset(all: seq<NodeDescriptor>)
    ensures multiset(Order(all)) == multiset(all)
  {
    if all != [] {
      var front, last := all[..|all| - 1], all[|all| - 1];
      OrderMultiset(front);
      assert all == front + [last];
      Snoc(front, last);
    }
  }

  /** A node is among the first `m` of the order exactly when its seat is. */
  lemma InTop(a: seq<NodeDescriptor>, n: NodeDescriptor, b: seq<NodeDescriptor>, m: nat)
    requires Membership(a + [n] + b) && m <= |a + [n] + b|
    ensures |Order(a + [n] + b)| == |a + [n] + b|
    ensures n.id in Ids(Order(a + [n] + b)[..m]) <==> Seat(a, n, b) < m
  {
    var all := a + [n] + b;
    var order := Order(all);
    OrderDistinct(all);
    SeatIsPlace(a, n, b);
    var seat := Seat(a, n, b);
    if seat < m { assert Ids(order[..m])[seat] == n.id; }
    if n.id in Ids(order[..m]) {
      var i :| 0 <= i < m && Ids(order[..m])[i] == n.id;
      assert order[i] in order && order[seat] in order;
    }
  }

  /** The second pass passes over exactly the firsts. */
  lemma IsTaken(a: seq<NodeDescriptor>, n: NodeDescriptor, b: seq<NodeDescriptor>)
    requires Membership(a + ([n] + b))
    ensures n.id in Ids(Firsts(a + ([n] + b)) + Others(a)) <==> Rack(n) !in AllRacks(a)
  {
    var all := a + ([n] + b);
    assert all == a + [n] + b;
    var taken := Firsts(all) + Others(a);
    Prefixes(a, [n] + b);
    Counts(all);
    Counts(a);
    assert taken == Order(all)[..|taken|];
    Snoc(a, n);
    Prefixes(a + [n], b);
    InTop(a, n, b, |taken|);
  }

  lemma FirstPass(all: seq<NodeDescriptor>, rf: nat)
    ensures RackPass(all, rf, [], {}) == Top(rf, Ids(Firsts(all)))
  {
    var none: seq<NodeDescriptor> := [];
    assert none + all == all && Ids(none) == [] && Firsts(none) == [] && AllRacks(none) == {};
    RackPassTakesFirsts(none, all, rf);
  }

  lemma SecondPass(all: seq<NodeDescriptor>, rf: nat)
    requires Membership(all)
    ensures FillPass(all, rf, Top(rf, Ids(Firsts(all)))) == Top(rf, Ids(Order(all)))
  {
    var f, o := Firsts(all), Others(all);
    if |f| <= rf {
      var none: seq<NodeDescriptor> := [];
      assert none + all == all && Others(none) == [] && f + [] == f;
      assert Top(rf, Ids(f)) == Ids(f);
      FillPassTakesOthers(none, all, rf);
    } else {
      IdsConcat(f, o);
      TopConcat(rf, Ids(f), Ids(o));
      FillPassFull(all, rf, Top(rf, Ids(f)));
    }
  }

  /** The two passes select the first node of every rack, then the others, by rank, as many as wanted. */
  lemma RackAwareChainIs(score: Score, partition: nat, rf: nat, nodes: seq<NodeDescriptor>)
    requires Membership(nodes)
    ensures AssignReplicasRackAware(score, partition, rf, nodes) == Top(rf, Ids(Order(Ranked(score, partition, nodes))))
  {
    RankedMembership(score, partition, nodes);
    FirstPass(Ranked(score, partition, nodes), rf);
    SecondPass(Ranked(score, partition, nodes), rf);
  }

  lemma TopConcat<T>(rf: nat, a: seq<T>, b: seq<T>)
    requires |a| >= rf
    ensures Top(rf, a + b) == Top(rf, a)
  {
  }

  lemma FillPassFull(ranked: seq<NodeDescriptor>, rf: nat, selected: seq<string>)
    requires |selected| >= rf
    ensures FillPass(ranked, rf, selected) == selected
  {
  }

  // ---------------------------------------------------------------- disruption

  /** A node is in the rack-aware chain exactly when its seat is below the replication factor. */
  lemma InChainIff(score: Score, partition: nat, rf: nat, nodes: seq<NodeDescriptor>,
                   a: seq<NodeDescriptor>, n: NodeDescriptor, b: seq<NodeDescriptor>)
    requires Membership(nodes) && Ranked(score, partition, nodes) == a + [n] + b
    ensures n.id in AssignReplicasRackAware(score, partition, rf, nodes) <==> Seat(a, n, b) < rf
  {
    RackAwareChainIs(score, partition, rf, nodes);
    RankedMembership(score, partition, nodes);
    var all := a + [n] + b;
    var m := Min(rf, |all|);
    InTop(a, n, b, m);
    SeatIsPlace(a, n, b);
    assert Ids(Order(all)[..m]) == Ids(Order(all))[..m];
  }

  /** And then that is its place in the chain. */
  lemma SeatInChain(score: Score, partition: nat, rf: nat, nodes: seq<NodeDescriptor>,
                    a: seq<NodeDescriptor>, n: NodeDescriptor, b: seq<NodeDescriptor>)
    requires Membership(nodes) && Ranked(score, partition, nodes) == a + [n] + b && Seat(a, n, b) < rf
    ensures var chain := AssignReplicasRackAware(score, partition, rf, nodes);
      Seat(a, n, b) < |chain| && chain[Seat(a, n, b)] == n.id
  {
    RackAwareChainIs(score, partition, rf, nodes);
    SeatIsPlace(a, n, b);
  }

  /** Every place in the chain is the seat of the node there. */
  lemma PlaceIsSeat(score: Score, partition: nat, rf: nat, nodes: seq<NodeDescriptor>, q: nat)
    returns (a: seq<NodeDescriptor>, n: NodeDescriptor, b: seq<NodeDescriptor>)
    requires Membership(nodes) && q < |AssignReplicasRackAware(score, partition, rf, nodes)|
    ensures Ranked(score, partition, nodes) == a + [n] + b && Seat(a, n, b) == q < rf
    ensures AssignReplicasRackAware(score, partition, rf, nodes)[q] == n.id
  {
    var chain := AssignReplicasRackAware(score, partition, rf, nodes);
    AssignReplicasRackAwareShape(score, partition, rf, nodes);
    a, n, b := PlaceOf(score, partition, rf, nodes, chain[q]);
    InChainIff(score, partition, rf, nodes, a, n, b);
    SeatInChain(score, partition, rf, nodes, a, n, b);
  }

  lemma WithoutRacks(a: seq<NodeDescriptor>, x: string)
    requires DistinctIds(a) && Distinct(a)
    ensures AllRacks(Without(a, x)) <= AllRacks(a)
    ensures |Without(a, x)| <= |a|
    ensures |Without(a, x)| == |a| ==> Without(a, x) == a
    ensures |AllRacks(a)| <= |AllRacks(Without(a, x))| + 1
  {
    var keep := (n: NodeDescriptor) => n.id != x;
    FilterMembers(keep, a);
    if d :| d in a && d.id == x {
      forall r | r in AllRacks(a) ensures r in AllRacks(Without(a, x)) + {Rack(d)} {
        var n :| n in a && Rack(n) == r;
        assert n.id == x ==> n == d;
      }
      SubsetCard(AllRacks(a), AllRacks(Without(a, x)) + {Rack(d)});
      FilterDrops(keep, a, d);
    } else {
      FilterKeepsAll(keep, a);
    }
  }

  lemma SeatCount(a: seq<NodeDescriptor>, n: NodeDescriptor, b: seq<NodeDescriptor>)
    ensures |AllRacks(a)| <= |a|
    ensures Seat(a, n, b) ==
      if Rack(n) in AllRacks(a) then |AllRacks(a + [n] + b)| + |a| - |AllRacks(a)| else |AllRacks(a)|
  {
    Counts(a);
    Counts(a + [n] + b);
  }

  lemma WithoutSplit(a: seq<NodeDescriptor>, n: NodeDescriptor, b: seq<NodeDescriptor>, x: string)
    requires n.id != x
    ensures Without(a + [n] + b, x) == Without(a, x) + [n] + Without(b, x)
  {
    var keep := (m: NodeDescriptor) => m.id != x;
    FilterConcat(keep, a + [n], b);
    FilterConcat(keep, a, [n]);
  }

  /** Without another node, a node's seat does not go up. */
  lemma SeatDrops(a: seq<NodeDescriptor>, n: NodeDescriptor, b: seq<NodeDescriptor>, x: string)
    requires Membership(a + [n] + b) && n.id != x
    ensures Seat(Without(a, x), n, Without(b, x)) <= Seat(a, n, b)
  {
    var all, a', b' := a + [n] + b, Without(a, x), Without(b, x);
    var racks, racks', some, some' := AllRacks(all), AllRacks(a' + [n] + b'), AllRacks(a), AllRacks(a');
    assert |racks'| <= |racks| by {
      WithoutSplit(a, n, b, x);
      WithoutRacks(all, x);
      SubsetCard(racks', racks);
    }
    assert some' <= some && |some'| <= |some| <= |some'| + 1 && |a'| <= |a| && (|a'| == |a| ==> some' == some) by {
      assert a + ([n] + b) == all;
      PartOfMembership(a, [n] + b);
      WithoutRacks(a, x);
      SubsetCard(some', some);
    }
    assert |some| <= |racks| by {
      assert forall m :: m in a ==> m in all;
      SubsetCard(some, racks);
    }
    SeatCount(a, n, b);
    SeatCount(a', n, b');
  }

  lemma PartOfMembership(a: seq<NodeDescriptor>, b: seq<NodeDescriptor>)
    requires Membership(a + b)
    ensures Membership(a)
  {
    assert forall i :: 0 <= i < |a| ==> a[i] == (a + b)[i];
    assert forall m :: m in a ==> m in a + b;
  }

  /** When a node leaves, every survivor of a rack-aware chain stays in it, even if its place among them
      changes; a chain without that node keeps its members. */
  lemma LeavingKeepsSurvivors(score: Score, partition: nat, rf: nat, nodes: seq<NodeDescriptor>, id: string)
    requires Membership(nodes)
    ensures
      var before := AssignReplicasRackAware(score, partition, rf, nodes);
      var after := AssignReplicasRackAware(score, partition, rf, Without(nodes, id));
      && (forall y :: y in before && y != id ==> y in after)
      && (id !in before ==> forall y :: y in after <==> y in before)
  {
    var before := AssignReplicasRackAware(score, partition, rf, nodes);
    var after := AssignReplicasRackAware(score, partition, rf, Without(nodes, id));
    WithoutMembership(nodes, id);
    forall y | y in before && y != id ensures y in after {
      SurvivorStays(score, partition, rf, nodes, id, y);
    }
    AssignReplicasRackAwareShape(score, partition, rf, nodes);
    AssignReplicasRackAwareShape(score, partition, rf, Without(nodes, id));
    if id !in before { SameSize(before, after); }
  }

  lemma WithoutMembership(nodes: seq<NodeDescriptor>, id: string)
    requires Membership(nodes)
    ensures Membership(Without(nodes, id)) && |Without(nodes, id)| <= |nodes|
  {
    FilterMembers((n: NodeDescriptor) => n.id != id, nodes);
    FilterDistinct((n: NodeDescriptor) => n.id != id, nodes);
  }

  lemma SurvivorStays(score: Score, partition: nat, rf: nat, nodes: seq<NodeDescriptor>, id: string, y: string)
    requires Membership(nodes) && y in AssignReplicasRackAware(score, partition, rf, nodes) && y != id
    ensures y in AssignReplicasRackAware(score, partition, rf, Without(nodes, id))
  {
    var a, n, b := PlaceOf(score, partition, rf, nodes, y);
    InChainIff(score, partition, rf, nodes, a, n, b);
    RankedMembership(score, partition, nodes);
    SeatDrops(a, n, b, id);
    WithoutSplit(a, n, b, id);
    RankedWithout(score, partition, nodes, id);
    WithoutMembership(nodes, id);
    InChainIff(score, partition, rf, Without(nodes, id), Without(a, id), n, Without(b, id));
  }

  /** A member of the chain, with the nodes ranked ahead of it and behind it. */
  lemma PlaceOf(score: Score, partition: nat, rf: nat, nodes: seq<NodeDescriptor>, y: string)
    returns (a: seq<NodeDescriptor>, n: NodeDescriptor, b: seq<NodeDescriptor>)
    requires Membership(nodes) && y in AssignReplicasRackAware(score, partition, rf, nodes)
    ensures n.id == y && Ranked(score, partition, nodes) == a + [n] + b
  {
    AssignReplicasRackAwareShape(score, partition, rf, nodes);
    n :| n in nodes && n.id == y;
    RankedMembership(score, partition, nodes);
    a, b := SplitAt(Ranked(score, partition, nodes), n);
  }

  // ---------------------------------------------------------------- who keeps a place

  lemma RacksLost(a: seq<NodeDescriptor>, x: NodeDescriptor)
    requires Membership(a) && x in a
    ensures AllRacks(a) == AllRacks(Without(a, x.id)) + {Rack(x)} && |Without(a, x.id)| == |a| - 1
    ensures |AllRacks(a)| == |AllRacks(Without(a, x.id))| + if Rack(x) in AllRacks(Without(a, x.id)) then 0 else 1
  {
    var keep := (n: NodeDescriptor) => n.id != x.id;
    FilterMembers(keep, a);
    var k :| 0 <= k < |a| && a[k] == x;
    RemoveAt(a, k, keep);
    var rest := Without(a, x.id);
    forall r | r in AllRacks(a) ensures r in AllRacks(rest) + {Rack(x)} {
      var n :| n in a && Rack(n) == r;
      assert n != x ==> n in rest;
    }
    if Rack(x) in AllRacks(rest) { AddMember(AllRacks(rest), Rack(x)); }
  }

  /** Whether `n`, with `a` ranked ahead of it and `b` behind, keeps its seat when `x` leaves. The first of its
      rack does, if `x` is behind it or another node ahead of it is in the rack of `x`. Another does if the rack
      of `x` is still there and, with `x` ahead, all the other nodes of that rack are behind it. */
  ghost predicate KeepsSeat(a: seq<NodeDescriptor>, n: NodeDescriptor, b: seq<NodeDescriptor>, x: NodeDescriptor) {
    var ahead := AllRacks(Without(a, x.id));
    if Rack(n) !in AllRacks(a) then x !in a || Rack(x) in ahead
    else if x in a then Rack(x) !in ahead && Rack(x) != Rack(n) && Rack(x) in AllRacks(b)
    else Rack(x) in AllRacks(a + [n] + Without(b, x.id))
  }

  lemma AllRacksConcat(a: seq<NodeDescriptor>, n: NodeDescriptor, b: seq<NodeDescriptor>)
    ensures AllRacks(a + [n] + b) == AllRacks(a) + {Rack(n)} + AllRacks(b)
  {
    var all := a + [n] + b;
    assert forall m :: m in all <==> m in a || m == n || m in b;
    forall r | r in AllRacks(a) + {Rack(n)} + AllRacks(b) ensures r in AllRacks(all) {
      if r in AllRacks(a) {
        var m :| m in a && Rack(m) == r;
        assert m in all;
      } else if r in AllRacks(b) {
        var m :| m in b && Rack(m) == r;
        assert m in all;
      } else {
        assert n in all;
      }
    }
  }

  /** The same in numbers of racks and nodes. */
  lemma SeatNumbers(some: set<string>, some': set<string>, all: set<string>, all': set<string>, b: set<string>,
                    n: string, x: string, ahead: nat)
    requires some == some' + {x} && |some| <= ahead
    requires all == some + {n} + b && all' == some' + {n} + b
    ensures (if n in some' then |all'| + ahead - 1 - |some'| else |some'|) ==
      (if n in some then |all| + ahead - |some| else |some|)
      <==> if n !in some then x in some' else x !in some' && x != n && x in b
  {
    LostRacks(some', some, x);
    assert all == all' + {x};
    LostRacks(all', all, x);
    SubsetCard(some, all);
  }

  lemma SeatKeptWhenAhead(a: seq<NodeDescriptor>, n: NodeDescriptor, b: seq<NodeDescriptor>, x: NodeDescriptor)
    requires Membership(a + [n] + b) && x in a && x.id != n.id
    ensures Seat(Without(a, x.id), n, b) == Seat(a, n, b) <==> KeepsSeat(a, n, b, x)
  {
    var a' := Without(a, x.id);
    var some, some', all, all' := AllRacks(a), AllRacks(a'), AllRacks(a + [n] + b), AllRacks(a' + [n] + b);
    assert some == some' + {Rack(x)} && |a'| == |a| - 1 by {
      assert a + ([n] + b) == a + [n] + b;
      PartOfMembership(a, [n] + b);
      RacksLost(a, x);
    }
    AllRacksConcat(a, n, b);
    AllRacksConcat(a', n, b);
    SeatCount(a, n, b);
    SeatCount(a', n, b);
    SeatNumbers(some, some', all, all', AllRacks(b), Rack(n), Rack(x), |a|);
    assert KeepsSeat(a, n, b, x) <==>
      if Rack(n) !in some then Rack(x) in some' else Rack(x) !in some' && Rack(x) != Rack(n) && Rack(x) in AllRacks(b);
  }

  lemma LostRacks<T>(some: set<T>, all: set<T>, x: T)
    requires all == some + {x}
    ensures |all| == |some| + if x in some then 0 else 1
  {
    if x in some { AddMember(some, x); }
  }

  lemma SeatKeptWhenBehind(a: seq<NodeDescriptor>, n: NodeDescriptor, b: seq<NodeDescriptor>, x: NodeDescriptor)
    requires Membership(a + [n] + b) && x in b && x !in a && x.id != n.id
    ensures Seat(a, n, Without(b, x.id)) == Seat(a, n, b) <==> KeepsSeat(a, n, b, x)
  {
    assert x in a + [n] + b && forall m :: m in a ==> m in a + [n] + b;
    FilterKeepsAll((m: NodeDescriptor) => m.id != x.id, a);
    SeatCount(a, n, b);
    SeatCount(a, n, Without(b, x.id));
    RacksLost(a + [n] + b, x);
    WithoutSplit(a, n, b, x.id);
  }

  /** Behind or ahead: the leaving node is in one part, and the other does not change. */
  lemma SeatKeptIff(a: seq<NodeDescriptor>, n: NodeDescriptor, b: seq<NodeDescriptor>, x: NodeDescriptor)
    requires Membership(a + [n] + b) && x in a + [n] + b && x.id != n.id
    ensures Seat(Without(a, x.id), n, Without(b, x.id)) == Seat(a, n, b) <==> KeepsSeat(a, n, b, x)
  {
    var all := a + [n] + b;
    assert forall m :: m in all <==> m in a || m == n || m in b;
    if x in a {
      NotInBoth(a, n, b, x);
      FilterKeepsAll((m: NodeDescriptor) => m.id != x.id, b);
      SeatKeptWhenAhead(a, n, b, x);
    } else {
      FilterKeepsAll((m: NodeDescriptor) => m.id != x.id, a);
      SeatKeptWhenBehind(a, n, b, x);
    }
  }

  lemma NotInBoth(a: seq<NodeDescriptor>, n: NodeDescriptor, b: seq<NodeDescriptor>, x: NodeDescriptor)
    requires Membership(a + [n] + b) && x in a
    ensures forall m :: m in b ==> m.id != x.id
  {
    var all := a + [n] + b;
    var i :| 0 <= i < |a| && a[i] == x;
    forall m | m in b ensures m.id != x.id {
      var j :| 0 <= j < |b| && b[j] == m;
      assert all[i] == x && all[|a| + 1 + j] == m && x in all && m in all;
    }
  }

  /** Exactly which survivors of a rack-aware chain keep their place when `x` leaves. */
  lemma SurvivorKeepsPlaceIff(score: Score, partition: nat, rf: nat, nodes: seq<NodeDescriptor>, x: NodeDescriptor,
                              q: nat)
    returns (a: seq<NodeDescriptor>, n: NodeDescriptor, b: seq<NodeDescriptor>)
    requires Membership(nodes) && x in nodes
    requires var before := AssignReplicasRackAware(score, partition, rf, nodes); q < |before| && before[q] != x.id
    ensures Ranked(score, partition, nodes) == a + [n] + b
    ensures AssignReplicasRackAware(score, partition, rf, nodes)[q] == n.id
    ensures var after := AssignReplicasRackAware(score, partition, rf, Without(nodes, x.id));
      (q < |after| && after[q] == n.id) <==> KeepsSeat(a, n, b, x)
  {
    a, n, b := PlaceIsSeat(score, partition, rf, nodes, q);
    RankedMembership(score, partition, nodes);
    SeatKeptIff(a, n, b, x);
    SeatDrops(a, n, b, x.id);
    PlaceAfter(score, partition, rf, nodes, x, a, n, b);
  }

  lemma PlaceAfter(score: Score, partition: nat, rf: nat, nodes: seq<NodeDescriptor>, x: NodeDescriptor,
                   a: seq<NodeDescriptor>, n: NodeDescriptor, b: seq<NodeDescriptor>)
    requires Membership(nodes) && Ranked(score, partition, nodes) == a + [n] + b && n.id != x.id
    requires Seat(Without(a, x.id), n, Without(b, x.id)) < rf
    ensures var after := AssignReplicasRackAware(score, partition, rf, Without(nodes, x.id));
      forall q :: 0 <= q < |after| ==> (after[q] == n.id <==> q == Seat(Without(a, x.id), n, Without(b, x.id)))
    ensures Seat(Without(a, x.id), n, Without(b, x.id)) <
      |AssignReplicasRackAware(score, partition, rf, Without(nodes, x.id))|
  {
    WithoutMembership(nodes, x.id);
    RankedWithout(score, partition, nodes, x.id);
    WithoutSplit(a, n, b, x.id);
    SeatInChain(score, partition, rf, Without(nodes, x.id), Without(a, x.id), n, Without(b, x.id));
    AssignReplicasRackAwareShape(score, partition, rf, Without(nodes, x.id));
  }
}
