/** Which (partition, replica) slots an agent should own. */
module Placement {
  import opened Lists
  import opened Wrappers
  import opened StoreMachine
  import opened HashRing
  import opened RackAware
  import opened Contention
  import opened ChainAgreement
  import opened Overrides

  predicate HasRackLabels(nodes: seq<NodeDescriptor>) {
    exists n :: n in nodes && "rack" in n.labels
  }

  function Chain(score: Score, partition: nat, rf: nat, nodes: seq<NodeDescriptor>): seq<string> {
    if HasRackLabels(nodes) then AssignReplicasRackAware(score, partition, rf, nodes)
    else AssignReplicas(score, partition, rf, nodes)
  }

  /** The owner of a slot: the node its override names, live or not, else its place in the chain. */
  function Owner(score: Score, rf: nat, nodes: seq<NodeDescriptor>, entries: seq<OverrideEntry>,
                 s: Slot): Option<string>
  {
    match FindOverride(entries, s)
    case Some(e) => Some(e.nodeId)
    case None =>
      var chain := Chain(score, s.partition, rf, nodes);
      if s.replica < |chain| then Some(chain[s.replica]) else None
  }

  /** `self` owns the slot of a topic. */
  predicate Owns(self: string, numPartitions: nat, rf: nat, score: Score,
                 nodes: seq<NodeDescriptor>, entries: seq<OverrideEntry>, s: Slot)
  {
    s.partition < numPartitions && s.replica < rf && Owner(score, rf, nodes, entries, s) == Some(self)
  }

  /** Slots are listed partition by partition, replica by replica. */
  predicate Before(a: Slot, b: Slot) {
    a.partition < b.partition || (a.partition == b.partition && a.replica < b.replica)
  }

  ghost predicate InOrder(d: seq<Slot>) {
    forall i, j :: 0 <= i < j < |d| ==> Before(d[i], d[j])
  }

  /** `d` lists, in order and once each, the slots of the topic that `self` owns. */
  ghost predicate IsAssignment(d: seq<Slot>, self: string, numPartitions: nat, rf: nat, score: Score,
                               nodes: seq<NodeDescriptor>, entries: seq<OverrideEntry>)
  {
    InOrder(d) && forall s :: s in d <==> Owns(self, numPartitions, rf, score, nodes, entries, s)
  }

  method ComputeDesiredAssignment(self: string, numPartitions: nat, rf: nat, score: Score,
                                  nodes: seq<NodeDescriptor>, entries: seq<OverrideEntry>) returns (desired: seq<Slot>)
    ensures IsAssignment(desired, self, numPartitions, rf, score, nodes, entries)
    ensures forall i, j :: 0 <= i < j < |desired| ==>
      var s, t := desired[i], desired[j];
      s.partition < t.partition || (s.partition == t.partition && s.replica < t.replica)
  {
    desired := [];
    for p := 0 to numPartitions
      invariant InOrder(desired)
      invariant forall s :: s in desired <==>
        s.partition < p && s.replica < rf && Owner(score, rf, nodes, entries, s) == Some(self)
    {
      ghost var earlier := desired;
      for r := 0 to rf
        invariant InOrder(desired)
        invariant forall s :: s in desired <==>
          (s.partition < p || (s.partition == p && s.replica < r)) && s.replica < rf
          && Owner(score, rf, nodes, entries, s) == Some(self)
      {
        var slot := Slot(p, r);
        var entry := FindOverride(entries, slot);
        if entry.Some? {
          if entry.value.nodeId == self {
            desired := desired + [slot];
          }
          continue;
        }
        var replicas := Chain(score, p, rf, nodes);
        if r < |replicas| && replicas[r] == self {
          desired := desired + [slot];
        }
      }
    }
  }

  // ---------------------------------------------------------------- agreement between agents

  /** Checking for labels makes no difference: without them the rack-aware chain is the plain one. */
  lemma ChainIsRackAware(score: Score, partition: nat, rf: nat, nodes: seq<NodeDescriptor>)
    requires Membership(nodes)
    ensures Chain(score, partition, rf, nodes) == AssignReplicasRackAware(score, partition, rf, nodes)
  {
    if !HasRackLabels(nodes) { OneRackIsPlain(score, partition, rf, nodes, ""); }
  }

  lemma OwnerIsGiven(score: Score, rf: nat, nodes: seq<NodeDescriptor>, entries: seq<OverrideEntry>, s: Slot,
                     id: string)
    requires Membership(nodes) && FindOverride(entries, s).None?
    ensures Owner(score, rf, nodes, entries, s) == Some(id) <==> Gives(score, s.partition, rf, nodes, s.replica, id)
  {
    ChainIsRackAware(score, s.partition, rf, nodes);
  }

  /** The slot has an override, or is not a replica to be placed, or no two nodes contend for its place. */
  ghost predicate SlotDecided(score: Score, rf: nat, nodes: seq<NodeDescriptor>, entries: seq<OverrideEntry>, s: Slot) {
    FindOverride(entries, s).Some? || s.replica >= rf || PlaceDecided(score, s.partition, nodes, s.replica)
  }

  ghost predicate AllDecided(score: Score, numPartitions: nat, rf: nat, nodes: seq<NodeDescriptor>,
                             entries: seq<OverrideEntry>)
  {
    forall s: Slot :: s.partition < numPartitions ==> SlotDecided(score, rf, nodes, entries, s)
  }

  /** Agents that see the same nodes, in any order, and the same table agree on the owner of a decided slot. */
  lemma OwnersAgree(score: Score, rf: nat, nodes: seq<NodeDescriptor>, view: seq<NodeDescriptor>,
                    entries: seq<OverrideEntry>, s: Slot)
    requires Membership(nodes) && multiset(view) == multiset(nodes) && SlotDecided(score, rf, nodes, entries, s)
    ensures Owner(score, rf, view, entries, s) == Owner(score, rf, nodes, entries, s)
  {
    MembershipOfView(nodes, view);
    ChainIsRackAware(score, s.partition, rf, nodes);
    ChainIsRackAware(score, s.partition, rf, view);
    if FindOverride(entries, s).Some? {
    } else if s.replica >= rf {
      ChainShape(score, s.partition, rf, nodes);
      ChainShape(score, s.partition, rf, view);
    } else {
      DecidedPlace(score, s.partition, rf, nodes, view, s.replica);
      SameOwner(score, rf, nodes, view, entries, s);
    }
  }

  lemma SameOwner(score: Score, rf: nat, nodes: seq<NodeDescriptor>, view: seq<NodeDescriptor>,
                  entries: seq<OverrideEntry>, s: Slot)
    requires Membership(nodes) && Membership(view) && FindOverride(entries, s).None?
    requires SamePlace(score, s.partition, rf, view, nodes, s.replica)
    ensures Owner(score, rf, view, entries, s) == Owner(score, rf, nodes, entries, s)
  {
    var a, b := Owner(score, rf, nodes, entries, s), Owner(score, rf, view, entries, s);
    if a.Some? {
      OwnerIsGiven(score, rf, nodes, entries, s, a.value);
      OwnerIsGiven(score, rf, view, entries, s, a.value);
    } else if b.Some? {
      OwnerIsGiven(score, rf, nodes, entries, s, b.value);
      OwnerIsGiven(score, rf, view, entries, s, b.value);
    }
  }

  /** An undecided slot: listings of the same nodes from which two different nodes own it. */
  lemma TwoOwners(score: Score, rf: nat, nodes: seq<NodeDescriptor>, entries: seq<OverrideEntry>, s: Slot)
    returns (x: string, v: seq<NodeDescriptor>, y: string, w: seq<NodeDescriptor>)
    requires Membership(nodes) && !SlotDecided(score, rf, nodes, entries, s)
    ensures multiset(v) == multiset(nodes) == multiset(w) && x != y
    ensures Owner(score, rf, v, entries, s) == Some(x) && Owner(score, rf, w, entries, s) == Some(y)
  {
    var p, q := s.partition, s.replica;
    var m, n :| m in nodes && n in nodes && Contends(score, p, nodes, m, q) && Contends(score, p, nodes, n, q) &&
      m.id != n.id;
    x, y := m.id, n.id;
    v := ContenderIsGiven(score, p, rf, nodes, m, q);
    w := ContenderIsGiven(score, p, rf, nodes, n, q);
    MembershipOfView(nodes, v);
    MembershipOfView(nodes, w);
    OwnerIsGiven(score, rf, v, entries, s, x);
    OwnerIsGiven(score, rf, w, entries, s, y);
  }

  /** Every listing of the nodes gives a slot the same owner, if and only if the slot is decided. */
  lemma OwnersAgreeIff(score: Score, rf: nat, nodes: seq<NodeDescriptor>, entries: seq<OverrideEntry>, s: Slot)
    requires Membership(nodes)
    ensures SlotDecided(score, rf, nodes, entries, s) <==>
      forall view :: multiset(view) == multiset(nodes) ==>
        Owner(score, rf, view, entries, s) == Owner(score, rf, nodes, entries, s)
  {
    if SlotDecided(score, rf, nodes, entries, s) {
      forall view | multiset(view) == multiset(nodes)
        ensures Owner(score, rf, view, entries, s) == Owner(score, rf, nodes, entries, s)
      {
        OwnersAgree(score, rf, nodes, view, entries, s);
      }
    } else {
      var x, v, y, w := TwoOwners(score, rf, nodes, entries, s);
      assert Owner(score, rf, v, entries, s) != Owner(score, rf, w, entries, s);
    }
  }

  /** Single ownership. Each agent lists its slots from its own ordering of the membership: no list repeats
      a slot, two different agents share none, and a slot is claimed exactly when its owner is one of the
      agents, by that agent. */
  lemma SingleOwnership(ids: set<string>, views: map<string, seq<NodeDescriptor>>, lists: map<string, seq<Slot>>,
                        numPartitions: nat, rf: nat, score: Score,
                        nodes: seq<NodeDescriptor>, entries: seq<OverrideEntry>)
    requires ids == views.Keys == lists.Keys && Membership(nodes)
    requires forall a :: a in ids ==> multiset(views[a]) == multiset(nodes)
    requires forall a :: a in ids ==> IsAssignment(lists[a], a, numPartitions, rf, score, views[a], entries)
    requires AllDecided(score, numPartitions, rf, nodes, entries)
    ensures forall a :: a in ids ==> Distinct(lists[a])
    ensures forall a, b, s :: a in ids && b in ids && s in lists[a] && s in lists[b] ==> a == b
    ensures forall s: Slot ::
      (exists a :: a in ids && s in lists[a]) <==> OwnedByOneOf(ids, numPartitions, rf, score, nodes, entries, s)
  {
    forall a, s | a in ids ensures s in lists[a] <==> Owns(a, numPartitions, rf, score, nodes, entries, s) {
      if s.partition < numPartitions { OwnersAgree(score, rf, nodes, views[a], entries, s); }
    }
    forall s: Slot
      ensures (exists a :: a in ids && s in lists[a]) <==>
        OwnedByOneOf(ids, numPartitions, rf, score, nodes, entries, s)
    {
      if OwnedByOneOf(ids, numPartitions, rf, score, nodes, entries, s) {
        assert s in lists[Owner(score, rf, nodes, entries, s).value];
      }
    }
  }

  predicate OwnedByOneOf(ids: set<string>, numPartitions: nat, rf: nat, score: Score,
                         nodes: seq<NodeDescriptor>, entries: seq<OverrideEntry>, s: Slot)
  {
    var owner := Owner(score, rf, nodes, entries, s);
    s.partition < numPartitions && s.replica < rf && owner.Some? && owner.value in ids
  }

  /** No two different agents, whatever order they list the same nodes in, claim the same slot of the topic. */
  ghost predicate NeverClaimedTwice(numPartitions: nat, rf: nat, score: Score, nodes: seq<NodeDescriptor>,
                                    entries: seq<OverrideEntry>)
  {
    forall v, w, a, b, s ::
      (&& multiset(v) == multiset(nodes) && multiset(w) == multiset(nodes)
       && Owns(a, numPartitions, rf, score, v, entries, s) && Owns(b, numPartitions, rf, score, w, entries, s))
      ==> a == b
  }

  lemma DecidedIsClaimedOnce(numPartitions: nat, rf: nat, score: Score, nodes: seq<NodeDescriptor>,
                             entries: seq<OverrideEntry>)
    requires Membership(nodes) && AllDecided(score, numPartitions, rf, nodes, entries)
    ensures NeverClaimedTwice(numPartitions, rf, score, nodes, entries)
  {
    forall v, w, a, b, s | multiset(v) == multiset(nodes) && multiset(w) == multiset(nodes)
      && Owns(a, numPartitions, rf, score, v, entries, s) && Owns(b, numPartitions, rf, score, w, entries, s)
      ensures a == b
    {
      OwnersAgree(score, rf, nodes, v, entries, s);
      OwnersAgree(score, rf, nodes, w, entries, s);
    }
  }

  lemma TwoClaims(numPartitions: nat, rf: nat, score: Score, nodes: seq<NodeDescriptor>, entries: seq<OverrideEntry>,
                  v: seq<NodeDescriptor>, a: string, w: seq<NodeDescriptor>, b: string, s: Slot)
    requires multiset(v) == multiset(nodes) == multiset(w) && a != b
    requires s.partition < numPartitions && s.replica < rf
    requires Owner(score, rf, v, entries, s) == Some(a) && Owner(score, rf, w, entries, s) == Some(b)
    ensures !NeverClaimedTwice(numPartitions, rf, score, nodes, entries)
  {
    assert Owns(a, numPartitions, rf, score, v, entries, s) && Owns(b, numPartitions, rf, score, w, entries, s);
  }

  lemma UndecidedIsClaimedTwice(numPartitions: nat, rf: nat, score: Score, nodes: seq<NodeDescriptor>,
                                entries: seq<OverrideEntry>, s: Slot)
    requires Membership(nodes) && s.partition < numPartitions && !SlotDecided(score, rf, nodes, entries, s)
    ensures !NeverClaimedTwice(numPartitions, rf, score, nodes, entries)
  {
    var x, v, y, w := TwoOwners(score, rf, nodes, entries, s);
    TwoClaims(numPartitions, rf, score, nodes, entries, v, x, w, y, s);
  }

  /** Whatever the table: ownership is single for every way the agents may list the nodes, if and only if every
      slot of the topic is decided. */
  lemma SingleOwnershipIff(numPartitions: nat, rf: nat, score: Score, nodes: seq<NodeDescriptor>,
                           entries: seq<OverrideEntry>)
    requires Membership(nodes)
    ensures NeverClaimedTwice(numPartitions, rf, score, nodes, entries) <==>
      AllDecided(score, numPartitions, rf, nodes, entries)
  {
    if AllDecided(score, numPartitions, rf, nodes, entries) {
      DecidedIsClaimedOnce(numPartitions, rf, score, nodes, entries);
    } else {
      var s: Slot :| s.partition < numPartitions && !SlotDecided(score, rf, nodes, entries, s);
      UndecidedIsClaimedTwice(numPartitions, rf, score, nodes, entries, s);
    }
  }

  // ---------------------------------------------------------------- how ties show

  /** Rivals for a place of the chain: if each lists itself first, both own the same slot. */
  lemma TieIsClaimedTwice(score: Score, p: nat, rf: nat, nodes: seq<NodeDescriptor>)
    returns (x: NodeDescriptor, y: NodeDescriptor, rest: seq<NodeDescriptor>, r: nat)
    requires Membership(nodes) && !RackDecided(score, p, rf, nodes)
    ensures x in nodes && y in nodes && x.id != y.id && r < rf
    ensures multiset([x] + ([y] + rest)) == multiset(nodes) == multiset([y] + ([x] + rest))
    ensures Owner(score, rf, [x] + ([y] + rest), [], Slot(p, r)) == Some(x.id)
    ensures Owner(score, rf, [y] + ([x] + rest), [], Slot(p, r)) == Some(y.id)
  {
    x, y, rest, r := RackChainsDiffer(score, p, rf, nodes);
    MembershipOfView(nodes, [x] + ([y] + rest));
    MembershipOfView(nodes, [y] + ([x] + rest));
    OwnerIsGiven(score, rf, [x] + ([y] + rest), [], Slot(p, r), x.id);
    OwnerIsGiven(score, rf, [y] + ([x] + rest), [], Slot(p, r), y.id);
  }

  /** Where a node that lists itself last has its one place: the last of those its tie reaches. */
  lemma OwnPlaceWhenLast(score: Score, rf: nat, nodes: seq<NodeDescriptor>, x: NodeDescriptor,
                         rest: seq<NodeDescriptor>, s: Slot)
    requires Membership(nodes) && !HasRackLabels(nodes) && multiset(rest + [x]) == multiset(nodes) && s.replica < rf
    ensures Owner(score, rf, rest + [x], [], s) == Some(x.id) <==> s.replica + 1 == |UpTo(score, s.partition, nodes, x)|
  {
    var p, view := s.partition, rest + [x];
    MembershipOfView(nodes, view);
    SameMembers(view, nodes);
    assert !HasRackLabels(view);
    var k := ListedLast(score, p, rest, x);
    BetterPermuted(score, p, view, nodes, ScoreOf(score, p, x) - 1);
    RankedMembership(score, p, view);
    AssignReplicasShape(score, p, rf, view);
    var ranked, chain := Ranked(score, p, view), AssignReplicas(score, p, rf, view);
    if s.replica < |chain| && chain[s.replica] == x.id {
      assert ranked[s.replica] in ranked && ranked[k] in ranked && ranked[s.replica] == ranked[k];
    }
  }

  /** If every node lists itself last, a place that tied nodes contend for, other than the last one their tie
      reaches, is claimed by nobody, */
  lemma TieIsClaimedByNobody(score: Score, rf: nat, nodes: seq<NodeDescriptor>, x: NodeDescriptor, s: Slot,
                             z: NodeDescriptor, rest: seq<NodeDescriptor>)
    requires Membership(nodes) && !HasRackLabels(nodes) && x in nodes && s.replica < rf
    requires |Above(score, s.partition, nodes, x)| <= s.replica < |UpTo(score, s.partition, nodes, x)| - 1
    requires multiset(rest + [z]) == multiset(nodes)
    ensures Owner(score, rf, rest + [z], [], s) != Some(z.id)
  {
    OwnPlaceWhenLast(score, rf, nodes, z, rest, s);
    if s.replica + 1 == |UpTo(score, s.partition, nodes, z)| { GroupEndsOnce(score, s.partition, nodes, x, z); }
  }

  lemma GroupEndsOnce(score: Score, p: nat, nodes: seq<NodeDescriptor>, x: NodeDescriptor, z: NodeDescriptor)
    requires |UpTo(score, p, nodes, z)| <= |UpTo(score, p, nodes, x)| - 1
    ensures |UpTo(score, p, nodes, z)| <= |Above(score, p, nodes, x)|
  {
    var vx, vz := ScoreOf(score, p, x), ScoreOf(score, p, z);
    if vz <= vx { BetterShrinks(score, p, nodes, vz - 1, vx - 1); } else { BetterShrinks(score, p, nodes, vx, vz - 1); }
  }

  /** and the last one by all of them. */
  lemma TieIsClaimedByAll(score: Score, rf: nat, nodes: seq<NodeDescriptor>, x: NodeDescriptor,
                          rest: seq<NodeDescriptor>, y: NodeDescriptor, rest': seq<NodeDescriptor>, s: Slot)
    requires Membership(nodes) && !HasRackLabels(nodes) && s.replica < rf && Tied(score, s.partition, x, y)
    requires multiset(rest + [x]) == multiset(nodes) == multiset(rest' + [y])
    requires s.replica + 1 == |UpTo(score, s.partition, nodes, x)|
    ensures Owner(score, rf, rest + [x], [], s) == Some(x.id) && Owner(score, rf, rest' + [y], [], s) == Some(y.id)
  {
    OwnPlaceWhenLast(score, rf, nodes, x, rest, s);
    OwnPlaceWhenLast(score, rf, nodes, y, rest', s);
  }

  /** A node of capacity zero has the same score whatever its id, below that of every other node. The source's
      scores are like that for all hashes that do not round to one when they are normalised. */
  ghost predicate ZeroScores(score: Score) {
    forall a, b, q, c: nat :: if c == 0 then score(a, q, 0) == score(b, q, c) else score(a, q, 0) < score(b, q, c)
  }

  /** So ties are real: with two nodes of capacity zero and fewer than `rf` others, two nodes own the same slot. */
  lemma ZeroCapacityTies(score: Score, p: nat, rf: nat, nodes: seq<NodeDescriptor>, x: NodeDescriptor,
                         y: NodeDescriptor)
    requires ZeroScores(score) && Membership(nodes) && !HasRackLabels(nodes)
    requires x in nodes && y in nodes && x != y && x.capacity == 0 && y.capacity == 0
    requires |Filter((n: NodeDescriptor) => n.capacity > 0, nodes)| < rf
    ensures !Decided(score, p, rf, nodes) && !RackDecided(score, p, rf, nodes)
    ensures !NeverClaimedTwice(p + 1, rf, score, nodes, [])
  {
    ZeroCapacityUndecided(score, p, rf, nodes, x, y);
    OneRackDecided(score, p, rf, nodes, "");
    RivalsBreakOwnership(score, p, rf, nodes);
  }

  lemma ZeroCapacityUndecided(score: Score, p: nat, rf: nat, nodes: seq<NodeDescriptor>, x: NodeDescriptor,
                              y: NodeDescriptor)
    requires ZeroScores(score) && Membership(nodes)
    requires x in nodes && y in nodes && x != y && x.capacity == 0 && y.capacity == 0
    requires |Filter((n: NodeDescriptor) => n.capacity > 0, nodes)| < rf
    ensures !Decided(score, p, rf, nodes)
  {
    var s := ScoreOf(score, p, x);
    forall n | n in nodes ensures ScoreOf(score, p, n) > s <==> n.capacity > 0 {
      assert if n.capacity == 0 then score(x.id, p, 0) == score(n.id, p, n.capacity)
             else score(x.id, p, 0) < score(n.id, p, n.capacity);
    }
    FilterSame((n: NodeDescriptor) => ScoreOf(score, p, n) > s, (n: NodeDescriptor) => n.capacity > 0, nodes);
    assert x.id != y.id && Tied(score, p, x, y);
  }

  lemma RivalsBreakOwnership(score: Score, p: nat, rf: nat, nodes: seq<NodeDescriptor>)
    requires Membership(nodes) && !RackDecided(score, p, rf, nodes)
    ensures !NeverClaimedTwice(p + 1, rf, score, nodes, [])
  {
    var x, y, rest, r := TieIsClaimedTwice(score, p, rf, nodes);
    TwoClaims(p + 1, rf, score, nodes, [], [x] + ([y] + rest), x.id, [y] + ([x] + rest), y.id, Slot(p, r));
  }

  lemma ChainShape(score: Score, partition: nat, rf: nat, nodes: seq<NodeDescriptor>)
    requires Membership(nodes)
    ensures GoodChain(Chain(score, partition, rf, nodes), rf, nodes)
  {
    AssignReplicasShape(score, partition, rf, nodes);
    AssignReplicasRackAwareShape(score, partition, rf, nodes);
  }

  /** Without overrides the replicas of a partition that exist are on different nodes. */
  lemma ReplicasOnDifferentNodes(score: Score, rf: nat, nodes: seq<NodeDescriptor>, p: nat, r1: nat, r2: nat)
    requires Membership(nodes) && r1 < r2 < rf
    ensures var o1, o2 := Owner(score, rf, nodes, [], Slot(p, r1)), Owner(score, rf, nodes, [], Slot(p, r2));
      (o2.Some? <==> r2 < |nodes|) && (o2.Some? ==> o1.Some? && o1 != o2)
  {
    ChainShape(score, p, rf, nodes);
  }

  // ---------------------------------------------------------------- when a node leaves

  /** The node with this id has the same place in the chain with and without `x`. */
  ghost predicate KeepsPlace(score: Score, p: nat, nodes: seq<NodeDescriptor>, id: string, x: NodeDescriptor) {
    exists a, n: NodeDescriptor, b :: n.id == id && Ranked(score, p, nodes) == a + [n] + b && KeepsSeat(a, n, b, x)
  }

  lemma SplitUnique(a: seq<NodeDescriptor>, n: NodeDescriptor, b: seq<NodeDescriptor>,
                    c: seq<NodeDescriptor>, m: NodeDescriptor, d: seq<NodeDescriptor>)
    requires Membership(a + [n] + b) && a + [n] + b == c + [m] + d && n.id == m.id
    ensures a == c && n == m && b == d
  {
    var all := a + [n] + b;
    assert all[|a|] == n && all[|c|] == m && n in all && m in all;
    assert |a| == |c|;
    assert a == all[..|a|] && c == all[..|a|] && b == all[|a| + 1..] && d == all[|a| + 1..];
  }

  /** A slot without override keeps its owner when `x` leaves, exactly if nobody owned it, or its owner is another
      node that keeps its place. */
  lemma LeavingMovesSlots(score: Score, rf: nat, nodes: seq<NodeDescriptor>, x: NodeDescriptor, s: Slot)
    requires Membership(nodes) && x in nodes
    ensures var before, after := Owner(score, rf, nodes, [], s), Owner(score, rf, Without(nodes, x.id), [], s);
      before == after <==>
        before.None? || (before != Some(x.id) && KeepsPlace(score, s.partition, nodes, before.value, x))
  {
    var p, rest := s.partition, Without(nodes, x.id);
    WithoutMembership(nodes, x.id);
    ChainShape(score, p, rf, nodes);
    ChainShape(score, p, rf, rest);
    ChainIsRackAware(score, p, rf, nodes);
    ChainIsRackAware(score, p, rf, rest);
    var before, after := Owner(score, rf, nodes, [], s), Owner(score, rf, rest, [], s);
    if before == Some(x.id) {
      FilterMembers((n: NodeDescriptor) => n.id != x.id, nodes);
      var chain := Chain(score, p, rf, rest);
      assert s.replica < |chain| ==> chain[s.replica] in chain;
    } else if before.Some? {
      var a, n, b := SurvivorKeepsPlaceIff(score, p, rf, nodes, x, s.replica);
      KeepsPlaceIs(score, p, nodes, x, a, n, b);
    }
  }

  lemma KeepsPlaceIs(score: Score, p: nat, nodes: seq<NodeDescriptor>, x: NodeDescriptor,
                     a: seq<NodeDescriptor>, n: NodeDescriptor, b: seq<NodeDescriptor>)
    requires Membership(nodes) && Ranked(score, p, nodes) == a + [n] + b
    ensures KeepsPlace(score, p, nodes, n.id, x) <==> KeepsSeat(a, n, b, x)
  {
    RankedMembership(score, p, nodes);
    if KeepsPlace(score, p, nodes, n.id, x) {
      var c, m: NodeDescriptor, d :| m.id == n.id && Ranked(score, p, nodes) == c + [m] + d && KeepsSeat(c, m, d, x);
      SplitUnique(a, n, b, c, m, d);
    }
  }

  /** A chain that loses the node at place `k`: the places from there on change. */
  lemma ShiftedPlaces(before: seq<string>, after: seq<string>, k: nat, r: nat)
    requires Distinct(before) && k < |before| && |before| - 1 <= |after| <= |before|
    requires forall i :: 0 <= i < k ==> after[i] == before[i]
    requires forall i :: k <= i < |before| - 1 ==> after[i] == before[i + 1]
    requires |after| == |before| ==> after[|before| - 1] !in before
    ensures k <= r < |before| <==>
      (if r < |after| then Some(after[r]) else None) != (if r < |before| then Some(before[r]) else None)
  {
  }

  /** Without racks these are the slots of later replicas: those of the node itself, and all behind it. */
  lemma LeavingMovesLaterReplicas(score: Score, rf: nat, nodes: seq<NodeDescriptor>, id: string, k: nat, s: Slot)
    requires Membership(nodes) && !HasRackLabels(nodes) && k < rf && s.replica < rf
    requires Owner(score, rf, nodes, [], Slot(s.partition, k)) == Some(id)
    ensures Owner(score, rf, Without(nodes, id), [], s) != Owner(score, rf, nodes, [], s) <==> k <= s.replica < |nodes|
  {
    var p := s.partition;
    var before, after := AssignReplicas(score, p, rf, nodes), AssignReplicas(score, p, rf, Without(nodes, id));
    FilterMembers((n: NodeDescriptor) => n.id != id, nodes);
    assert !HasRackLabels(Without(nodes, id));
    AssignReplicasShape(score, p, rf, nodes);
    LeavingShiftsPlaces(score, p, rf, nodes, id, k);
    ShiftedPlaces(before, after, k, s.replica);
  }
}
