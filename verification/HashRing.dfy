/** Replica placement by weighted rendezvous hashing.

A node's score for a partition is a fixed function of its id, the partition and its capacity. Scores are
compared with a total order, so any order-preserving numbering of them will do: a score is an `int` here
and the scoring function is a parameter of everything below.
*/
module HashRing {
  import opened Lists
  import opened Numbers
  import opened Sorting

  datatype NodeDescriptor = NodeDescriptor(id: string, capacity: nat, labels: map<string, string>)

  /** From node id, partition and capacity. */
  type Score = (string, nat, nat) -> int

  function ScoreOf(score: Score, partition: nat, n: NodeDescriptor): int {
    score(n.id, partition, n.capacity)
  }

  /** Highest score first. */
  function Ahead(score: Score, partition: nat): (NodeDescriptor, NodeDescriptor) -> bool {
    (a: NodeDescriptor, b: NodeDescriptor) => ScoreOf(score, partition, a) >= ScoreOf(score, partition, b)
  }

  function Ranked(score: Score, partition: nat, nodes: seq<NodeDescriptor>): seq<NodeDescriptor> {
    Sort(Ahead(score, partition), nodes)
  }

  function Ids(nodes: seq<NodeDescriptor>): (ids: seq<string>)
    ensures |ids| == |nodes|
    ensures forall i :: 0 <= i < |ids| ==> ids[i] == nodes[i].id
  {
    seq(|nodes|, i requires 0 <= i < |nodes| => nodes[i].id)
  }

  function AssignReplicas(score: Score, partition: nat, rf: nat, nodes: seq<NodeDescriptor>): seq<string> {
    var ranked := Ranked(score, partition, nodes);
    Ids(ranked[..Min(rf, |ranked|)])
  }

  /** Nodes without the label share the rack named by the empty string. */
  function Rack(n: NodeDescriptor): string {
    if "rack" in n.labels then n.labels["rack"] else ""
  }

  /** Takes nodes in rank order as long as their rack is new. */
  function RackPass(ranked: seq<NodeDescriptor>, rf: nat, selected: seq<string>, used: set<string>): seq<string> {
    if ranked == [] || |selected| >= rf then selected
    else if Rack(ranked[0]) !in used then
      RackPass(ranked[1..], rf, selected + [ranked[0].id], used + {Rack(ranked[0])})
    else RackPass(ranked[1..], rf, selected, used)
  }

  /** Fills up with the best nodes not taken yet. */
  function FillPass(ranked: seq<NodeDescriptor>, rf: nat, selected: seq<string>): seq<string> {
    if ranked == [] || |selected| >= rf then selected
    else if ranked[0].id !in selected then FillPass(ranked[1..], rf, selected + [ranked[0].id])
    else FillPass(ranked[1..], rf, selected)
  }

  function AssignReplicasRackAware(score: Score, partition: nat, rf: nat, nodes: seq<NodeDescriptor>): seq<string> {
    var ranked := Ranked(score, partition, nodes);
    FillPass(ranked, rf, RackPass(ranked, rf, [], {}))
  }

  /** The two passes as loops. */
  method SelectRackAware(score: Score, partition: nat, rf: nat, nodes: seq<NodeDescriptor>)
    returns (selected: seq<string>)
    ensures selected == AssignReplicasRackAware(score, partition, rf, nodes)
  {
    var scored := Ranked(score, partition, nodes);
    selected := [];
    var usedRacks: set<string> := {};
    var i := 0;
    while i < |scored| && |selected| < rf
      invariant 0 <= i <= |scored|
      invariant RackPass(scored[i..], rf, selected, usedRacks) == RackPass(scored, rf, [], {})
    {
      var rack := Rack(scored[i]);
      assert scored[i..][1..] == scored[i + 1..];
      if rack !in usedRacks {
        selected := selected + [scored[i].id];
        usedRacks := usedRacks + {rack};
      }
      i := i + 1;
    }
    assert selected == RackPass(scored, rf, [], {});
    if |selected| < rf {
      ghost var first := selected;
      i := 0;
      while i < |scored| && |selected| < rf
        invariant 0 <= i <= |scored|
        invariant FillPass(scored[i..], rf, selected) == FillPass(scored, rf, first)
      {
        assert scored[i..][1..] == scored[i + 1..];
        if scored[i].id !in selected {
          selected := selected + [scored[i].id];
        }
        i := i + 1;
      }
    }
  }

  // ---------------------------------------------------------------- shape of a chain

  ghost predicate DistinctIds(nodes: seq<NodeDescriptor>) {
    forall a, b :: a in nodes && b in nodes && a.id == b.id ==> a == b
  }

  /** Every node is listed once. */
  ghost predicate Membership(nodes: seq<NodeDescriptor>) {
    Distinct(nodes) && DistinctIds(nodes)
  }

  lemma AheadIsTotal(score: Score, partition: nat)
    ensures TotalPreorder(Ahead(score, partition))
  {}

  lemma RankedMembership(score: Score, partition: nat, nodes: seq<NodeDescriptor>)
    requires Membership(nodes)
    ensures Membership(Ranked(score, partition, nodes))
    ensures |Ranked(score, partition, nodes)| == |nodes|
    ensures forall n :: n in Ranked(score, partition, nodes) <==> n in nodes
  {
    SortMultiset(Ahead(score, partition), nodes);
    SortMembers(Ahead(score, partition), nodes);
    MultisetDistinct(nodes, Ranked(score, partition, nodes));
  }

  ghost function Racks(nodes: seq<NodeDescriptor>): (r: seq<string>)
    ensures |r| == |nodes|
    ensures forall i :: 0 <= i < |r| ==> r[i] == Rack(nodes[i])
  {
    seq(|nodes|, i requires 0 <= i < |nodes| => Rack(nodes[i]))
  }

  /** Racks of the nodes whose id is in `ids`. */
  ghost function RacksOf(nodes: seq<NodeDescriptor>, ids: seq<string>): set<string> {
    set n | n in nodes && n.id in ids :: Rack(n)
  }

  ghost function AllRacks(nodes: seq<NodeDescriptor>): set<string> {
    set n | n in nodes :: Rack(n)
  }

  ghost predicate FromNodes(ids: seq<string>, nodes: seq<NodeDescriptor>) {
    forall x :: x in ids ==> exists n :: n in nodes && n.id == x
  }

  /** What the first pass knows after `k` nodes: it took one node a rack, and no rack was passed over. */
  ghost predicate RackInv(all: seq<NodeDescriptor>, k: nat, chosen: seq<NodeDescriptor>, used: set<string>)
    requires k <= |all|
  {
    && (forall n :: n in chosen ==> n in all)
    && (forall i, j :: 0 <= i < j < |chosen| ==> Rack(chosen[i]) != Rack(chosen[j]))
    && used == Elems(Racks(chosen))
    && (forall i :: 0 <= i < k ==> Rack(all[i]) in used)
  }

  lemma RackStep(all: seq<NodeDescriptor>, k: nat, chosen: seq<NodeDescriptor>, used: set<string>)
    requires k < |all| && RackInv(all, k, chosen, used) && Rack(all[k]) !in used
    ensures RackInv(all, k + 1, chosen + [all[k]], used + {Rack(all[k])})
    ensures Ids(chosen + [all[k]]) == Ids(chosen) + [all[k].id]
  {
    assert Racks(chosen + [all[k]]) == Racks(chosen) + [Rack(all[k])];
    assert forall i :: 0 <= i < |chosen| ==> Racks(chosen)[i] in used;
  }

  lemma {:induction false} RackPassShape(all: seq<NodeDescriptor>, k: nat, rf: nat,
                                         chosen: seq<NodeDescriptor>, used: set<string>)
      returns (k': nat, chosen': seq<NodeDescriptor>, used': set<string>)
    requires k <= |all| && |chosen| <= rf && RackInv(all, k, chosen, used)
    ensures k' <= |all| && RackInv(all, k', chosen', used') && (|chosen'| == rf || (|chosen'| < rf && k' == |all|))
    ensures RackPass(all[k..], rf, Ids(chosen), used) == Ids(chosen')
    ensures chosen <= chosen'
    decreases |all| - k
  {
    if k == |all| || |chosen| >= rf {
      k', chosen', used' := k, chosen, used;
    } else {
      assert all[k..][1..] == all[k + 1..];
      if Rack(all[k]) !in used {
        RackStep(all, k, chosen, used);
        k', chosen', used' := RackPassShape(all, k + 1, rf, chosen + [all[k]], used + {Rack(all[k])});
      } else {
        k', chosen', used' := RackPassShape(all, k + 1, rf, chosen, used);
      }
    }
  }

  lemma {:induction false} FillPassShape(all: seq<NodeDescriptor>, k: nat, rf: nat, selected: seq<string>)
    requires k <= |all| && |selected| <= rf && Distinct(selected) && FromNodes(selected, all)
    requires forall i :: 0 <= i < k ==> all[i].id in selected
    ensures var out := FillPass(all[k..], rf, selected);
      && Distinct(out) && FromNodes(out, all) && selected <= out && |out| <= rf
      && (|out| == rf || forall n :: n in all ==> n.id in out)
    decreases |all| - k
  {
    if k == |all| {
      forall n | n in all ensures n.id in selected {
        var i :| 0 <= i < |all| && all[i] == n;
      }
    } else if |selected| < rf {
      assert all[k..][1..] == all[k + 1..] && all[k..][0] == all[k];
      if all[k].id !in selected {
        AddedId(all, k, selected);
        FillPassShape(all, k + 1, rf, selected + [all[k].id]);
      } else {
        FillPassShape(all, k + 1, rf, selected);
      }
    }
  }

  lemma AddedId(all: seq<NodeDescriptor>, k: nat, selected: seq<string>)
    requires k < |all| && Distinct(selected) && FromNodes(selected, all) && all[k].id !in selected
    ensures Distinct(selected + [all[k].id]) && FromNodes(selected + [all[k].id], all)
  {
    assert all[k] in all;
  }

  /** Ids taken from a membership list, without repeats, are at most as many as its nodes, and exactly as
      many when none is missing. */
  lemma ChainLength(ids: seq<string>, nodes: seq<NodeDescriptor>)
    requires Membership(nodes) && Distinct(ids) && FromNodes(ids, nodes)
    ensures |ids| <= |nodes|
    ensures (forall n :: n in nodes ==> n.id in ids) ==> |ids| == |nodes|
  {
    var names := Ids(nodes);
    assert Distinct(names) by {
      forall i, j | 0 <= i < j < |names| ensures names[i] != names[j] {
        assert nodes[i] in nodes && nodes[j] in nodes && nodes[i] != nodes[j];
      }
    }
    DistinctCard(names);
    DistinctCard(ids);
    var a, b := Elems(ids), Elems(names);
    forall x | x in a ensures x in b {
      var n :| n in nodes && n.id == x;
      var i :| 0 <= i < |nodes| && nodes[i] == n;
      assert names[i] == x;
    }
    SubsetCard(a, b);
    if forall n :: n in nodes ==> n.id in ids {
      forall x | x in b ensures x in a {
        var i :| 0 <= i < |names| && names[i] == x;
        assert nodes[i] in nodes;
      }
      SubsetCard(b, a);
    }
  }

  ghost predicate GoodChain(chain: seq<string>, rf: nat, nodes: seq<NodeDescriptor>) {
    Distinct(chain) && FromNodes(chain, nodes) && |chain| == Min(rf, |nodes|)
  }

  lemma RankedFromNodes(ids: seq<string>, ranked: seq<NodeDescriptor>, nodes: seq<NodeDescriptor>)
    requires FromNodes(ids, ranked) && forall n :: n in ranked ==> n in nodes
    ensures FromNodes(ids, nodes)
  {
    forall x | x in ids ensures exists n :: n in nodes && n.id == x {
      var n :| n in ranked && n.id == x;
      assert n in nodes;
    }
  }

  /** The plain chain names min(rf, nodes) different nodes. */
  lemma AssignReplicasShape(score: Score, partition: nat, rf: nat, nodes: seq<NodeDescriptor>)
    requires Membership(nodes)
    ensures GoodChain(AssignReplicas(score, partition, rf, nodes), rf, nodes)
  {
    RankedMembership(score, partition, nodes);
    var ranked := Ranked(score, partition, nodes);
    var chain := AssignReplicas(score, partition, rf, nodes);
    forall i, j | 0 <= i < j < |chain| ensures chain[i] != chain[j] {
      assert ranked[i] in ranked && ranked[j] in ranked && ranked[i] != ranked[j];
    }
    forall x | x in chain ensures exists n :: n in nodes && n.id == x {
      var i :| 0 <= i < |chain| && chain[i] == x;
      assert ranked[i] in ranked;
    }
  }

  /** The rack-aware chain names min(rf, nodes) different nodes as well, and no choice of that many nodes
      could have spanned more racks. */
  lemma AssignReplicasRackAwareShape(score: Score, partition: nat, rf: nat, nodes: seq<NodeDescriptor>)
    requires Membership(nodes)
    ensures var chain := AssignReplicasRackAware(score, partition, rf, nodes);
      && GoodChain(chain, rf, nodes)
      && |RacksOf(nodes, chain)| == Min(rf, |AllRacks(nodes)|)
      && forall ids: seq<string> :: |ids| <= rf ==> |RacksOf(nodes, ids)| <= |RacksOf(nodes, chain)|
  {
    RankedMembership(score, partition, nodes);
    var ranked := Ranked(score, partition, nodes);
    var chain := AssignReplicasRackAware(score, partition, rf, nodes);
    assert ranked[0..] == ranked && Ids([]) == [];
    var k, chosen, used := RackPassShape(ranked, 0, rf, [], {});
    IdsOfMembers(chosen, ranked);
    FillPassShape(ranked, 0, rf, Ids(chosen));
    RankedFromNodes(chain, ranked, nodes);
    ChainLength(chain, nodes);
    RackCount(nodes, ranked, k, chosen, used, chain, rf);
    forall ids: seq<string> | |ids| <= rf
      ensures |RacksOf(nodes, ids)| <= Min(rf, |AllRacks(nodes)|)
    {
      FewRacks(nodes, ids);
    }
  }

  lemma {:induction false} FewRacks(nodes: seq<NodeDescriptor>, ids: seq<string>)
    requires DistinctIds(nodes)
    ensures |RacksOf(nodes, ids)| <= |ids| && |RacksOf(nodes, ids)| <= |AllRacks(nodes)|
  {
    SubsetCard(RacksOf(nodes, ids), AllRacks(nodes));
    if ids != [] {
      var front, last := ids[..|ids| - 1], ids[|ids| - 1];
      FewRacks(nodes, front);
      assert ids == front + [last];
      var some, more := RacksOf(nodes, front), RacksOf(nodes, ids);
      if n :| n in nodes && n.id == last {
        assert more <= some + {Rack(n)};
        SubsetCard(more, some + {Rack(n)});
      } else {
        assert more <= some;
        SubsetCard(more, some);
      }
    }
  }

  lemma IdsOfMembers(chosen: seq<NodeDescriptor>, nodes: seq<NodeDescriptor>)
    requires DistinctIds(nodes) && forall n :: n in chosen ==> n in nodes
    requires forall i, j :: 0 <= i < j < |chosen| ==> Rack(chosen[i]) != Rack(chosen[j])
    ensures Distinct(Ids(chosen)) && FromNodes(Ids(chosen), nodes)
  {
    forall x | x in Ids(chosen) ensures exists n :: n in nodes && n.id == x {
      var i :| 0 <= i < |chosen| && chosen[i].id == x;
      assert chosen[i] in nodes;
    }
    forall i, j | 0 <= i < j < |chosen| ensures Ids(chosen)[i] != Ids(chosen)[j] {
      assert chosen[i] in nodes && chosen[j] in nodes;
    }
  }

  lemma RackCount(nodes: seq<NodeDescriptor>, ranked: seq<NodeDescriptor>, k: nat, chosen: seq<NodeDescriptor>,
                  used: set<string>, chain: seq<string>, rf: nat)
    requires forall n :: n in ranked <==> n in nodes
    requires k <= |ranked| && RackInv(ranked, k, chosen, used) && Ids(chosen) <= chain && |chain| <= rf
    requires |chosen| == rf || (|chosen| < rf && k == |ranked|)
    requires DistinctIds(nodes)
    ensures |RacksOf(nodes, chain)| == Min(rf, |AllRacks(nodes)|)
  {
    var some, all := RacksOf(nodes, chain), AllRacks(nodes);
    assert |used| == |chosen| by { DistinctCard(Racks(chosen)); }
    UsedAreCovered(nodes, chosen, used, chain);
    SubsetCard(some, all);
    if |chosen| == rf {
      assert chain == Ids(chosen);
      CoveredAreUsed(nodes, chosen, used);
    } else {
      forall r | r in all ensures r in used {
        var n :| n in nodes && Rack(n) == r;
        assert n in ranked;
      }
      assert some == all == used;
    }
  }

  lemma UsedAreCovered(nodes: seq<NodeDescriptor>, chosen: seq<NodeDescriptor>, used: set<string>, chain: seq<string>)
    requires (forall n :: n in chosen ==> n in nodes) && used == Elems(Racks(chosen)) && Ids(chosen) <= chain
    ensures used <= RacksOf(nodes, chain)
  {
    forall r | r in used ensures r in RacksOf(nodes, chain) {
      var i :| 0 <= i < |chosen| && Racks(chosen)[i] == r;
      assert chosen[i] in nodes && Ids(chosen)[i] == chain[i] && chain[i] in chain;
    }
  }

  lemma CoveredAreUsed(nodes: seq<NodeDescriptor>, chosen: seq<NodeDescriptor>, used: set<string>)
    requires DistinctIds(nodes) && (forall n :: n in chosen ==> n in nodes) && used == Elems(Racks(chosen))
    ensures RacksOf(nodes, Ids(chosen)) == used
  {
    UsedAreCovered(nodes, chosen, used, Ids(chosen));
    forall r | r in RacksOf(nodes, Ids(chosen)) ensures r in used {
      var n :| n in nodes && n.id in Ids(chosen) && Rack(n) == r;
      var i :| 0 <= i < |chosen| && Ids(chosen)[i] == n.id;
      assert chosen[i] in nodes && chosen[i] == n && Racks(chosen)[i] == r;
    }
  }

  /** Whether or not racks count, the primary is the node with the highest score. */
  lemma PrimaryIsBest(score: Score, partition: nat, rf: nat, nodes: seq<NodeDescriptor>)
    requires rf > 0 && nodes != []
    ensures |Ranked(score, partition, nodes)| == |nodes|
    ensures var best := Ranked(score, partition, nodes)[0];
      && [best.id] <= AssignReplicas(score, partition, rf, nodes)
      && [best.id] <= AssignReplicasRackAware(score, partition, rf, nodes)
      && best in nodes
      && forall n :: n in nodes ==> score(n.id, partition, n.capacity) <= score(best.id, partition, best.capacity)
  {
    SortMultiset(Ahead(score, partition), nodes);
    SortMembers(Ahead(score, partition), nodes);
    SortSorted(Ahead(score, partition), nodes);
    var ranked := Ranked(score, partition, nodes);
    RackPassExtends(ranked[1..], rf, [ranked[0].id], {Rack(ranked[0])});
    assert [] + [ranked[0].id] == [ranked[0].id] && {} + {Rack(ranked[0])} == {Rack(ranked[0])};
    FillPassExtends(ranked, rf, RackPass(ranked, rf, [], {}));
    forall n | n in nodes ensures ScoreOf(score, partition, n) <= ScoreOf(score, partition, ranked[0]) {
      assert n in ranked;
      var i :| 0 <= i < |ranked| && ranked[i] == n;
      assert i > 0 ==> Ahead(score, partition)(ranked[0], ranked[i]);
    }
  }

  lemma {:induction false} RackPassExtends(ranked: seq<NodeDescriptor>, rf: nat, selected: seq<string>,
                                           used: set<string>)
    ensures selected <= RackPass(ranked, rf, selected, used)
  {
    if ranked != [] && |selected| < rf {
      RackPassExtends(ranked[1..], rf, selected + [ranked[0].id], used + {Rack(ranked[0])});
      RackPassExtends(ranked[1..], rf, selected, used);
    }
  }

  lemma {:induction false} FillPassExtends(ranked: seq<NodeDescriptor>, rf: nat, selected: seq<string>)
    ensures selected <= FillPass(ranked, rf, selected)
  {
    if ranked != [] && |selected| < rf {
      FillPassExtends(ranked[1..], rf, selected + [ranked[0].id]);
      FillPassExtends(ranked[1..], rf, selected);
    }
  }

  // ---------------------------------------------------------------- agreement and disruption

  /** No two nodes have the same score for the partition. */
  ghost predicate Untied(score: Score, partition: nat, nodes: seq<NodeDescriptor>) {
    forall a, b :: a in nodes && b in nodes && ScoreOf(score, partition, a) == ScoreOf(score, partition, b) ==> a == b
  }

  /** Agents that list the same nodes in any order rank them alike, if and only if no two of those nodes
      are tied. */
  lemma RankingAgreesIffUntied(score: Score, partition: nat, nodes: seq<NodeDescriptor>)
    ensures Untied(score, partition, nodes) <==>
      forall view :: multiset(view) == multiset(nodes) ==>
        Ranked(score, partition, view) == Ranked(score, partition, nodes)
  {
    AheadIsTotal(score, partition);
    var le := Ahead(score, partition);
    OrderIndependentIffNoTies(le, nodes);
    if Untied(score, partition, nodes) {
      forall view | multiset(view) == multiset(nodes)
        ensures Ranked(score, partition, view) == Ranked(score, partition, nodes)
      {
        NoTiesOrderIndependent(le, nodes, view);
      }
    } else {
      var a, b :| a in nodes && b in nodes && ScoreOf(score, partition, a) == ScoreOf(score, partition, b) && a != b;
      assert le(a, b) && le(b, a) && !NoTies(le, nodes);
      var view :| multiset(view) == multiset(nodes) && Sort(le, view) != Sort(le, nodes);
      assert Ranked(score, partition, view) != Ranked(score, partition, nodes);
    }
  }

  function Without(nodes: seq<NodeDescriptor>, id: string): seq<NodeDescriptor> {
    Filter((n: NodeDescriptor) => n.id != id, nodes)
  }

  function WithoutId(ids: seq<string>, id: string): seq<string> {
    Filter((x: string) => x != id, ids)
  }

  lemma {:induction false} IdsWithout(nodes: seq<NodeDescriptor>, id: string)
    ensures Ids(Without(nodes, id)) == WithoutId(Ids(nodes), id)
  {
    if nodes == [] {
      assert Ids(nodes) == [];
    } else {
      IdsWithout(nodes[1..], id);
      assert Ids(nodes)[1..] == Ids(nodes[1..]);
      var rest := Without(nodes[1..], id);
      assert Ids([nodes[0]] + rest) == [nodes[0].id] + Ids(rest);
    }
  }

  lemma RankedWithout(score: Score, partition: nat, nodes: seq<NodeDescriptor>, id: string)
    ensures Ranked(score, partition, Without(nodes, id)) == Without(Ranked(score, partition, nodes), id)
  {
    AheadIsTotal(score, partition);
    SortFilter(Ahead(score, partition), (n: NodeDescriptor) => n.id != id, nodes);
  }

  /** When a node leaves, the rest of a chain stays in order and is only added to at the end; a chain without
      that node does not change at all. */
  lemma LeavingDisturbsLittle(score: Score, partition: nat, rf: nat, nodes: seq<NodeDescriptor>, id: string)
    ensures
      var before := AssignReplicas(score, partition, rf, nodes);
      var after := AssignReplicas(score, partition, rf, Without(nodes, id));
      && WithoutId(before, id) <= after
      && (id !in before ==> after == before)
  {
    RankedWithout(score, partition, nodes, id);
    SortMultiset(Ahead(score, partition), nodes);
    var ranked := Ranked(score, partition, nodes);
    var m := Min(rf, |ranked|);
    var before := AssignReplicas(score, partition, rf, nodes);
    var after := AssignReplicas(score, partition, rf, Without(nodes, id));
    HeadWithout(ranked, m, id);
    var head := Without(ranked[..m], id);
    IdsWithout(ranked[..m], id);
    assert Ids(head) <= after;
    if id !in before {
      FilterKeepsAll((x: string) => x != id, before);
      if m == |ranked| { assert ranked[..m] == ranked; }
    }
  }

  /** Place by place: in front of the leaving node everyone stays, behind it everyone moves up by one, and the
      last place goes to a node that was not in the chain, if there is one. */
  lemma LeavingShiftsPlaces(score: Score, partition: nat, rf: nat, nodes: seq<NodeDescriptor>, id: string, k: nat)
    requires Membership(nodes)
    requires k < |AssignReplicas(score, partition, rf, nodes)| && AssignReplicas(score, partition, rf, nodes)[k] == id
    ensures
      var before := AssignReplicas(score, partition, rf, nodes);
      var after := AssignReplicas(score, partition, rf, Without(nodes, id));
      && |before| - 1 <= |after| <= |before| && (|after| == |before| <==> rf < |nodes|)
      && (forall r :: 0 <= r < k ==> after[r] == before[r])
      && (forall r :: k <= r < |before| - 1 ==> after[r] == before[r + 1])
      && (|after| == |before| ==> after[|before| - 1] !in before)
  {
    var before := AssignReplicas(score, partition, rf, nodes);
    var after := AssignReplicas(score, partition, rf, Without(nodes, id));
    AssignReplicasShape(score, partition, rf, nodes);
    LeavingDisturbsLittle(score, partition, rf, nodes, id);
    RemoveAt(before, k, (x: string) => x != id);
    WithoutOne(score, partition, rf, nodes, id);
    AssignReplicasShape(score, partition, rf, Without(nodes, id));
    assert id !in after;
    Shifted(before, after, k);
  }

  /** A list that starts with another one less its element `k`, and has at most one more. */
  lemma Shifted(before: seq<string>, after: seq<string>, k: nat)
    requires k < |before| && Distinct(after) && before[k] !in after && |after| <= |before|
    requires before[..k] + before[k + 1..] <= after
    ensures forall r :: 0 <= r < k ==> after[r] == before[r]
    ensures forall r :: k <= r < |before| - 1 ==> after[r] == before[r + 1]
    ensures |after| == |before| ==> after[|before| - 1] !in before
  {
    var kept := before[..k] + before[k + 1..];
    forall r | 0 <= r < |kept| ensures after[r] == kept[r] {}
    if |after| == |before| {
      forall i | 0 <= i < |before| ensures before[i] != after[|before| - 1] {
        if i < k {
          assert before[i] == kept[i] == after[i];
        } else if i > k {
          assert before[i] == kept[i - 1] == after[i - 1];
        }
      }
    }
  }

  lemma WithoutOne(score: Score, partition: nat, rf: nat, nodes: seq<NodeDescriptor>, id: string)
    requires Membership(nodes) && id in AssignReplicas(score, partition, rf, nodes)
    ensures Membership(Without(nodes, id)) && |Without(nodes, id)| == |nodes| - 1
    ensures forall n :: n in Without(nodes, id) ==> n.id != id
  {
    AssignReplicasShape(score, partition, rf, nodes);
    var n :| n in nodes && n.id == id;
    var k :| 0 <= k < |nodes| && nodes[k] == n;
    FilterMembers((n: NodeDescriptor) => n.id != id, nodes);
    FilterDistinct((n: NodeDescriptor) => n.id != id, nodes);
    RemoveAt(nodes, k, (n: NodeDescriptor) => n.id != id);
  }

  lemma HeadWithout(ranked: seq<NodeDescriptor>, m: nat, id: string)
    requires m <= |ranked|
    ensures Without(ranked[..m], id) <= Without(ranked, id) && |Without(ranked[..m], id)| <= m
  {
    var keep := (n: NodeDescriptor) => n.id != id;
    assert ranked == ranked[..m] + ranked[m..];
    FilterConcat(keep, ranked[..m], ranked[m..]);
    FilterMembers(keep, ranked[..m]);
  }
}
