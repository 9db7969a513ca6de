/** What the rack-aware chain promises about the labels that nodes publish. */
module RackLabels {
  import opened Lists
  import opened Numbers
  import opened Sorting
  import opened HashRing
  import opened RackAware

  predicate Labelled(n: NodeDescriptor) { "rack" in n.labels }

  /** Both have the label with the same value, or neither has it, or one has no label and the other an empty one. */
  predicate OnOneRack(a: NodeDescriptor, b: NodeDescriptor) {
    || (Labelled(a) && Labelled(b) && a.labels["rack"] == b.labels["rack"])
    || (!Labelled(a) && !Labelled(b))
    || (!Labelled(a) && Labelled(b) && b.labels["rack"] == "")
    || (Labelled(a) && !Labelled(b) && a.labels["rack"] == "")
  }

  lemma SameRackIff(a: NodeDescriptor, b: NodeDescriptor)
    ensures Rack(a) == Rack(b) <==> OnOneRack(a, b)
  {
  }

  ghost predicate PairwiseApart(some: seq<NodeDescriptor>) {
    forall i, j :: 0 <= i < j < |some| ==> !OnOneRack(some[i], some[j])
  }

  lemma ApartRacks(some: seq<NodeDescriptor>)
    ensures PairwiseApart(some) <==> Distinct(Racks(some))
  {
    forall i, j | 0 <= i < j < |some| ensures OnOneRack(some[i], some[j]) <==> Racks(some)[i] == Racks(some)[j] {
      SameRackIff(some[i], some[j]);
    }
  }

  /** One node of each of `k` racks. */
  lemma {:induction false} PickRacks(nodes: seq<NodeDescriptor>, ids: seq<string>, racks: set<string>, k: nat)
    returns (picks: seq<NodeDescriptor>)
    requires racks <= RacksOf(nodes, ids) && k <= |racks|
    ensures |picks| == k && Distinct(Racks(picks))
    ensures forall n :: n in picks ==> n in nodes && n.id in ids && Rack(n) in racks
  {
    if k == 0 {
      picks := [];
    } else {
      var r :| r in racks;
      var n :| n in nodes && n.id in ids && Rack(n) == r;
      var rest := PickRacks(nodes, ids, racks - {r}, k - 1);
      picks := rest + [n];
      assert forall i :: 0 <= i < k - 1 ==> Racks(picks)[i] == Rack(rest[i]) && rest[i] in rest;
    }
  }

  /** The chain spreads over labels as widely as can be: for any at most `rf` nodes that are pairwise on different
      racks, there are as many in the chain. If all nodes have labels, those in the chain have different ones. */
  lemma SpreadOverLabels(score: Score, partition: nat, rf: nat, nodes: seq<NodeDescriptor>, some: seq<NodeDescriptor>)
    returns (picks: seq<NodeDescriptor>)
    requires Membership(nodes) && |some| <= rf && PairwiseApart(some) && forall n :: n in some ==> n in nodes
    ensures |picks| == |some| && PairwiseApart(picks)
    ensures forall n :: n in picks ==> n in nodes && n.id in AssignReplicasRackAware(score, partition, rf, nodes)
    ensures (forall n :: n in nodes ==> Labelled(n)) ==>
      forall i, j :: 0 <= i < j < |picks| ==> picks[i].labels["rack"] != picks[j].labels["rack"]
  {
    var chain := AssignReplicasRackAware(score, partition, rf, nodes);
    AssignReplicasRackAwareShape(score, partition, rf, nodes);
    ApartRacks(some);
    DistinctCard(Racks(some));
    forall r | r in Elems(Racks(some)) ensures r in AllRacks(nodes) {
      var i :| 0 <= i < |some| && Racks(some)[i] == r;
      assert some[i] in some;
    }
    SubsetCard(Elems(Racks(some)), AllRacks(nodes));
    picks := PickRacks(nodes, chain, RacksOf(nodes, chain), |some|);
    ApartRacks(picks);
    forall i | 0 <= i < |picks| ensures picks[i] in nodes { assert picks[i] in picks; }
  }

  // ---------------------------------------------------------------- nodes without the label

  /** The values the label has. */
  ghost function Values(nodes: seq<NodeDescriptor>): set<string> {
    set n | n in nodes && Labelled(n) :: n.labels["rack"]
  }

  ghost function ValuesOf(nodes: seq<NodeDescriptor>, ids: seq<string>): set<string> {
    set n | n in nodes && n.id in ids && Labelled(n) :: n.labels["rack"]
  }

  ghost predicate NoEmptyLabel(nodes: seq<NodeDescriptor>) {
    forall n :: n in nodes && Labelled(n) ==> n.labels["rack"] != ""
  }

  ghost predicate HasUnlabelled(nodes: seq<NodeDescriptor>, ids: seq<string>) {
    exists n :: n in nodes && n.id in ids && !Labelled(n)
  }

  /** Nodes without the label are one more rack. */
  lemma RacksAndValues(nodes: seq<NodeDescriptor>, ids: seq<string>)
    requires NoEmptyLabel(nodes)
    ensures |RacksOf(nodes, ids)| == |ValuesOf(nodes, ids)| + if HasUnlabelled(nodes, ids) then 1 else 0
  {
    var values := ValuesOf(nodes, ids);
    if HasUnlabelled(nodes, ids) {
      assert RacksOf(nodes, ids) == values + {""};
    } else {
      assert RacksOf(nodes, ids) == values;
    }
  }

  lemma OfAllIds(nodes: seq<NodeDescriptor>)
    ensures RacksOf(nodes, Ids(nodes)) == AllRacks(nodes) && ValuesOf(nodes, Ids(nodes)) == Values(nodes)
  {
    forall n | n in nodes ensures n.id in Ids(nodes) {
      var i :| 0 <= i < |nodes| && nodes[i] == n;
      assert Ids(nodes)[i] == n.id;
    }
  }

  /** A node without the label takes the place of a rack: fewer than `rf` label values are ranked ahead of all of
      them. */
  ghost predicate UnlabelledIntrudes(score: Score, partition: nat, rf: nat, nodes: seq<NodeDescriptor>) {
    exists a, n: NodeDescriptor, b :: Ranked(score, partition, nodes) == a + [n] + b
      && !Labelled(n) && (forall m :: m in a ==> Labelled(m)) && |Values(a)| < rf
  }

  lemma LabelledRacks(a: seq<NodeDescriptor>)
    requires forall m :: m in a ==> Labelled(m)
    ensures AllRacks(a) == Values(a)
  {
  }

  /** If there are more racks than replicas, exactly such a node is in the chain. */
  lemma IntrudesIff(score: Score, partition: nat, rf: nat, nodes: seq<NodeDescriptor>)
    requires Membership(nodes) && NoEmptyLabel(nodes) && |AllRacks(nodes)| > rf
    ensures HasUnlabelled(nodes, AssignReplicasRackAware(score, partition, rf, nodes)) <==>
      UnlabelledIntrudes(score, partition, rf, nodes)
  {
    var ranked, chain := Ranked(score, partition, nodes), AssignReplicasRackAware(score, partition, rf, nodes);
    RankedMembership(score, partition, nodes);
    assert AllRacks(ranked) == AllRacks(nodes);
    if HasUnlabelled(nodes, chain) {
      var n :| n in nodes && n.id in chain && !Labelled(n);
      var a, b := SplitAt(ranked, n);
      InChainIff(score, partition, rf, nodes, a, n, b);
      SeatCount(a, n, b);
      assert forall m :: m in a ==> m in a + [n] + b;
      assert "" !in AllRacks(a);
      LabelledRacks(a);
    }
    if UnlabelledIntrudes(score, partition, rf, nodes) {
      var a, n: NodeDescriptor, b :| ranked == a + [n] + b && !Labelled(n) && (forall m :: m in a ==> Labelled(m))
        && |Values(a)| < rf;
      assert n in a + [n] + b && forall m :: m in a ==> m in a + [n] + b;
      LabelledRacks(a);
      InChainIff(score, partition, rf, nodes, a, n, b);
      SeatCount(a, n, b);
    }
  }

  /** The chain has as many different label values as possible, if and only if there are fewer values than replicas,
      or no node without the label takes the place of one. */
  lemma LabelsSpreadIff(score: Score, partition: nat, rf: nat, nodes: seq<NodeDescriptor>)
    requires Membership(nodes) && NoEmptyLabel(nodes)
    ensures |ValuesOf(nodes, AssignReplicasRackAware(score, partition, rf, nodes))| >= Min(rf, |Values(nodes)|) <==>
      |Values(nodes)| < rf || !UnlabelledIntrudes(score, partition, rf, nodes)
  {
    var chain := AssignReplicasRackAware(score, partition, rf, nodes);
    AssignReplicasRackAwareShape(score, partition, rf, nodes);
    RacksAndValues(nodes, chain);
    RacksAndValues(nodes, Ids(nodes));
    OfAllIds(nodes);
    if |AllRacks(nodes)| > rf {
      IntrudesIff(score, partition, rf, nodes);
    } else if |Values(nodes)| == rf {
      NoneUnlabelled(score, partition, rf, nodes);
    }
  }

  lemma NoneUnlabelled(score: Score, partition: nat, rf: nat, nodes: seq<NodeDescriptor>)
    requires Membership(nodes) && !HasUnlabelled(nodes, Ids(nodes))
    ensures !UnlabelledIntrudes(score, partition, rf, nodes)
  {
    RankedMembership(score, partition, nodes);
    forall a, n: NodeDescriptor, b | Ranked(score, partition, nodes) == a + [n] + b ensures Labelled(n) {
      assert n in a + [n] + b;
      var i :| 0 <= i < |nodes| && nodes[i] == n;
      assert Ids(nodes)[i] == n.id;
    }
  }

  /** Three nodes, the best one without the label and the others with different ones. */
  predicate Intruder(score: Score, partition: nat, a: NodeDescriptor, b: NodeDescriptor, c: NodeDescriptor) {
    && ScoreOf(score, partition, a) > ScoreOf(score, partition, b) > ScoreOf(score, partition, c)
    && a.id != b.id && a.id != c.id && b.id != c.id && !Labelled(a) && Labelled(b) && Labelled(c)
    && b.labels["rack"] != "" && c.labels["rack"] != "" && b.labels["rack"] != c.labels["rack"]
  }

  lemma RankedThree(score: Score, partition: nat, a: NodeDescriptor, b: NodeDescriptor, c: NodeDescriptor)
    requires ScoreOf(score, partition, a) > ScoreOf(score, partition, b) > ScoreOf(score, partition, c)
    ensures Ranked(score, partition, [a, b, c]) == [a, b, c]
  {
    AheadIsTotal(score, partition);
    SortedIsItself(Ahead(score, partition), [a, b, c]);
  }

  lemma ThreeNodes(score: Score, partition: nat, a: NodeDescriptor, b: NodeDescriptor, c: NodeDescriptor)
    requires Intruder(score, partition, a, b, c)
    ensures Membership([a, b, c]) && NoEmptyLabel([a, b, c]) && |Values([a, b, c])| == 2
  {
    var nodes := [a, b, c];
    assert a in nodes && b in nodes && c in nodes;
    assert Values(nodes) == {b.labels["rack"], c.labels["rack"]};
  }

  /** It does happen: with such nodes the chain of two has one label value although there are two. */
  lemma IntruderIsChosen(score: Score, partition: nat, a: NodeDescriptor, b: NodeDescriptor, c: NodeDescriptor)
    requires Intruder(score, partition, a, b, c)
    ensures |ValuesOf([a, b, c], AssignReplicasRackAware(score, partition, 2, [a, b, c]))| < 2 == |Values([a, b, c])|
  {
    var nodes := [a, b, c];
    ThreeNodes(score, partition, a, b, c);
    RankedThree(score, partition, a, b, c);
    assert nodes == [] + [a] + [b, c] && Values([]) == {};
    assert UnlabelledIntrudes(score, partition, 2, nodes);
    LabelsSpreadIff(score, partition, 2, nodes);
  }
}
