/** Draining a node: overrides that move its slots elsewhere, and taking them back. */
module Drain {
  import opened Lists
  import opened Wrappers
  import opened StoreMachine
  import opened HashRing
  import opened RackAware
  import opened Overrides
  import opened Placement

  /** What the orchestrator knows about a node; capacity and labels default when it never published them. */
  datatype NodeInfo = NodeInfo(online: bool, metadata: Option<NodeDescriptor>)

  function Describe(id: string, info: NodeInfo): NodeDescriptor {
    match info.metadata
    case Some(m) => NodeDescriptor(id, m.capacity, m.labels)
    case None => NodeDescriptor(id, 100, map[])
  }

  /** The nodes that are online, in the order the map is walked. */
  function OnlineNodes(infos: map<string, NodeInfo>, order: seq<string>): seq<NodeDescriptor>
    requires forall id :: id in order ==> id in infos
  {
    if order == [] then []
    else if infos[order[0]].online then [Describe(order[0], infos[order[0]])] + OnlineNodes(infos, order[1..])
    else OnlineNodes(infos, order[1..])
  }

  /** `d` is how an online node is described: with the capacity and labels it published, or 100 and none. */
  ghost predicate IsOnline(infos: map<string, NodeInfo>, d: NodeDescriptor) {
    && d.id in infos && infos[d.id].online
    && match infos[d.id].metadata
       case Some(m) => d.capacity == m.capacity && d.labels == m.labels
       case None => d.capacity == 100 && d.labels == map[]
  }

  lemma {:induction false} OnlineNodesFrom(infos: map<string, NodeInfo>, order: seq<string>)
    requires Distinct(order) && forall id :: id in order ==> id in infos
    ensures Membership(OnlineNodes(infos, order))
    ensures forall d :: d in OnlineNodes(infos, order) <==> d.id in order && IsOnline(infos, d)
  {
    if order != [] {
      var rest, id := order[1..], order[0];
      assert forall i :: 0 <= i < |rest| ==> rest[i] == order[i + 1] != id;
      assert order == [id] + rest;
      OnlineNodesFrom(infos, rest);
      if infos[id].online { OneNodeMore(OnlineNodes(infos, rest), Describe(id, infos[id])); }
      assert forall d: NodeDescriptor :: d.id == id ==>
        (IsOnline(infos, d) <==> infos[id].online && d == Describe(id, infos[id]));
    }
  }

  lemma OneNodeMore(nodes: seq<NodeDescriptor>, d: NodeDescriptor)
    requires Membership(nodes) && forall n :: n in nodes ==> n.id != d.id
    ensures Membership([d] + nodes)
  {
    var all := [d] + nodes;
    forall i, j | 0 <= i < j < |all| ensures all[i] != all[j] {
      assert all[j] == nodes[j - 1] && nodes[j - 1] in nodes;
    }
  }

  /** In whatever order the nodes are walked: each node that is online is listed once, as it is described, and no
      other is. */
  lemma OnlineNodesMeaning(infos: map<string, NodeInfo>, order: seq<string>)
    requires Enumerates(order, infos.Keys) && forall id :: id in order ==> id in infos
    ensures Membership(OnlineNodes(infos, order))
    ensures forall d :: d in OnlineNodes(infos, order) <==> IsOnline(infos, d)
    ensures forall id :: (id in infos && infos[id].online) <==> exists d :: d in OnlineNodes(infos, order) && d.id == id
  {
    OnlineNodesFrom(infos, order);
    forall id ensures id in order <==> id in infos { assert id in order <==> id in (set k | k in order); }
    forall id | id in infos && infos[id].online ensures exists d :: d in OnlineNodes(infos, order) && d.id == id {
      assert IsOnline(infos, Describe(id, infos[id]));
    }
  }

  function DrainTag(node: string): string { "drain " + node }

  function DrainTarget(score: Score, rf: nat, alternatives: seq<NodeDescriptor>, partition: nat): string
    requires alternatives != []
  {
    var chain := AssignReplicasRackAware(score, partition, rf, alternatives);
    if chain != [] then chain[0] else alternatives[0].id
  }

  /** The slots reported on the node, in the order the map is walked. */
  function Owned(node: string, assignments: map<Slot, string>, order: seq<Slot>): seq<Slot> {
    Filter((s: Slot) => s in assignments && assignments[s] == node, order)
  }

  /** One entry for each slot the node is reported to hold, none if there is nowhere to move them. */
  function ComputeDrainOverrides(node: string, assignments: map<Slot, string>, order: seq<Slot>,
                                 nodes: seq<NodeDescriptor>, rf: nat, score: Score): seq<OverrideEntry>
    requires forall s :: s in order ==> s in assignments
  {
    var owned := Owned(node, assignments, order);
    var alternatives := Without(nodes, node);
    if owned == [] || alternatives == [] then [] else
    seq(|owned|, i requires 0 <= i < |owned| =>
      OverrideEntry(owned[i], DrainTarget(score, rf, alternatives, owned[i].partition), DrainTag(node)))
  }

  lemma OwnedShape(node: string, assignments: map<Slot, string>, order: seq<Slot>)
    requires forall s :: s in order ==> s in assignments
    requires Distinct(order)
    ensures Distinct(Owned(node, assignments, order))
    ensures forall s :: s in Owned(node, assignments, order) <==> s in order && assignments[s] == node
  {
    FilterDistinct((s: Slot) => s in assignments && assignments[s] == node, order);
    FilterMembers((s: Slot) => s in assignments && assignments[s] == node, order);
  }

  lemma TargetIsAlternative(score: Score, rf: nat, nodes: seq<NodeDescriptor>, node: string, partition: nat)
    requires Without(nodes, node) != []
    ensures var target := DrainTarget(score, rf, Without(nodes, node), partition);
      target != node && exists n :: n in nodes && n.id == target
  {
    var alternatives := Without(nodes, node);
    FilterMembers((n: NodeDescriptor) => n.id != node, nodes);
    if rf > 0 {
      PrimaryIsBest(score, partition, rf, alternatives);
      assert Ranked(score, partition, alternatives)[0] in alternatives;
    } else {
      RankedEmptyChain(score, partition, alternatives);
      assert alternatives[0] in alternatives;
    }
  }

  lemma RankedEmptyChain(score: Score, partition: nat, nodes: seq<NodeDescriptor>)
    ensures AssignReplicasRackAware(score, partition, 0, nodes) == []
  {}

  /** If there is another node, exactly the slots reported on the drained node get an entry, one each, and
      each entry names one of the other nodes. */
  lemma DrainOverridesShape(node: string, assignments: map<Slot, string>, order: seq<Slot>,
                            nodes: seq<NodeDescriptor>, rf: nat, score: Score)
    requires Enumerates(order, assignments.Keys) && forall s :: s in order ==> s in assignments
    ensures var out := ComputeDrainOverrides(node, assignments, order, nodes, rf, score);
      && DistinctSlots(out)
      && (forall e :: e in out ==>
        e.nodeId != node && e.reason == DrainTag(node) && exists n :: n in nodes && n.id == e.nodeId)
      && (Without(nodes, node) != [] ==> forall s :: Mentions(out, s) <==> s in assignments && assignments[s] == node)
      && (Without(nodes, node) == [] ==> out == [])
  {
    OwnedShape(node, assignments, order);
    var owned := Owned(node, assignments, order);
    var out := ComputeDrainOverrides(node, assignments, order, nodes, rf, score);
    forall e | e in out
      ensures e.nodeId != node && e.reason == DrainTag(node) && exists n :: n in nodes && n.id == e.nodeId
    {
      TargetIsAlternative(score, rf, nodes, node, e.slot.partition);
    }
    if Without(nodes, node) != [] {
      forall s ensures Mentions(out, s) <==> s in assignments && assignments[s] == node {
        assert s in assignments <==> s in (set k | k in order);
        if s in owned {
          var i :| 0 <= i < |owned| && owned[i] == s;
          assert out[i] in out && out[i].slot == s;
        }
      }
    }
  }

  /** Draining is effective whatever table was there before and whatever nodes the agents see: with the
      merged table the drained node's assignment has none of the moved slots, and the named node's has all
      of them that belong to the topic. */
  lemma DrainIsEffective(node: string, assignments: map<Slot, string>, order: seq<Slot>,
                         nodes: seq<NodeDescriptor>, rf: nat, score: Score, prior: seq<OverrideEntry>, s: Slot,
                         agentScore: Score, agentNodes: seq<NodeDescriptor>, numPartitions: nat, agentRf: nat)
    requires Enumerates(order, assignments.Keys) && forall k :: k in order ==> k in assignments
    requires Without(nodes, node) != [] && s in assignments && assignments[s] == node
    ensures var table := Merge(prior, ComputeDrainOverrides(node, assignments, order, nodes, rf, score));
      var target := DrainTarget(score, rf, Without(nodes, node), s.partition);
      && target != node
      && (forall d :: IsAssignment(d, node, numPartitions, agentRf, agentScore, agentNodes, table) ==> s !in d)
      && (forall d :: IsAssignment(d, target, numPartitions, agentRf, agentScore, agentNodes, table) ==>
            (s in d <==> s.partition < numPartitions && s.replica < agentRf))
  {
    var out := ComputeDrainOverrides(node, assignments, order, nodes, rf, score);
    DrainOverridesShape(node, assignments, order, nodes, rf, score);
    OwnedShape(node, assignments, order);
    TargetIsAlternative(score, rf, nodes, node, s.partition);
    assert Mentions(out, s);
    var e :| e in out && e.slot == s;
    OfDistinct(out, e);
    MergeDecides(prior, out, s);
    assert Owner(agentScore, agentRf, agentNodes, Merge(prior, out), s)
        == Some(DrainTarget(score, rf, Without(nodes, node), s.partition));
  }

  function Undrained(entries: seq<OverrideEntry>, node: string): seq<OverrideEntry> {
    Filter((e: OverrideEntry) => e.reason != DrainTag(node), entries)
  }

  /** Undoing a drain leaves the earlier entries, in order, that the drain did not replace and that do not
      carry its tag; those are all the earlier entries if and only if none was replaced or tagged. */
  lemma UndrainAfterDrain(node: string, assignments: map<Slot, string>, order: seq<Slot>,
                          nodes: seq<NodeDescriptor>, rf: nat, score: Score, prior: seq<OverrideEntry>)
    requires Enumerates(order, assignments.Keys) && forall s :: s in order ==> s in assignments
    ensures var out := ComputeDrainOverrides(node, assignments, order, nodes, rf, score);
      && Undrained(Merge(prior, out), node)
         == Filter((e: OverrideEntry) => !Mentions(out, e.slot) && e.reason != DrainTag(node), prior)
      && (Undrained(Merge(prior, out), node) == prior
          <==> forall e :: e in prior ==> !Mentions(out, e.slot) && e.reason != DrainTag(node))
  {
    var out := ComputeDrainOverrides(node, assignments, order, nodes, rf, score);
    DrainOverridesShape(node, assignments, order, nodes, rf, score);
    MergeMeaning(prior, out);
    LastsOfDistinct(out);
    var untagged := (e: OverrideEntry) => e.reason != DrainTag(node);
    var unmoved := (e: OverrideEntry) => !Mentions(out, e.slot);
    var kept := (e: OverrideEntry) => !Mentions(out, e.slot) && e.reason != DrainTag(node);
    FilterConcat(untagged, Untouched(prior, out), out);
    FilterMembers(untagged, out);
    FilterTwice(untagged, unmoved, kept, prior);
    assert Filter(untagged, out) == [] by {
      FilterNone(untagged, out);
    }
    FilterMembers(kept, prior);
    if forall e :: e in prior ==> kept(e) {
      FilterKeepsAll(kept, prior);
    }
  }

  // ---------------------------------------------------------------- what draining does to replicas

  lemma FirstOther(ranked: seq<NodeDescriptor>, k: nat)
    requires Membership(ranked) && k < |ranked| && |ranked| >= 2
    ensures Without(ranked, ranked[k].id) != []
    ensures Without(ranked, ranked[k].id)[0] == ranked[if k == 0 then 1 else 0]
  {
    var first, second, rest := ranked[0], ranked[1], ranked[2..];
    assert ranked[1..][0] == second && ranked[1..][1..] == rest;
    assert first in ranked && second in ranked && ranked[k] in ranked;
    if k == 0 {
      assert Without(ranked, first.id) == Without(ranked[1..], first.id);
    } else {
      assert first.id != ranked[k].id;
    }
  }

  /** Without overrides or racks, the replica of a partition that the node held moves to a node that already
      holds another replica of that partition, exactly when the partition is to have a second replica. */
  lemma DrainSharesANode(node: string, nodes: seq<NodeDescriptor>, rf: nat, score: Score, s: Slot)
    requires Membership(nodes) && !HasRackLabels(nodes)
    requires s.replica < rf && Owner(score, rf, nodes, [], s) == Some(node)
    requires Without(nodes, node) != []
    ensures (exists r: nat :: r < rf && r != s.replica &&
               Owner(score, rf, nodes, [], Slot(s.partition, r)) ==
                 Some(DrainTarget(score, rf, Without(nodes, node), s.partition)))
      <==> rf >= 2
  {
    var p, k, alternatives := s.partition, s.replica, Without(nodes, node);
    var ranked := Ranked(score, p, nodes);
    RankedMembership(score, p, nodes);
    RankedWithout(score, p, nodes, node);
    PrimaryIsBest(score, p, rf, alternatives);
    assert ranked[k].id == node;
    assert |ranked| >= 2 by {
      FilterMembers((n: NodeDescriptor) => n.id != node, nodes);
      assert alternatives[0] in ranked && alternatives[0] != ranked[k];
    }
    FirstOther(ranked, k);
    if rf >= 2 {
      var r := if k == 0 then 1 else 0;
      assert Owner(score, rf, nodes, [], Slot(p, r)) == Some(DrainTarget(score, rf, alternatives, p));
    }
  }

  /** With racks it still happens to every replica but the primary. */
  lemma DrainSharesThePrimary(node: string, nodes: seq<NodeDescriptor>, rf: nat, score: Score, s: Slot)
    requires Membership(nodes)
    requires 0 < s.replica < rf && Owner(score, rf, nodes, [], s) == Some(node)
    ensures Without(nodes, node) != []
    ensures Owner(score, rf, nodes, [], Slot(s.partition, 0)) ==
      Some(DrainTarget(score, rf, Without(nodes, node), s.partition))
  {
    var p := s.partition;
    var ranked := Ranked(score, p, nodes);
    AheadIsTotal(score, p);
    RankedMembership(score, p, nodes);
    ChainShape(score, p, rf, nodes);
    PrimaryIsBest(score, p, rf, nodes);
    var chain := Chain(score, p, rf, nodes);
    assert chain[0] == ranked[0].id && chain[0] != node;
    FilterMembers((n: NodeDescriptor) => n.id != node, nodes);
    assert ranked[0] in Without(nodes, node);
    RankedWithout(score, p, nodes, node);
    assert Without(ranked, node)[0] == ranked[0];
    PrimaryIsBest(score, p, rf, Without(nodes, node));
  }

  /** With racks, the runner-up of a partition is in its chain exactly when it is in a new rack and there is
      room for two, or when there are fewer racks than replicas. */
  lemma RunnerUpInChain(score: Score, p: nat, rf: nat, nodes: seq<NodeDescriptor>)
    requires Membership(nodes) && |Ranked(score, p, nodes)| >= 2
    ensures var ranked := Ranked(score, p, nodes);
      ranked[1].id in AssignReplicasRackAware(score, p, rf, nodes)
      <==> if Rack(ranked[0]) != Rack(ranked[1]) then rf >= 2 else |AllRacks(nodes)| < rf
  {
    var ranked := Ranked(score, p, nodes);
    var a, b := [ranked[0]], ranked[2..];
    assert ranked == a + [ranked[1]] + b;
    InChainIff(score, p, rf, nodes, a, ranked[1], b);
    SeatCount(a, ranked[1], b);
    assert AllRacks(a) == {Rack(ranked[0])};
    RankedMembership(score, p, nodes);
    assert AllRacks(ranked) == AllRacks(nodes);
  }

  /** With racks, a drained replica moves to a node that already holds one of its partition, exactly when it
      is not the primary, or the best other node is in the primary's chain. */
  lemma DrainSharesANodeWithRacks(node: string, nodes: seq<NodeDescriptor>, rf: nat, score: Score, s: Slot)
    requires Membership(nodes) && HasRackLabels(nodes)
    requires s.replica < rf && Owner(score, rf, nodes, [], s) == Some(node)
    requires Without(nodes, node) != []
    ensures |Ranked(score, s.partition, nodes)| >= 2
    ensures var ranked := Ranked(score, s.partition, nodes);
      (exists r: nat :: r < rf && r != s.replica &&
         Owner(score, rf, nodes, [], Slot(s.partition, r)) ==
           Some(DrainTarget(score, rf, Without(nodes, node), s.partition)))
      <==> s.replica > 0 || (if Rack(ranked[0]) != Rack(ranked[1]) then rf >= 2 else |AllRacks(nodes)| < rf)
  {
    var p := s.partition;
    var chain := AssignReplicasRackAware(score, p, rf, nodes);
    assert chain[s.replica] == node;
    AtLeastTwo(node, nodes, rf, score, p);
    if s.replica > 0 {
      DrainSharesThePrimary(node, nodes, rf, score, s);
    } else {
      TargetIsRunnerUp(node, nodes, rf, score, p);
      RunnerUpInChain(score, p, rf, nodes);
      var target := DrainTarget(score, rf, Without(nodes, node), p);
      if target in chain {
        var r: nat :| r < |chain| && chain[r] == target;
        assert |chain| <= rf by { AssignReplicasRackAwareShape(score, p, rf, nodes); }
        assert Owner(score, rf, nodes, [], Slot(p, r)) == Some(target);
      }
    }
  }

  lemma AtLeastTwo(node: string, nodes: seq<NodeDescriptor>, rf: nat, score: Score, p: nat)
    requires Membership(nodes) && Without(nodes, node) != [] && node in AssignReplicasRackAware(score, p, rf, nodes)
    ensures |Ranked(score, p, nodes)| >= 2
  {
    AssignReplicasRackAwareShape(score, p, rf, nodes);
    var n :| n in nodes && n.id == node;
    RankedMembership(score, p, nodes);
    FilterMembers((m: NodeDescriptor) => m.id != node, nodes);
    assert Without(nodes, node)[0] in nodes && Without(nodes, node)[0] != n;
  }

  /** Draining the primary moves it to the runner-up. */
  lemma TargetIsRunnerUp(node: string, nodes: seq<NodeDescriptor>, rf: nat, score: Score, p: nat)
    requires Membership(nodes) && rf > 0 && Without(nodes, node) != [] && |Ranked(score, p, nodes)| >= 2
    requires [node] <= AssignReplicasRackAware(score, p, rf, nodes)
    ensures DrainTarget(score, rf, Without(nodes, node), p) == Ranked(score, p, nodes)[1].id != node
  {
    var ranked := Ranked(score, p, nodes);
    RankedMembership(score, p, nodes);
    PrimaryIsBest(score, p, rf, nodes);
    FirstOther(ranked, 0);
    RankedWithout(score, p, nodes, node);
    PrimaryIsBest(score, p, rf, Without(nodes, node));
    assert ranked[0] in ranked && ranked[1] in ranked;
  }

  // ---------------------------------------------------------------- the operations

  lemma {:induction false} OnlineMembers(infos: map<string, NodeInfo>, order: seq<string>)
    requires forall id :: id in order ==> id in infos
    ensures forall d :: d in OnlineNodes(infos, order) ==> d.id in order && infos[d.id].online
    ensures forall id :: id in order && infos[id].online ==> exists d :: d in OnlineNodes(infos, order) && d.id == id
  {
    if order != [] {
      OnlineMembers(infos, order[1..]);
      assert order == [order[0]] + order[1..];
      var all, rest := OnlineNodes(infos, order), OnlineNodes(infos, order[1..]);
      assert forall d :: d in rest ==> d in all;
      if infos[order[0]].online { assert Describe(order[0], infos[order[0]]) in all; }
    }
  }

  lemma OverrideEach(node: string, assignments: map<Slot, string>, order: seq<Slot>,
                     nodes: seq<NodeDescriptor>, rf: nat, score: Score)
    requires forall s :: s in order ==> s in assignments
    ensures
      var out := ComputeDrainOverrides(node, assignments, order, nodes, rf, score);
      && (forall e :: e in out ==> e.slot in order && assignments[e.slot] == node && e.reason == "drain " + node)
      && (Without(nodes, node) != [] ==> forall s :: s in order && assignments[s] == node ==> Mentions(out, s))
      && (Distinct(order) ==> DistinctSlots(out))
  {
    var out := ComputeDrainOverrides(node, assignments, order, nodes, rf, score);
    var owned := Owned(node, assignments, order);
    FilterMembers((s: Slot) => s in assignments && assignments[s] == node, order);
    forall e | e in out ensures e.slot in owned && e.reason == "drain " + node {
      var i :| 0 <= i < |out| && out[i] == e;
      assert e.slot == owned[i];
    }
    if Without(nodes, node) != [] {
      forall s | s in order && assignments[s] == node ensures Mentions(out, s) {
        var i :| 0 <= i < |owned| && owned[i] == s;
        assert out[i] in out && out[i].slot == s;
      }
    }
    if Distinct(order) { OwnedShape(node, assignments, order); }
  }

  lemma OverridesNameOthers(node: string, assignments: map<Slot, string>, order: seq<Slot>,
                            nodes: seq<NodeDescriptor>, rf: nat, score: Score)
    requires forall s :: s in order ==> s in assignments
    ensures forall e :: e in ComputeDrainOverrides(node, assignments, order, nodes, rf, score) ==>
      e.nodeId != node && exists n :: n in nodes && n.id == e.nodeId
  {
    var out := ComputeDrainOverrides(node, assignments, order, nodes, rf, score);
    forall e | e in out ensures e.nodeId != node && exists n :: n in nodes && n.id == e.nodeId {
      TargetIsAlternative(score, rf, nodes, node, e.slot.partition);
    }
  }

  /** There is somewhere to move the slots exactly if another node is online. */
  lemma OthersOnline(infos: map<string, NodeInfo>, nodeOrder: seq<string>, node: string)
    requires forall id :: id in nodeOrder ==> id in infos
    ensures Without(OnlineNodes(infos, nodeOrder), node) != [] <==>
      exists id :: id in nodeOrder && infos[id].online && id != node
  {
    var nodes := OnlineNodes(infos, nodeOrder);
    OnlineMembers(infos, nodeOrder);
    FilterMembers((n: NodeDescriptor) => n.id != node, nodes);
    if Without(nodes, node) != [] { assert Without(nodes, node)[0] in Without(nodes, node); }
    if id :| id in nodeOrder && infos[id].online && id != node {
      var d :| d in nodes && d.id == id;
      assert d in Without(nodes, node);
    }
  }

  /** Draining publishes the merged table, or nothing when there is nothing to move. */
  method DrainNode(node: string, assignments: map<Slot, string>, order: seq<Slot>,
                   infos: map<string, NodeInfo>, nodeOrder: seq<string>,
                   manager: OverrideManager, rf: nat, score: Score, putOk: bool)
    returns (overrides: seq<OverrideEntry>, ok: bool)
    requires forall s :: s in order ==> s in assignments
    requires forall id :: id in nodeOrder ==> id in infos
    modifies manager
    ensures overrides == ComputeDrainOverrides(node, assignments, order, OnlineNodes(infos, nodeOrder), rf, score)
    ensures forall e :: e in overrides ==>
      && e.nodeId in infos && infos[e.nodeId].online && e.nodeId != node && e.reason == "drain " + node
      && e.slot in order && assignments[e.slot] == node
    ensures (exists id :: id in nodeOrder && infos[id].online && id != node) ==>
      forall s :: s in order && assignments[s] == node ==> Mentions(overrides, s)
    ensures (forall id :: id in nodeOrder && infos[id].online ==> id == node) ==> overrides == []
    ensures Distinct(order) ==> DistinctSlots(overrides)
    ensures ok == (overrides == [] || putOk)
    ensures manager.current == if overrides != [] && putOk
      then OverrideTable(Merge(old(manager.current).entries, overrides), old(manager.current).epoch + 1, None)
      else old(manager.current)
  {
    overrides := ComputeDrainOverrides(node, assignments, order, OnlineNodes(infos, nodeOrder), rf, score);
    OverrideEach(node, assignments, order, OnlineNodes(infos, nodeOrder), rf, score);
    OverridesNameOthers(node, assignments, order, OnlineNodes(infos, nodeOrder), rf, score);
    OthersOnline(infos, nodeOrder, node);
    OnlineMembers(infos, nodeOrder);
    ok := true;
    if overrides != [] {
      var published := manager.AddEntries(overrides, None, putOk);
      ok := putOk;
    }
  }

  /** Undraining publishes the table without the entries tagged by the drain. */
  method UndrainNode(node: string, manager: OverrideManager, putOk: bool) returns (ok: bool)
    modifies manager
    ensures ok == putOk
    ensures manager.current == if putOk
      then OverrideTable(Undrained(old(manager.current).entries, node), old(manager.current).epoch + 1, None)
      else old(manager.current)
  {
    var current := manager.current;
    var remaining := Filter((e: OverrideEntry) => e.reason != DrainTag(node), current.entries);
    var published := manager.PublishEntries(remaining, None, putOk);
    ok := putOk;
  }
}
