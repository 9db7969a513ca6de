/** The whole placement protocol: override delivery, assignment and reconciliation together. */
module Cluster {
  import opened StoreMachine
  import opened HashRing
  import opened Overrides
  import opened Placement
  import opened NoStuckStore
  import opened Convergence
  import Epochs = EpochProtocol

  /** A node that reconciles its desired slots to quiescence twice, from any state it can reach. */
  datatype TwoRounds = TwoRounds(start: Node, order1: seq<Slot>, steps1: seq<Step>, order2: seq<Slot>,
                                 steps2: seq<Step>)

  ghost predicate Reachable(n: Node) {
    exists hasRecovery, steps :: ValidRun(Init(hasRecovery), steps) && Exec(Init(hasRecovery), steps) == n
  }

  ghost predicate Completes(t: TwoRounds, desired: seq<Slot>) {
    && Reachable(t.start)
    && Round(t.start, desired, t.order1, t.steps1)
    && Round(RoundEnd(t.start, desired, t.order1, t.steps1), desired, t.order2, t.steps2)
  }

  ghost function End(t: TwoRounds, desired: seq<Slot>): Core
    requires Completes(t, desired)
  {
    RoundEnd(RoundEnd(t.start, desired, t.order1, t.steps1), desired, t.order2, t.steps2).core
  }

  lemma ReachableInv(n: Node)
    requires Reachable(n)
    ensures Inv(n)
  {
    var hasRecovery, steps :| ValidRun(Init(hasRecovery), steps) && Exec(Init(hasRecovery), steps) == n;
    InvRun(Init(hasRecovery), steps);
  }

  lemma CompletesSettles(t: TwoRounds, desired: seq<Slot>)
    requires Completes(t, desired)
    ensures Settled(End(t, desired), desired)
  {
    ReachableInv(t.start);
    TwoRoundsSettle(t.start, desired, t.order1, t.steps1, t.order2, t.steps2);
  }

  /** The topic as everyone knows it. */
  datatype Topic = Topic(numPartitions: nat, rf: nat, score: Score, nodes: seq<NodeDescriptor>)

  /** An agent with the order in which it lists the nodes, what it computed from that and what it did. */
  datatype Agent = Agent(view: seq<NodeDescriptor>, desired: seq<Slot>, rounds: TwoRounds)

  ghost predicate Follows(topic: Topic, entries: seq<OverrideEntry>, id: string, agent: Agent) {
    && multiset(agent.view) == multiset(topic.nodes)
    && IsAssignment(agent.desired, id, topic.numPartitions, topic.rf, topic.score, agent.view, entries)
    && Completes(agent.rounds, agent.desired)
  }

  ghost predicate UpToDate(topic: Topic, net: Epochs.Net, epoch: nat, id: string, agent: Agent) {
    id in net.agents && net.agents[id].epoch == epoch && Follows(topic, net.agents[id].entries, id, agent)
  }

  ghost function Stores(agent: Agent): map<Slot, Store>
    requires Completes(agent.rounds, agent.desired)
  {
    End(agent.rounds, agent.desired).stores
  }

  ghost predicate OwnsOf(topic: Topic, entries: seq<OverrideEntry>, id: string, s: Slot) {
    Owns(id, topic.numPartitions, topic.rf, topic.score, topic.nodes, entries, s)
  }

  /** Every node is listed once, and no tie between nodes decides where a slot without override goes. */
  ghost predicate WellPlaced(topic: Topic, entries: seq<OverrideEntry>) {
    Membership(topic.nodes) && AllDecided(topic.score, topic.numPartitions, topic.rf, topic.nodes, entries)
  }

  lemma AgentSettles(topic: Topic, entries: seq<OverrideEntry>, id: string, agent: Agent, s: Slot)
    requires WellPlaced(topic, entries) && Follows(topic, entries, id, agent)
    ensures s in Stores(agent) <==> OwnsOf(topic, entries, id, s)
    ensures s in Stores(agent) ==> Stores(agent)[s].state == Active
  {
    assert s in Stores(agent) <==> s in agent.desired by {
      CompletesSettles(agent.rounds, agent.desired);
      assert s in agent.desired <==> s in (set x | x in agent.desired);
    }
    assert s in Stores(agent) ==> Stores(agent)[s].state == Active by { CompletesSettles(agent.rounds, agent.desired); }
    DesiredIsOwned(topic, entries, id, agent, s);
  }

  lemma DesiredIsOwned(topic: Topic, entries: seq<OverrideEntry>, id: string, agent: Agent, s: Slot)
    requires WellPlaced(topic, entries) && Follows(topic, entries, id, agent)
    ensures s in agent.desired <==> OwnsOf(topic, entries, id, s)
  {
    if s.partition < topic.numPartitions && s.replica < topic.rf {
      OwnersAgree(topic.score, topic.rf, topic.nodes, agent.view, entries, s);
    }
  }

  /** Agents that saw the same membership, in any order, and have caught up to the same epoch, however the
      tables reached them, each reconcile twice: every slot of the topic then has a store on exactly the
      node that owns it, active, and nowhere else. */
  lemma ClusterConverges(topic: Topic, netSteps: seq<Epochs.Step>, epoch: nat, agents: map<string, Agent>, s: Slot)
    requires Epochs.ValidRun(Epochs.Init(), netSteps) && Epochs.AllowedRun(netSteps, false, false)
    requires agents.Keys <= Epochs.Exec(Epochs.Init(), netSteps).agents.Keys
    requires forall a :: a in agents ==>
      Completes(agents[a].rounds, agents[a].desired) &&
        UpToDate(topic, Epochs.Exec(Epochs.Init(), netSteps), epoch, a, agents[a])
    requires forall a :: a in agents ==> WellPlaced(topic, Epochs.Exec(Epochs.Init(), netSteps).agents[a].entries)
    ensures forall a, b :: a in agents && b in agents && s in Stores(agents[a]) && s in Stores(agents[b]) ==> a == b
    ensures forall a :: a in agents && s in Stores(agents[a]) ==> Stores(agents[a])[s].state == Active
    ensures forall a, b :: a in agents && b in agents ==>
      (s in Stores(agents[a]) <==> OwnsOf(topic, Epochs.Exec(Epochs.Init(), netSteps).agents[b].entries, a, s))
  {
    Epochs.EpochSafety(netSteps);
    var tables := Epochs.Exec(Epochs.Init(), netSteps).agents;
    forall a, b | a in agents && b in agents
      ensures s in Stores(agents[a]) <==> OwnsOf(topic, tables[b].entries, a, s)
      ensures s in Stores(agents[a]) ==> Stores(agents[a])[s].state == Active
    {
      assert tables[a] == tables[b];
      AgentSettles(topic, tables[a].entries, a, agents[a], s);
    }
  }
}
