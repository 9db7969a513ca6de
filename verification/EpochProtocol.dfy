/** How override tables travel from the orchestrator to the agents.

The network may lose, repeat and reorder tables: it is the set of tables ever handed to it, any of which
may reach any agent at any time. An agent keeps a table only if its epoch is greater than what it has.
*/
module EpochProtocol {
  import opened Wrappers
  import opened StoreMachine
  import opened HashRing
  import opened Overrides
  import opened Placement

  datatype Net = Net(manager: OverrideTable, sent: set<OverrideTable>, agents: map<string, OverrideTable>)

  datatype Step =
    | Publish(entries: seq<OverrideEntry>, expiresAt: Option<nat>)
    // The put reports an error; `leaked` says whether the table got out all the same.
    | PublishFails(entries: seq<OverrideEntry>, expiresAt: Option<nat>, leaked: bool)
    | Restart
    | Join(agent: string)
    | Deliver(agent: string, table: OverrideTable)

  function Init(): Net { Net(DefaultTable(), {}, map[]) }

  predicate Enabled(n: Net, step: Step) {
    match step
    case Join(a) => a !in n.agents
    case Deliver(a, t) => a in n.agents && t in n.sent
    case _ => true
  }

  function Accept(mine: OverrideTable, t: OverrideTable): OverrideTable {
    if t.epoch > mine.epoch then t else mine
  }

  function Next(n: Net, step: Step): Net
    requires Enabled(n, step)
  {
    match step
    case Publish(entries, expiresAt) =>
      var table := OverrideTable(entries, n.manager.epoch + 1, expiresAt);
      n.(manager := table, sent := n.sent + {table})
    case PublishFails(entries, expiresAt, leaked) =>
      if leaked then n.(sent := n.sent + {OverrideTable(entries, n.manager.epoch + 1, expiresAt)}) else n
    case Restart => n.(manager := DefaultTable())
    case Join(a) => n.(agents := n.agents[a := DefaultTable()])
    case Deliver(a, t) => n.(agents := n.agents[a := Accept(n.agents[a], t)])
  }

  predicate ValidRun(n: Net, steps: seq<Step>)
    decreases |steps|
  {
    steps == [] || (Enabled(n, steps[0]) && ValidRun(Next(n, steps[0]), steps[1..]))
  }

  function Exec(n: Net, steps: seq<Step>): Net
    requires ValidRun(n, steps)
    decreases |steps|
  {
    if steps == [] then n else Exec(Next(n, steps[0]), steps[1..])
  }

  /** Runs in which failed puts may leak, or the manager may restart. */
  predicate Allowed(step: Step, leaks: bool, restarts: bool) {
    match step
    case PublishFails(_, _, leaked) => leaked ==> leaks
    case Restart => restarts
    case _ => true
  }

  predicate AllowedRun(steps: seq<Step>, leaks: bool, restarts: bool) {
    forall i :: 0 <= i < |steps| ==> Allowed(steps[i], leaks, restarts)
  }

  /** Epochs number the published tables, the manager holds the latest, and agents hold published ones. */
  ghost predicate Inv(n: Net) {
    && (forall t :: t in n.sent ==> 1 <= t.epoch <= n.manager.epoch)
    && (forall t, u :: t in n.sent && u in n.sent && t.epoch == u.epoch ==> t == u)
    && (n.manager == DefaultTable() || n.manager in n.sent)
    && (forall a :: a in n.agents ==> n.agents[a] == DefaultTable() || n.agents[a] in n.sent)
  }

  lemma InvNext(n: Net, step: Step)
    requires Inv(n) && Enabled(n, step) && Allowed(step, false, false)
    ensures Inv(Next(n, step))
  {}

  lemma {:induction false} InvRun(n: Net, steps: seq<Step>)
    requires Inv(n) && ValidRun(n, steps) && AllowedRun(steps, false, false)
    ensures Inv(Exec(n, steps))
    decreases |steps|
  {
    if steps != [] {
      InvNext(n, steps[0]);
      InvRun(Next(n, steps[0]), steps[1..]);
    }
  }

  /** An agent's epoch never goes back, even when puts leak or the manager restarts, and what was sent
      stays sent. */
  lemma {:induction false} EpochsNeverDecrease(n: Net, steps: seq<Step>)
    requires ValidRun(n, steps)
    ensures n.sent <= Exec(n, steps).sent
    ensures forall a :: a in n.agents ==>
      a in Exec(n, steps).agents && n.agents[a].epoch <= Exec(n, steps).agents[a].epoch
    decreases |steps|
  {
    if steps != [] { EpochsNeverDecrease(Next(n, steps[0]), steps[1..]); }
  }

  // ---------------------------------------------------------------- what an agent holds

  /** A delivery replaces the agent's table if its epoch is greater, and changes nothing else. */
  lemma DeliverIs(n: Net, a: string, t: OverrideTable)
    requires Enabled(n, Deliver(a, t))
    ensures
      var n' := Next(n, Deliver(a, t));
      && n'.manager == n.manager && n'.sent == n.sent && n'.agents.Keys == n.agents.Keys
      && n'.agents[a] == (if t.epoch > n.agents[a].epoch then t else n.agents[a])
      && forall b :: b in n.agents && b != a ==> n'.agents[b] == n.agents[b]
  {
  }

  /** The tables delivered to `a`, in order. An agent joins once, so they all came after it joined. */
  ghost function Received(steps: seq<Step>, a: string): seq<OverrideTable> {
    if steps == [] then []
    else (if steps[0].Deliver? && steps[0].agent == a then [steps[0].table] else []) + Received(steps[1..], a)
  }

  /** `t` is the first of the tables with the greatest epoch, and that is above `floor`. */
  ghost predicate FirstOfNewest(tables: seq<OverrideTable>, t: OverrideTable, floor: nat) {
    && t.epoch > floor && t in tables && (forall u :: u in tables ==> u.epoch <= t.epoch)
    && exists i :: 0 <= i < |tables| && tables[i] == t && forall j :: 0 <= j < i ==> tables[j].epoch < t.epoch
  }

  ghost predicate NoneAbove(tables: seq<OverrideTable>, floor: nat) {
    forall u :: u in tables ==> u.epoch <= floor
  }

  /** One more table in front of those that decide what is held. */
  lemma NewestCons(mine: OverrideTable, t: OverrideTable, rest: seq<OverrideTable>, held: OverrideTable)
    requires
      var next := if t.epoch > mine.epoch then t else mine;
      (held == next && NoneAbove(rest, next.epoch)) || FirstOfNewest(rest, held, next.epoch)
    ensures (held == mine && NoneAbove([t] + rest, mine.epoch)) || FirstOfNewest([t] + rest, held, mine.epoch)
  {
    var all := [t] + rest;
    if FirstOfNewest(rest, held, if t.epoch > mine.epoch then t.epoch else mine.epoch) {
      var i :| 0 <= i < |rest| && rest[i] == held && forall j :: 0 <= j < i ==> rest[j].epoch < held.epoch;
      assert all[i + 1] == held && forall j :: 0 <= j < i + 1 ==> all[j].epoch < held.epoch;
    } else if t.epoch > mine.epoch {
      assert all[0] == held;
    }
  }

  /** Whatever else happens, an agent that is there holds what it had, or the first delivered table of the greatest
      epoch if that is greater than its own. */
  lemma {:induction false} HoldsNewestFrom(n: Net, steps: seq<Step>, a: string)
    requires ValidRun(n, steps) && a in n.agents
    ensures a in Exec(n, steps).agents
    ensures
      var mine, held, tables := n.agents[a], Exec(n, steps).agents[a], Received(steps, a);
      (held == mine && NoneAbove(tables, mine.epoch)) || FirstOfNewest(tables, held, mine.epoch)
    decreases |steps|
  {
    if steps != [] {
      var next, rest := Next(n, steps[0]), Received(steps[1..], a);
      HoldsNewestFrom(next, steps[1..], a);
      if steps[0].Deliver? && steps[0].agent == a {
        DeliverIs(n, a, steps[0].table);
        NewestCons(n.agents[a], steps[0].table, rest, Exec(n, steps).agents[a]);
      } else {
        assert [] + rest == rest;
      }
    }
  }

  lemma {:induction false} HoldsNewestSinceJoin(n: Net, steps: seq<Step>, a: string)
    requires ValidRun(n, steps) && a !in n.agents && a in Exec(n, steps).agents
    ensures
      var held, tables := Exec(n, steps).agents[a], Received(steps, a);
      (held == DefaultTable() && NoneAbove(tables, 0)) || FirstOfNewest(tables, held, 0)
    decreases |steps|
  {
    var next := Next(n, steps[0]);
    assert [] + Received(steps[1..], a) == Received(steps[1..], a);
    if steps[0] == Join(a) {
      HoldsNewestFrom(next, steps[1..], a);
    } else {
      HoldsNewestSinceJoin(next, steps[1..], a);
    }
  }

  lemma {:induction false} SentAreNumbered(n: Net, steps: seq<Step>, a: string)
    requires ValidRun(n, steps) && forall t :: t in n.sent ==> t.epoch >= 1
    ensures forall t :: t in Exec(n, steps).sent ==> t.epoch >= 1
    ensures forall t :: t in Received(steps, a) ==> t.epoch >= 1 && t in Exec(n, steps).sent
    decreases |steps|
  {
    if steps != [] {
      SentAreNumbered(Next(n, steps[0]), steps[1..], a);
      EpochsNeverDecrease(Next(n, steps[0]), steps[1..]);
    }
  }

  /** In every run, leaks and restarts included, an agent holds the default if nothing was delivered to it, and
      otherwise the first one delivered of those with the greatest epoch. */
  lemma HoldsFirstOfNewest(steps: seq<Step>, a: string)
    requires ValidRun(Init(), steps) && a in Exec(Init(), steps).agents
    ensures
      var held, tables := Exec(Init(), steps).agents[a], Received(steps, a);
      if tables == [] then held == DefaultTable() else FirstOfNewest(tables, held, 0)
  {
    HoldsNewestSinceJoin(Init(), steps, a);
    SentAreNumbered(Init(), steps, a);
    if Received(steps, a) != [] { assert Received(steps, a)[0] in Received(steps, a); }
  }

  /** Within one manager lifetime with no leaking failure: an agent is at the manager's table exactly if it was
      delivered that very table, or there is none yet. However many tables were lost before, delivering it is enough. */
  lemma CaughtUpIff(steps: seq<Step>, a: string)
    requires ValidRun(Init(), steps) && AllowedRun(steps, false, false) && a in Exec(Init(), steps).agents
    ensures
      var n := Exec(Init(), steps);
      n.agents[a] == n.manager <==> n.manager == DefaultTable() || n.manager in Received(steps, a)
    ensures
      var n := Exec(Init(), steps);
      n.manager != DefaultTable() ==>
        Enabled(n, Deliver(a, n.manager)) && Next(n, Deliver(a, n.manager)).agents[a] == n.manager
  {
    var n := Exec(Init(), steps);
    InvRun(Init(), steps);
    HoldsFirstOfNewest(steps, a);
    SentAreNumbered(Init(), steps, a);
    if n.manager != DefaultTable() { DeliverIs(n, a, n.manager); }
  }

  // ---------------------------------------------------------------- agreement

  /** Agents at the same epoch hold the same entries. */
  ghost predicate Agreement(n: Net) {
    forall a, b :: a in n.agents && b in n.agents && n.agents[a].epoch == n.agents[b].epoch ==>
      n.agents[a].entries == n.agents[b].entries
  }

  /** No two agents at the same epoch, looking at the same nodes, claim the same slot of the topic. */
  ghost predicate ClaimedOnce(n: Net, numPartitions: nat, rf: nat, score: Score, nodes: seq<NodeDescriptor>) {
    forall a, b, s ::
      (&& a in n.agents && b in n.agents && n.agents[a].epoch == n.agents[b].epoch
       && Owns(a, numPartitions, rf, score, nodes, n.agents[a].entries, s)
       && Owns(b, numPartitions, rf, score, nodes, n.agents[b].entries, s))
      ==> a == b
  }

  /** Within one manager lifetime with no leaking failure: agents at the same epoch hold the same table, the
      manager's own if they are at its epoch; none is ahead of the manager; and every table is the default or
      one that was published. */
  lemma EpochSafety(steps: seq<Step>)
    requires ValidRun(Init(), steps) && AllowedRun(steps, false, false)
    ensures Agreement(Exec(Init(), steps))
    ensures var n := Exec(Init(), steps);
      && (forall a, b :: a in n.agents && b in n.agents && n.agents[a].epoch == n.agents[b].epoch ==>
        n.agents[a] == n.agents[b])
      && (forall a :: a in n.agents && n.agents[a].epoch == n.manager.epoch ==> n.agents[a] == n.manager)
      && (forall a :: a in n.agents ==>
            n.agents[a].epoch <= n.manager.epoch && (n.agents[a] == DefaultTable() || n.agents[a] in n.sent))
  {
    InvRun(Init(), steps);
  }

  lemma Prepend(n: Net, step: Step, rest: seq<Step>) returns (steps: seq<Step>)
    requires Enabled(n, step) && ValidRun(Next(n, step), rest)
    ensures steps == [step] + rest && ValidRun(n, steps) && Exec(n, steps) == Exec(Next(n, step), rest)
  {
    steps := [step] + rest;
    assert steps[1..] == rest;
  }

  // ---------------------------------------------------------------- how agreement is lost

  /** A table that gives the first slot of a topic to `id`. */
  function FirstSlotTo(id: string): OverrideTable {
    OverrideTable([OverrideEntry(Slot(0, 0), id, "")], 1, None)
  }

  /** Two agents at one epoch, each told that the first slot is its own. */
  ghost predicate Torn(n: Net) {
    && "a" in n.agents && "b" in n.agents
    && n.agents["a"] == FirstSlotTo("a") && n.agents["b"] == FirstSlotTo("b")
  }

  lemma TornBreaksAgreement(n: Net, numPartitions: nat, rf: nat, score: Score, nodes: seq<NodeDescriptor>)
    requires Torn(n)
    ensures !Agreement(n)
    ensures numPartitions > 0 && rf > 0 ==> !ClaimedOnce(n, numPartitions, rf, score, nodes)
  {
    assert n.agents["a"].entries[0] != n.agents["b"].entries[0];
    if numPartitions > 0 && rf > 0 {
      assert Owns("a", numPartitions, rf, score, nodes, n.agents["a"].entries, Slot(0, 0));
      assert Owns("b", numPartitions, rf, score, nodes, n.agents["b"].entries, Slot(0, 0));
    }
  }

  /** Once "a" has its table and the manager is back at the default, publishing "b"'s tears them apart. */
  lemma SecondTable(n: Net) returns (steps: seq<Step>)
    requires n.manager == DefaultTable() && "a" in n.agents && "b" in n.agents
    requires n.agents["a"] == FirstSlotTo("a") && n.agents["b"] == DefaultTable()
    ensures ValidRun(n, steps) && AllowedRun(steps, false, false) && Torn(Exec(n, steps))
  {
    var publish, deliver := Publish(FirstSlotTo("b").entries, None), Deliver("b", FirstSlotTo("b"));
    steps := Prepend(Next(n, publish), deliver, []);
    steps := Prepend(n, publish, steps);
  }

  /** Two agents that have joined and, after `first`, a table for "a" in the network. */
  lemma FirstTable(first: Step) returns (n: Net, before: seq<Step>)
    requires
      var t := FirstSlotTo("a");
      first == Publish(t.entries, None) || first == PublishFails(t.entries, None, true)
    ensures before == [Join("a"), Join("b"), first, Deliver("a", FirstSlotTo("a"))]
    ensures ValidRun(Init(), before) && n == Exec(Init(), before)
    ensures n.manager == if first.Publish? then FirstSlotTo("a") else DefaultTable()
    ensures "a" in n.agents && "b" in n.agents && n.agents["a"] == FirstSlotTo("a") && n.agents["b"] == DefaultTable()
  {
    var n1 := Next(Init(), Join("a"));
    var n2 := Next(n1, Join("b"));
    var n3 := Next(n2, first);
    var deliver := Deliver("a", FirstSlotTo("a"));
    n := Next(n3, deliver);
    before := Prepend(n3, deliver, []);
    before := Prepend(n2, first, before);
    before := Prepend(n1, Join("b"), before);
    before := Prepend(Init(), Join("a"), before);
  }

  lemma {:induction false} Append(n: Net, a: seq<Step>, b: seq<Step>)
    requires ValidRun(n, a) && ValidRun(Exec(n, a), b)
    ensures ValidRun(n, a + b) && Exec(n, a + b) == Exec(Exec(n, a), b)
    decreases |a|
  {
    if a == [] {
      assert a + b == b;
    } else {
      Append(Next(n, a[0]), a[1..], b);
      assert (a + b)[1..] == a[1..] + b;
    }
  }

  /** A put that fails after its table got out lets two agents at one epoch claim the same slot. */
  lemma LeakBreaksAgreement() returns (steps: seq<Step>)
    ensures ValidRun(Init(), steps) && AllowedRun(steps, true, false) && Torn(Exec(Init(), steps))
  {
    var n, before := FirstTable(PublishFails(FirstSlotTo("a").entries, None, true));
    var rest := SecondTable(n);
    Append(Init(), before, rest);
    steps := before + rest;
  }

  /** So does a manager that restarts from the default epoch. */
  lemma RestartBreaksAgreement() returns (steps: seq<Step>)
    ensures ValidRun(Init(), steps) && AllowedRun(steps, false, true) && Torn(Exec(Init(), steps))
  {
    var n, before := FirstTable(Publish(FirstSlotTo("a").entries, None));
    var rest := SecondTable(Next(n, Restart));
    rest := Prepend(n, Restart, rest);
    Append(Init(), before, rest);
    steps := before + rest;
  }

  /** Agents at equal epochs hold equal entries in every run, if and only if failed puts do not leak and the
      manager does not restart; and that is also exactly when no slot of a topic is claimed twice. */
  lemma AgreementIffNoLeakNoRestart(leaks: bool, restarts: bool, numPartitions: nat, rf: nat, score: Score,
                                    nodes: seq<NodeDescriptor>)
    ensures (forall steps :: ValidRun(Init(), steps) && AllowedRun(steps, leaks, restarts) ==>
      Agreement(Exec(Init(), steps)))
      <==> !leaks && !restarts
    ensures (forall steps :: ValidRun(Init(), steps) && AllowedRun(steps, leaks, restarts) ==>
               ClaimedOnce(Exec(Init(), steps), numPartitions, rf, score, nodes))
      <==> (!leaks && !restarts) || numPartitions == 0 || rf == 0
  {
    if leaks || restarts {
      var steps;
      if leaks { steps := LeakBreaksAgreement(); } else { steps := RestartBreaksAgreement(); }
      assert AllowedRun(steps, leaks, restarts);
      TornBreaksAgreement(Exec(Init(), steps), numPartitions, rf, score, nodes);
    } else {
      forall steps | ValidRun(Init(), steps) && AllowedRun(steps, leaks, restarts)
        ensures Agreement(Exec(Init(), steps)) && ClaimedOnce(Exec(Init(), steps), numPartitions, rf, score, nodes)
      {
        EpochSafety(steps);
      }
    }
  }

  /** The agent's side of delivery: keep the table if it is newer. */
  class OverrideWatcher {
    var overrides: OverrideTable

    constructor ()
      ensures overrides == DefaultTable()
    {
      overrides := DefaultTable();
    }

    method OnTable(table: OverrideTable)
      modifies this
      ensures overrides == Accept(old(overrides), table)
      ensures table.epoch > old(overrides).epoch ==> overrides == table
      ensures table.epoch <= old(overrides).epoch ==> overrides == old(overrides)
    {
      if table.epoch > overrides.epoch {
        overrides := table;
      }
    }
  }
}
