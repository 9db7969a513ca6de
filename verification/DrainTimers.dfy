/** What becomes of drain timers when other tasks get at their stores.

A timer removes whatever store its slot has when it fires. It is cancelled only through the token its store
carries, and nothing but a drain puts a token there; but recovery tasks change the state of a draining store, and
a store that is drained again gets a new token.
*/
module DrainTimers {
  import opened Wrappers
  import opened StoreMachine
  import opened NoStuckStore
  import opened Convergence

  // ---------------------------------------------------------------- recovery and draining

  /** A recovery that ends marks its store active even if it is draining. Its timer is still pending and live, and
      a reconcile that does not want the slot, which had nothing to do about it before, drains it again. */
  lemma RecoveryRevivesDraining(hasRecovery: bool, steps: seq<Step>, id: nat)
    requires ValidRun(Init(hasRecovery), steps) && id in Exec(Init(hasRecovery), steps).core.running
    requires
      var n := Exec(Init(hasRecovery), steps).core;
      n.running[id] in n.stores && n.stores[n.running[id]].state == Draining
    ensures
      var n := Exec(Init(hasRecovery), steps);
      var n', s := Next(n, RecoveryEnds(id)).core, n.core.running[id];
      && s in n'.stores && n'.stores[s].state == Active && n'.stores[s].drainCancel.Some?
      && (var t := n'.stores[s].drainCancel.value; t in n'.timers && n'.timers[t] == s && t !in n'.cancelled)
      && (forall desired, order :: Drain(s) !in ActionsFor(n.core.stores, desired, order))
      && (forall desired, order :: Enumerates(order, n'.stores.Keys) && s !in desired ==>
            Drain(s) in ActionsFor(n'.stores, desired, order))
  {
    InvRun(Init(hasRecovery), steps);
    var n := Exec(Init(hasRecovery), steps);
    var n', s := Next(n, RecoveryEnds(id)).core, n.core.running[id];
    assert TokenOk(n.core, s);
    forall desired, order ensures Drain(s) !in ActionsFor(n.core.stores, desired, order) {
      StartsForMember(n.core.stores, desired, Drain(s));
      DrainsForMember(n.core.stores, desired, order, Drain(s));
    }
    forall desired, order | Enumerates(order, n'.stores.Keys) && s !in desired
      ensures Drain(s) in ActionsFor(n'.stores, desired, order)
    {
      ActionsForMember(n'.stores, desired, order, Drain(s));
    }
  }

  /** A node with recovery that has one store, drained while its recovery runs. */
  function DrainedEarly(s: Slot): Node {
    Node(Core(map[s := Store(Draining, Some(1))], map[], map[0 := s], map[1 := s], {}, 2, true), [[], []])
  }

  /** A node with recovery that has one store, recovering. */
  function RecoveringOne(s: Slot): Node {
    Node(Core(map[s := Store(Recovering, None)], map[], map[0 := s], map[], {}, 1, true), [[]])
  }

  lemma RecoveringIsReached(s: Slot) returns (steps: seq<Step>)
    ensures ValidRun(Init(true), steps) && Exec(Init(true), steps) == RecoveringOne(s)
  {
    var begin, start, recover := BeginReconcile([s], []), RunOp(0, true), RecoveryBegins(0);
    StartOne(s);
    var n1 := Next(Init(true), begin);
    assert n1 == Node(InitCore(true), [[Do(Start(s))]]);
    var n2 := Next(n1, start);
    assert n1.callers[0][1..] == [] && n1.callers[0 := []] == [[]];
    assert n2.callers == [[]] && n2.core == InsertStore(InitCore(true), s);
    var n3 := Next(n2, recover);
    assert n3.core.spawned == map[] && n3.core.stores == map[s := Store(Recovering, None)];
    assert n3 == RecoveringOne(s);
    ExecPrepend(n2, recover, []);
    ExecPrepend(n1, start, [recover] + []);
    ExecPrepend(Init(true), begin, [start] + ([recover] + []));
    steps := [begin] + ([start] + ([recover] + []));
  }

  /** A reconcile that wants nothing drains the store `s`. */
  lemma DrainRound(n: Node, s: Slot) returns (steps: seq<Step>)
    requires n.core.stores.Keys == {s}
    requires n.core.stores[s].state != Draining && n.core.stores[s].state != Stopped
    ensures ValidRun(n, steps) && Exec(n, steps) == Node(DrainStore(n.core, s), n.callers + [[]])
  {
    var begin, drain := BeginReconcile([], [s]), RunOp(|n.callers|, true);
    DrainOne(n.core.stores, s);
    assert (set k | k in [s]) == {s};
    var n1 := Next(n, begin);
    assert n1.callers == n.callers + [[Do(Drain(s))]];
    var n2 := Next(n1, drain);
    assert n2.callers == n.callers + [[]];
    ExecPrepend(n1, drain, []);
    ExecPrepend(n, begin, [drain] + []);
    steps := [begin] + ([drain] + []);
  }

  /** So there are runs in which a store is drained while it recovers. */
  lemma DrainedEarlyIsReached(s: Slot) returns (steps: seq<Step>)
    ensures ValidRun(Init(true), steps) && Exec(Init(true), steps) == DrainedEarly(s)
  {
    var first := RecoveringIsReached(s);
    var second := DrainRound(RecoveringOne(s), s);
    assert RecoveringOne(s).callers + [[]] == DrainedEarly(s).callers;
    assert DrainStore(RecoveringOne(s).core, s) == DrainedEarly(s).core;
    ExecConcat(Init(true), first, second);
    steps := first + second;
  }

  // ---------------------------------------------------------------- timers that nobody can cancel

  /** A pending timer whose token no store carries. */
  ghost predicate Orphan(n: Core, t: nat) {
    && t in n.timers && t !in n.cancelled && t < n.nextId
    && forall s :: s in n.stores ==> n.stores[s].drainCancel != Some(t)
  }

  lemma OrphanStays(n: Node, step: Step, t: nat)
    requires Orphan(n.core, t) && Enabled(n, step) && step != TimerFires(t)
    ensures Orphan(Next(n, step).core, t) && Next(n, step).core.timers[t] == n.core.timers[t]
  {
  }

  /** Once a timer is an orphan, nothing stops it: in every run from there it is still pending, live and for the same
      slot, until it fires, and then it takes away whatever store the slot has. */
  lemma {:induction false} OrphanFires(n: Node, steps: seq<Step>, t: nat)
    requires Orphan(n.core, t) && ValidRun(n, steps) && TimerFires(t) !in steps
    ensures
      var n', s := Exec(n, steps), n.core.timers[t];
      && Orphan(n'.core, t) && n'.core.timers[t] == s
      && Enabled(n', TimerFires(t)) && !Enabled(n', TimerCancelled(t)) && s !in Next(n', TimerFires(t)).core.stores
    decreases |steps|
  {
    if steps != [] {
      assert steps[0] in steps && forall x :: x in steps[1..] ==> x in steps;
      OrphanStays(n, steps[0], t);
      OrphanFires(Next(n, steps[0]), steps[1..], t);
    }
  }

  /** Draining a store that already carries the token of a pending timer makes that timer an orphan. */
  lemma SecondDrainOrphans(n: Node, s: Slot, t: nat)
    requires Inv(n) && s in n.core.stores && n.core.stores[s].state != Draining
    requires n.core.stores[s].drainCancel == Some(t) && t in n.core.timers && t !in n.core.cancelled
    ensures Orphan(DrainStore(n.core, s), t) && DrainStore(n.core, s).timers[t] == s
    ensures HasLiveTimer(DrainStore(n.core, s), s) && t != DrainStore(n.core, s).stores[s].drainCancel.value
  {
  }
  /** It does happen: a store drained while it recovers, revived when its recovery ends and drained again leaves its
      first timer an orphan. */
  lemma OrphanIsReached(s: Slot) returns (steps: seq<Step>)
    ensures ValidRun(Init(true), steps)
    ensures
      var n := Exec(Init(true), steps).core;
      Orphan(n, 1) && n.timers[1] == s && s in n.stores && n.stores[s] == Store(Draining, Some(2))
  {
    var first := DrainedEarlyIsReached(s);
    var revived := Next(DrainedEarly(s), RecoveryEnds(0));
    assert revived.core.stores == map[s := Store(Active, Some(1))];
    var rest := DrainRound(revived, s);
    ExecPrepend(DrainedEarly(s), RecoveryEnds(0), rest);
    ExecConcat(Init(true), first, [RecoveryEnds(0)] + rest);
    steps := first + ([RecoveryEnds(0)] + rest);
  }
  // ---------------------------------------------------------------- timers that fire late

  /** A node without recovery, with the timer of an earlier store of `s` pending and a new store in its place. */
  function Replaced(s: Slot): Node {
    Node(Core(map[s := Store(Active, None)], map[], map[], map[0 := s], {0}, 1, false), [[], [], [], []])
  }

  /** Shutting down stops the only store. */
  lemma ShutdownRound(n: Node, s: Slot) returns (steps: seq<Step>)
    requires n.core.stores.Keys == {s}
    ensures ValidRun(n, steps) && Exec(n, steps) == Node(StopStore(n.core, s), n.callers + [[]])
  {
    var begin, stop := BeginShutdown([s]), RunOp(|n.callers|, true);
    assert (set k | k in [s]) == {s};
    var n1 := Next(n, begin);
    assert Ops(StopsFor([s])) == [Do(Stop(s))] && n1.callers == n.callers + [[Do(Stop(s))]];
    var n2 := Next(n1, stop);
    assert n2.callers == n.callers + [[]];
    ExecPrepend(n1, stop, []);
    ExecPrepend(n, begin, [stop] + []);
    steps := [begin] + ([stop] + []);
  }

  /** A reconcile that wants `s` starts it where there is nothing. */
  lemma StartRound(n: Node, s: Slot) returns (steps: seq<Step>)
    requires n.core.stores == map[] && !n.core.hasRecovery
    ensures ValidRun(n, steps)
    ensures Exec(n, steps) == Node(n.core.(stores := map[s := Store(Active, None)]), n.callers + [[]])
  {
    var begin, start := BeginReconcile([s], []), RunOp(|n.callers|, true);
    StartOne(s);
    var n1 := Next(n, begin);
    assert n1.callers == n.callers + [[Do(Start(s))]] && n1.callers[|n.callers|][1..] == [];
    var n2 := Next(n1, start);
    assert [MarkActive(s)] + [] == [MarkActive(s)] && n2.callers == n.callers + [[MarkActive(s)]];
    var n3 := Next(n2, start);
    assert n3.callers == n.callers + [[]] && n3.core.stores == map[s := Store(Active, None)];
    ExecPrepend(n2, start, []);
    ExecPrepend(n1, start, [start] + []);
    ExecPrepend(n, begin, [start] + ([start] + []));
    steps := [begin] + ([start] + ([start] + []));
  }

  /** The store of `Started(s)`, drained, */
  function DrainedOne(s: Slot): Node {
    Node(Core(map[s := Store(Draining, Some(0))], map[], map[], map[0 := s], {}, 1, false), [[], []])
  }

  /** and then stopped. */
  function StoppedOne(s: Slot): Node {
    Node(Core(map[], map[], map[], map[0 := s], {0}, 1, false), [[], [], []])
  }

  lemma DrainedIsReached(s: Slot) returns (steps: seq<Step>)
    ensures ValidRun(Init(false), steps) && Exec(Init(false), steps) == DrainedOne(s)
  {
    var first := StartedIsReached(s);
    var drain := DrainRound(Started(s), s);
    assert DrainStore(Started(s).core, s) == DrainedOne(s).core && Started(s).callers + [[]] == DrainedOne(s).callers;
    ExecConcat(Init(false), first, drain);
    steps := first + drain;
  }

  lemma StoppedIsReached(s: Slot) returns (steps: seq<Step>)
    ensures ValidRun(Init(false), steps) && Exec(Init(false), steps) == StoppedOne(s)
  {
    var first := DrainedIsReached(s);
    var stop := ShutdownRound(DrainedOne(s), s);
    assert StopStore(DrainedOne(s).core, s).stores == map[];
    assert DrainedOne(s).callers + [[]] == StoppedOne(s).callers;
    ExecConcat(Init(false), first, stop);
    steps := first + stop;
  }

  lemma ReplacedIsReached(s: Slot) returns (steps: seq<Step>)
    ensures ValidRun(Init(false), steps) && Exec(Init(false), steps) == Replaced(s)
  {
    var first := StoppedIsReached(s);
    var start := StartRound(StoppedOne(s), s);
    assert StoppedOne(s).callers + [[]] == Replaced(s).callers;
    ExecConcat(Init(false), first, start);
    steps := first + start;
  }

  /** Cancelling comes too late for a timer whose time has passed: in a reachable state in which every caller is done
      and the wanted slot has an active store, the cancelled timer of the store before it can still fire, and then the
      slot has none. */
  lemma LateTimerRemovesNewStore(s: Slot) returns (steps: seq<Step>)
    ensures ValidRun(Init(false), steps)
    ensures
      var n := Exec(Init(false), steps);
      && Idle(n) && n.core.stores == map[s := Store(Active, None)] && 0 in n.core.cancelled
      && Enabled(n, TimerFires(0)) && Next(n, TimerFires(0)).core.stores == map[]
  {
    steps := ReplacedIsReached(s);
    assert Next(Replaced(s), TimerFires(0)).core.stores == map[];
  }
}
