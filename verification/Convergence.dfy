/** Liveness of the store machine: reconciling to quiescence reaches the desired slots. */
module Convergence {
  import opened Wrappers
  import opened StoreMachine
  import opened NoStuckStore

  // ---------------------------------------------------------------- termination

  /** A step that continues work already under way, with every store it starts opening successfully. */
  predicate WorkStep(step: Step) {
    match step
    case BeginReconcile(_, _) => false
    case BeginShutdown(_) => false
    case RunOp(_, opens) => opens
    case _ => true
  }

  function OpsWork(ops: seq<Op>): nat {
    if ops == [] then 0 else (if ops[0].Do? then 3 else 1) + OpsWork(ops[1..])
  }

  function CallersWork(callers: seq<seq<Op>>): nat {
    if callers == [] then 0 else OpsWork(callers[0]) + CallersWork(callers[1..])
  }

  function Work(n: Node): nat {
    CallersWork(n.callers) + 2 * |n.core.spawned| + |n.core.running| + |n.core.timers|
  }

  lemma {:induction false} CallersWorkUpdate(callers: seq<seq<Op>>, c: nat, ops: seq<Op>)
    requires c < |callers|
    ensures CallersWork(callers[c := ops]) + OpsWork(callers[c]) == CallersWork(callers) + OpsWork(ops)
  {
    if c == 0 {
      assert callers[c := ops][1..] == callers[1..];
    } else {
      CallersWorkUpdate(callers[1..], c - 1, ops);
      assert callers[c := ops][1..] == callers[1..][c - 1 := ops];
    }
  }

  lemma RemoveShrinks<V>(m: map<nat, V>, id: nat)
    requires id in m
    ensures |m - {id}| == |m| - 1
  {
    assert (m - {id}).Keys == m.Keys - {id};
  }

  lemma AddGrows<V>(m: map<nat, V>, id: nat, v: V)
    requires id !in m
    ensures |m[id := v]| == |m| + 1
  {
    assert m[id := v].Keys == m.Keys + {id};
  }

  lemma OpShrinksWork(n: Node, c: nat)
    requires Inv(n) && Enabled(n, RunOp(c, true))
    ensures Work(Next(n, RunOp(c, true))) < Work(n)
  {
    var op, rest := n.callers[c][0], n.callers[c][1..];
    var rest' := OpRest(n.core, op, true, rest);
    CallersWorkUpdate(n.callers, c, rest');
    if op.Do? && op.action.Start? {
      assert n.core.hasRecovery ==> rest' == rest;
      assert !n.core.hasRecovery ==> rest'[1..] == rest;
      AddGrows(n.core.spawned, n.core.nextId, op.action.slot);
    } else if op.Do? && op.action.Drain? {
      AddGrows(n.core.timers, n.core.nextId, op.action.slot);
    }
  }

  /** Work under way always gets done: each such step leaves strictly less of it. */
  lemma WorkShrinks(n: Node, step: Step)
    requires Inv(n) && Enabled(n, step) && WorkStep(step)
    ensures Work(Next(n, step)) < Work(n)
  {
    match step
    case RunOp(c, _) => OpShrinksWork(n, c);
    case RecoveryBegins(id) =>
      RemoveShrinks(n.core.spawned, id);
      AddGrows(n.core.running, id, n.core.spawned[id]);
    case RecoveryEnds(id) => RemoveShrinks(n.core.running, id);
    case TimerFires(id) => RemoveShrinks(n.core.timers, id);
    case TimerCancelled(id) => RemoveShrinks(n.core.timers, id);
  }

  predicate WorkRun(n: Node, steps: seq<Step>) {
    ValidRun(n, steps) && forall i :: 0 <= i < |steps| ==> WorkStep(steps[i])
  }

  /** Without new callers a node settles: no run of work steps is longer than the work there is, and one
      that cannot be continued has reached quiescence. */
  lemma {:induction false} WorkTerminates(n: Node, steps: seq<Step>)
    requires Inv(n) && WorkRun(n, steps)
    ensures |steps| <= Work(n)
    ensures Quiet(Exec(n, steps)) <==> !exists step :: WorkStep(step) && Enabled(Exec(n, steps), step)
    decreases |steps|
  {
    if steps == [] {
      if !Quiet(n) { var step := SomeWorkStep(n); }
    } else {
      WorkShrinks(n, steps[0]);
      InvNext(n, steps[0]);
      WorkTerminates(Next(n, steps[0]), steps[1..]);
    }
  }

  lemma SomeWorkStep(n: Node) returns (step: Step)
    requires !Quiet(n)
    ensures WorkStep(step) && Enabled(n, step) && !step.TimerCancelled?
  {
    if c :| 0 <= c < |n.callers| && n.callers[c] != [] {
      step := RunOp(c, true);
    } else if n.core.spawned != map[] {
      var id :| id in n.core.spawned;
      step := RecoveryBegins(id);
    } else if n.core.running != map[] {
      var id :| id in n.core.running;
      step := RecoveryEnds(id);
    } else {
      var id :| id in n.core.timers;
      step := TimerFires(id);
    }
  }

  lemma Prepend(n: Node, step: Step, rest: seq<Step>)
    requires Enabled(n, step) && WorkStep(step) && WorkRun(Next(n, step), rest)
    ensures WorkRun(n, [step] + rest) && Exec(n, [step] + rest) == Exec(Next(n, step), rest)
  {
    ExecPrepend(n, step, rest);
  }

  /** Whatever a node is doing, it can be let run to quiescence. */
  lemma {:induction false} RunToQuiescence(n: Node) returns (steps: seq<Step>)
    requires Inv(n)
    ensures WorkRun(n, steps) && Quiet(Exec(n, steps))
    decreases Work(n)
  {
    if Quiet(n) {
      steps := [];
    } else {
      var step := SomeWorkStep(n);
      WorkShrinks(n, step);
      InvNext(n, step);
      var rest := RunToQuiescence(Next(n, step));
      Prepend(n, step, rest);
      steps := [step] + rest;
    }
  }

  // ---------------------------------------------------------------- one round

  predicate Idle(n: Node) {
    forall c :: 0 <= c < |n.callers| ==> n.callers[c] == []
  }

  /** `reconcile(desired)` runs with no other caller in flight, until nothing is left to happen. */
  ghost predicate Round(n: Node, desired: seq<Slot>, order: seq<Slot>, steps: seq<Step>) {
    var begin := BeginReconcile(desired, order);
    && Idle(n)
    && Enabled(n, begin)
    && WorkRun(Next(n, begin), steps)
    && Quiet(Exec(Next(n, begin), steps))
  }

  function RoundEnd(n: Node, desired: seq<Slot>, order: seq<Slot>, steps: seq<Step>): Node
    requires Round(n, desired, order, steps)
  {
    Exec(Next(n, BeginReconcile(desired, order)), steps)
  }

  /** From every reachable state with no caller in flight there is such a round. */
  lemma RoundExists(n: Node, desired: seq<Slot>, order: seq<Slot>) returns (steps: seq<Step>)
    requires Inv(n) && Idle(n) && Enabled(n, BeginReconcile(desired, order))
    ensures Round(n, desired, order, steps)
  {
    InvNext(n, BeginReconcile(desired, order));
    steps := RunToQuiescence(Next(n, BeginReconcile(desired, order)));
  }

  /** The stores are exactly the desired slots, each active. */
  ghost predicate Settled(n: Core, desired: seq<Slot>) {
    && n.stores.Keys == (set s | s in desired)
    && forall s :: s in n.stores ==> n.stores[s].state == Active
  }

  ghost predicate HasTimer(n: Core, s: Slot) {
    exists t :: t in n.timers && n.timers[t] == s
  }

  ghost predicate TimersAvoid(n: Core, desired: seq<Slot>) {
    forall s :: s in desired ==> !HasTimer(n, s)
  }

  /** What holds throughout a round that started with no timer on a desired slot. Only the last caller
      has anything to do. */
  ghost predicate OnTrack(n: Core, ops: seq<Op>, desired: seq<Slot>) {
    && (forall op :: op in ops ==> op.MarkActive? || (op.action.Start? && op.action.slot in desired)
                                   || (op.action.Drain? && op.action.slot !in desired))
    && (forall s :: s in desired ==> !HasTimer(n, s) && (s in n.stores || Do(Start(s)) in ops))
    && (forall s :: s in n.stores && s !in desired ==> HasLiveTimer(n, s) || Do(Drain(s)) in ops)
  }

  lemma LiveTimerStays(n: Core, op: Op, s: Slot)
    requires TokensOk(n) && HasLiveTimer(n, s) && !(op.Do? && op.action.Stop?)
    ensures HasLiveTimer(OpCore(n, op, true), s)
  {
    var n' := OpCore(n, op, true);
    var t :| t in n.timers && n.timers[t] == s && t !in n.cancelled;
    assert t in n'.timers && n'.timers[t] == s && t !in n'.cancelled;
  }

  lemma DrainHasTimer(n: Core, s: Slot)
    requires TokensOk(n) && s in n.stores
    ensures HasLiveTimer(DrainStore(n, s), s)
  {
    var n' := DrainStore(n, s);
    assert TokenOk(n, s);
    var t := n'.stores[s].drainCancel.value;
    assert t in n'.timers && n'.timers[t] == s && t !in n'.cancelled;
  }

  /** A store that is not wanted keeps its live timer, or its drain is still to come. */
  lemma UnwantedOnTrack(n: Core, ops: seq<Op>, desired: seq<Slot>, s: Slot)
    requires ops != [] && TokensOk(n) && OnTrack(n, ops, desired) && s !in desired
    requires s in OpCore(n, ops[0], true).stores
    ensures HasLiveTimer(OpCore(n, ops[0], true), s) || Do(Drain(s)) in ops[1..]
  {
    var op := ops[0];
    assert ops == [op] + ops[1..] && op in ops;
    assert s in n.stores;
    if HasLiveTimer(n, s) {
      LiveTimerStays(n, op, s);
    } else if op == Do(Drain(s)) {
      DrainHasTimer(n, s);
    }
  }

  lemma OnTrackOp(n: Core, ops: seq<Op>, desired: seq<Slot>)
    requires ops != [] && TokensOk(n) && OnTrack(n, ops, desired)
    ensures OnTrack(OpCore(n, ops[0], true), OpRest(n, ops[0], true, ops[1..]), desired)
  {
    var op, n', rest := ops[0], OpCore(n, ops[0], true), OpRest(n, ops[0], true, ops[1..]);
    forall x | x in ops ensures x == op || x in rest { assert ops == [op] + ops[1..]; }
    forall x | x in rest ensures x.MarkActive? || x in ops {}
    assert op in ops;
    forall s | s in n'.stores && s !in desired ensures HasLiveTimer(n', s) || Do(Drain(s)) in rest {
      UnwantedOnTrack(n, ops, desired, s);
    }
    forall s | s in desired ensures !HasTimer(n', s) {
      assert !HasTimer(n, s);
    }
  }

  lemma OnTrackTask(n: Node, step: Step, ops: seq<Op>, desired: seq<Slot>)
    requires OnTrack(n.core, ops, desired) && Enabled(n, step) && WorkStep(step) && !step.RunOp?
    ensures OnTrack(NextCore(n, step), ops, desired)
  {
    var n' := NextCore(n, step);
    forall s | s in desired ensures !HasTimer(n', s) && (s in n'.stores || Do(Start(s)) in ops) {
      assert !HasTimer(n.core, s);
    }
    forall s | s in n'.stores && s !in desired ensures HasLiveTimer(n', s) || Do(Drain(s)) in ops {
      assert s in n.core.stores;
      if t :| t in n.core.timers && n.core.timers[t] == s && t !in n.core.cancelled {
        assert t in n'.timers && n'.timers[t] == s && t !in n'.cancelled;
      }
    }
  }

  ghost predicate OnTrackNode(n: Node, desired: seq<Slot>) {
    && n.callers != []
    && (forall c :: 0 <= c < |n.callers| - 1 ==> n.callers[c] == [])
    && OnTrack(n.core, n.callers[|n.callers| - 1], desired)
  }

  lemma {:induction false} OnTrackRun(n: Node, steps: seq<Step>, desired: seq<Slot>)
    requires Inv(n) && OnTrackNode(n, desired) && WorkRun(n, steps)
    ensures OnTrackNode(Exec(n, steps), desired)
    decreases |steps|
  {
    if steps != [] {
      var step := steps[0];
      if step.RunOp? {
        assert step.caller == |n.callers| - 1;
        OnTrackOp(n.core, n.callers[step.caller], desired);
      } else {
        OnTrackTask(n, step, n.callers[|n.callers| - 1], desired);
      }
      InvNext(n, step);
      OnTrackRun(Next(n, step), steps[1..], desired);
    }
  }

  lemma OnTrackStart(n: Node, desired: seq<Slot>, order: seq<Slot>)
    requires Inv(n) && Idle(n) && Enabled(n, BeginReconcile(desired, order)) && TimersAvoid(n.core, desired)
    ensures OnTrackNode(Next(n, BeginReconcile(desired, order)), desired)
  {
    var actions := ActionsFor(n.core.stores, desired, order);
    var ops := Ops(actions);
    forall a | a in actions ensures Do(a) in ops {
      var i :| 0 <= i < |actions| && actions[i] == a;
      assert ops[i] == Do(a);
    }
    forall op | op in ops
      ensures (op.action.Start? && op.action.slot in desired) || (op.action.Drain? && op.action.slot !in desired)
    {
      ActionsForMember(n.core.stores, desired, order, op.action);
    }
    forall s | s in desired && s !in n.core.stores ensures Do(Start(s)) in ops {
      ActionsForMember(n.core.stores, desired, order, Start(s));
    }
    forall s | s in n.core.stores && s !in desired
      ensures HasLiveTimer(n.core, s) || Do(Drain(s)) in ops
    {
      assert TokenOk(n.core, s);
      if n.core.stores[s].state != Draining {
        ActionsForMember(n.core.stores, desired, order, Drain(s));
      }
    }
  }

  /** One round is enough when no drain timer is pending on a desired slot. */
  lemma RoundSettles(n: Node, desired: seq<Slot>, order: seq<Slot>, steps: seq<Step>)
    requires Inv(n) && Round(n, desired, order, steps) && TimersAvoid(n.core, desired)
    ensures Settled(RoundEnd(n, desired, order, steps).core, desired)
  {
    var begin := BeginReconcile(desired, order);
    var end := RoundEnd(n, desired, order, steps);
    OnTrackStart(n, desired, order);
    InvNext(n, begin);
    OnTrackRun(Next(n, begin), steps, desired);
    InvRun(Next(n, begin), steps);
    InvMeansUnstuck(end);
    forall s ensures s in end.core.stores.Keys <==> s in (set x | x in desired) {
      assert s in end.core.stores && s !in desired ==> !HasLiveTimer(end.core, s);
    }
  }

  /** Two rounds are always enough: the first leaves no timer behind. */
  lemma TwoRoundsSettle(n: Node, desired: seq<Slot>,
                        order1: seq<Slot>, steps1: seq<Step>, order2: seq<Slot>, steps2: seq<Step>)
    requires Inv(n) && Round(n, desired, order1, steps1)
    requires Round(RoundEnd(n, desired, order1, steps1), desired, order2, steps2)
    ensures Settled(RoundEnd(RoundEnd(n, desired, order1, steps1), desired, order2, steps2).core, desired)
  {
    var begin := BeginReconcile(desired, order1);
    InvNext(n, begin);
    InvRun(Next(n, begin), steps1);
    RoundSettles(RoundEnd(n, desired, order1, steps1), desired, order2, steps2);
  }

  // ---------------------------------------------------------------- exactly when one round is enough

  lemma TimerStays(n: Node, c: nat, t: nat)
    requires Inv(n) && t in n.core.timers && Enabled(n, RunOp(c, true))
    ensures var n' := Next(n, RunOp(c, true)); t in n'.core.timers && n'.core.timers[t] == n.core.timers[t]
  {
    assert n.core.nextId != t;
  }

  /** Lets the callers finish without letting any timer fire. */
  lemma {:induction false} FinishCallers(n: Node, t: nat) returns (steps: seq<Step>)
    requires Inv(n) && t in n.core.timers
    ensures WorkRun(n, steps) && Idle(Exec(n, steps)) && Inv(Exec(n, steps))
    ensures t in Exec(n, steps).core.timers && Exec(n, steps).core.timers[t] == n.core.timers[t]
    decreases Work(n)
  {
    if c :| 0 <= c < |n.callers| && n.callers[c] != [] {
      var step := RunOp(c, true);
      WorkShrinks(n, step);
      InvNext(n, step);
      TimerStays(n, c, t);
      var rest := FinishCallers(Next(n, step), t);
      Prepend(n, step, rest);
      steps := [step] + rest;
    } else {
      steps := [];
    }
  }

  lemma LoseSlotStep(n: Node, step: Step, s: Slot)
    requires Idle(n) && (HasTimer(n.core, s) || s !in n.core.stores)
    requires Enabled(n, step) && WorkStep(step) && !step.TimerCancelled?
    ensures Idle(Next(n, step))
    ensures HasTimer(NextCore(n, step), s) || s !in NextCore(n, step).stores
  {
    var n' := NextCore(n, step);
    if t :| t in n.core.timers && n.core.timers[t] == s && step != TimerFires(t) {
      assert t in n'.timers && n'.timers[t] == s;
    }
  }

  /** With no caller left, a slot with a pending timer, or no store, ends up with no store. */
  lemma {:induction false} LoseSlot(n: Node, s: Slot) returns (steps: seq<Step>)
    requires Inv(n) && Idle(n) && (HasTimer(n.core, s) || s !in n.core.stores)
    ensures WorkRun(n, steps) && Quiet(Exec(n, steps)) && s !in Exec(n, steps).core.stores
    decreases Work(n)
  {
    if Quiet(n) {
      steps := [];
    } else {
      var step := SomeWorkStep(n);
      WorkShrinks(n, step);
      InvNext(n, step);
      LoseSlotStep(n, step, s);
      var rest := LoseSlot(Next(n, step), s);
      Prepend(n, step, rest);
      steps := [step] + rest;
    }
  }

  /** A round in which the pending timer of a slot fires after the reconcile has passed it over. */
  lemma LoseWanted(n: Node, desired: seq<Slot>, order: seq<Slot>, s: Slot) returns (steps: seq<Step>)
    requires Inv(n) && Idle(n) && Enabled(n, BeginReconcile(desired, order)) && HasTimer(n.core, s)
    ensures Round(n, desired, order, steps) && s !in RoundEnd(n, desired, order, steps).core.stores
  {
    var t :| t in n.core.timers && n.core.timers[t] == s;
    var begin := BeginReconcile(desired, order);
    InvNext(n, begin);
    var a := FinishCallers(Next(n, begin), t);
    var b := LoseSlot(Exec(Next(n, begin), a), s);
    ExecConcat(Next(n, begin), a, b);
    steps := a + b;
  }

  /** The exact condition: every way a round can go settles on the desired slots, if and only if no drain
      timer is pending on one of them when it starts. */
  lemma OneRoundIffNoTimer(n: Node, desired: seq<Slot>, order: seq<Slot>)
    requires Inv(n) && Idle(n) && Enabled(n, BeginReconcile(desired, order))
    ensures TimersAvoid(n.core, desired) <==>
      forall steps :: Round(n, desired, order, steps) ==> Settled(RoundEnd(n, desired, order, steps).core, desired)
  {
    if TimersAvoid(n.core, desired) {
      forall steps | Round(n, desired, order, steps)
        ensures Settled(RoundEnd(n, desired, order, steps).core, desired)
      {
        RoundSettles(n, desired, order, steps);
      }
    } else {
      var s :| s in desired && HasTimer(n.core, s);
      var steps := LoseWanted(n, desired, order, s);
      assert s in (set x | x in desired);
    }
  }

  lemma StartOne(s: Slot)
    ensures Ops(ActionsFor(map[], [s], [])) == [Do(Start(s))]
  {
    assert [s][1..] == [] && StartsFor(map[], []) == [] && [Start(s)] + [] == [Start(s)];
    assert StartsFor(map[], [s]) == [Start(s)] && DrainsFor(map[], [s], []) == [];
  }

  lemma DrainOne(stores: map<Slot, Store>, s: Slot)
    requires s in stores && stores[s].state != Draining && stores[s].state != Stopped
    ensures Ops(ActionsFor(stores, [], [s])) == [Do(Drain(s))]
  {
    assert [s][1..] == [] && DrainsFor(stores, [], []) == [] && [Drain(s)] + [] == [Drain(s)];
    assert NeedsDrain(stores, [], s);
    assert StartsFor(stores, []) == [] && DrainsFor(stores, [], [s]) == [Drain(s)];
  }

  /** A node without recovery that has started one store. */
  function Started(s: Slot): Node {
    Node(InitCore(false).(stores := map[s := Store(Active, None)]), [[]])
  }

  lemma StartedIsReached(s: Slot) returns (steps: seq<Step>)
    ensures ValidRun(Init(false), steps) && Exec(Init(false), steps) == Started(s)
  {
    var begin, own := BeginReconcile([s], []), RunOp(0, true);
    StartOne(s);
    var n1 := Next(Init(false), begin);
    assert n1 == Node(InitCore(false), [[Do(Start(s))]]);
    var n2 := Next(n1, own);
    assert n2.callers[0] == [MarkActive(s)];
    var n3 := Next(n2, own);
    assert n3.callers == [[]] && n3 == Started(s);
    ExecPrepend(n2, own, []);
    ExecPrepend(n1, own, [own] + []);
    ExecPrepend(Init(false), begin, [own] + ([own] + []));
    steps := [begin] + ([own] + ([own] + []));
  }

  /** A slot that was started, dropped and is wanted again: a reachable idle state with a timer pending on it. */
  lemma TimerOnWantedSlot(s: Slot) returns (steps: seq<Step>)
    ensures ValidRun(Init(false), steps)
    ensures var n := Exec(Init(false), steps); Idle(n) && n.core.stores.Keys == {s} && HasTimer(n.core, s)
  {
    var first := StartedIsReached(s);
    var begin, drain := BeginReconcile([], [s]), RunOp(1, true);
    DrainOne(Started(s).core.stores, s);
    assert (set k | k in [s]) == {s};
    var n1 := Next(Started(s), begin);
    assert n1.callers == [[], [Do(Drain(s))]];
    var n2 := Next(n1, drain);
    assert n2.callers == [[], []] && 0 in n2.core.timers && n2.core.timers[0] == s;
    ExecPrepend(n1, drain, []);
    ExecPrepend(Started(s), begin, [drain] + []);
    ExecConcat(Init(false), first, [begin] + ([drain] + []));
    steps := first + ([begin] + ([drain] + []));
  }

  /** So one round is not always enough: from a reachable idle state a reconcile can run to quiescence and leave
      the wanted slot without a store. */
  lemma OneRoundCanFail(s: Slot) returns (before: seq<Step>, steps: seq<Step>)
    ensures ValidRun(Init(false), before)
    ensures
      var n := Exec(Init(false), before);
      Round(n, [s], [s], steps) && s !in RoundEnd(n, [s], [s], steps).core.stores
  {
    before := TimerOnWantedSlot(s);
    InvRun(Init(false), before);
    assert (set k | k in [s]) == {s};
    steps := LoseWanted(Exec(Init(false), before), [s], [s], s);
  }
}
