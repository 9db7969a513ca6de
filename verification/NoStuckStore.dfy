/** Safety of the store machine under every interleaving: no store is ever stuck. */
module NoStuckStore {
  import opened StoreMachine

  /** A recovery task for `s` has not finished. */
  ghost predicate HasRecoveryTask(n: Core, s: Slot) {
    || (exists id :: id in n.spawned && n.spawned[id] == s)
    || (exists id :: id in n.running && n.running[id] == s)
  }

  /** A caller is in the middle of starting `s`. */
  ghost predicate HasStarter(callers: seq<seq<Op>>, s: Slot) {
    exists c :: 0 <= c < |callers| && callers[c] != [] && callers[c][0] == MarkActive(s)
  }

  /** Someone is still going to mark `s` active. */
  ghost predicate HasCompletion(n: Node, s: Slot) {
    HasRecoveryTask(n.core, s) || HasStarter(n.callers, s)
  }

  /** A drain timer that nobody has cancelled is still pending for `s`. */
  ghost predicate HasLiveTimer(n: Core, s: Slot) {
    exists t :: t in n.timers && n.timers[t] == s && t !in n.cancelled
  }

  ghost predicate Unstuck(n: Node, s: Slot)
    requires s in n.core.stores
  {
    match n.core.stores[s].state
    case Active => true
    case Starting => HasCompletion(n, s)
    case Recovering => HasCompletion(n, s)
    case Draining => HasLiveTimer(n.core, s)
    case Stopped => false
  }

  ghost predicate Quiet(n: Node) {
    && (forall c :: 0 <= c < |n.callers| ==> n.callers[c] == [])
    && n.core.spawned == map[] && n.core.running == map[] && n.core.timers == map[]
  }

  // ---------------------------------------------------------------- drain tokens

  /** A store's token belongs to a timer of the same slot, and a draining store owns a live timer. */
  ghost predicate TokenOk(n: Core, s: Slot)
    requires s in n.stores
  {
    match n.stores[s].drainCancel
    case None => n.stores[s].state != Draining
    case Some(t) =>
      && t < n.nextId
      && (t in n.timers ==> n.timers[t] == s)
      && (n.stores[s].state == Draining ==> t in n.timers && t !in n.cancelled)
  }

  ghost predicate TokensOk(n: Core) {
    && (forall t :: t in n.timers ==> t < n.nextId)
    && (forall t :: t in n.cancelled ==> t < n.nextId)
    && (forall s :: s in n.stores ==> TokenOk(n, s))
  }

  lemma TokensAfterDrain(n: Core, d: Slot)
    requires TokensOk(n)
    ensures TokensOk(DrainStore(n, d))
  {
    var n' := DrainStore(n, d);
    forall s | s in n'.stores ensures TokenOk(n', s) {
      assert TokenOk(n, s);
    }
  }

  lemma TokensAfterStop(n: Core, d: Slot)
    requires TokensOk(n)
    ensures TokensOk(StopStore(n, d))
  {
    var n' := StopStore(n, d);
    forall s | s in n'.stores ensures TokenOk(n', s) {
      assert TokenOk(n, s);
      if d in n.stores { assert TokenOk(n, d); }
    }
  }

  lemma TokensAfterOp(n: Core, op: Op, opens: bool)
    requires TokensOk(n)
    ensures TokensOk(OpCore(n, op, opens))
  {
    if op.Do? && op.action.Drain? {
      TokensAfterDrain(n, op.action.slot);
    } else if op.Do? && op.action.Stop? {
      TokensAfterStop(n, op.action.slot);
    } else {
      var n' := OpCore(n, op, opens);
      forall s | s in n'.stores ensures TokenOk(n', s) {
        if s in n.stores { assert TokenOk(n, s); }
      }
    }
  }

  lemma TokensAfterTask(n: Node, step: Step)
    requires TokensOk(n.core) && Enabled(n, step) && !step.RunOp?
    ensures TokensOk(NextCore(n, step))
  {
    var n' := NextCore(n, step);
    forall s | s in n'.stores ensures TokenOk(n', s) {
      assert TokenOk(n.core, s);
    }
  }

  // ---------------------------------------------------------------- completions

  ghost predicate TasksOk(n: Core) {
    && (forall id :: id in n.spawned ==> id < n.nextId)
    && (forall id :: id in n.running ==> id < n.nextId && id !in n.spawned)
  }

  /** Only the first thing a caller has left to do can be the second half of a start. */
  ghost predicate CallersOk(callers: seq<seq<Op>>) {
    forall c :: 0 <= c < |callers| ==> forall k :: 1 <= k < |callers[c]| ==> callers[c][k].Do?
  }

  ghost predicate CompletionsOk(n: Node) {
    forall s :: s in n.core.stores ==>
      && n.core.stores[s].state != Stopped
      && (n.core.stores[s].state == Starting || n.core.stores[s].state == Recovering ==> HasCompletion(n, s))
  }

  ghost predicate Inv(n: Node) {
    TokensOk(n.core) && TasksOk(n.core) && CallersOk(n.callers) && CompletionsOk(n)
  }

  lemma CallersAfter(n: Node, step: Step)
    requires CallersOk(n.callers) && Enabled(n, step)
    ensures CallersOk(NextCallers(n, step))
  {
    if step.RunOp? {
      var before, after := n.callers[step.caller], NextCallers(n, step)[step.caller];
      forall k | 1 <= k < |after| ensures after[k].Do? {
        assert after[k] == before[1..][|before| - 1 - (|after| - k)];
      }
    }
  }

  /** An operation leaves every other pending completion in place. */
  lemma CompletionKept(n: Node, step: Step, s: Slot)
    requires Enabled(n, step) && step.RunOp? && HasCompletion(n, s) && n.callers[step.caller][0] != MarkActive(s)
    requires TasksOk(n.core)
    ensures HasCompletion(Next(n, step), s)
  {
    var n' := Next(n, step);
    if id :| id in n.core.spawned && n.core.spawned[id] == s {
      assert id in n'.core.spawned && n'.core.spawned[id] == s;
    } else if id :| id in n.core.running && n.core.running[id] == s {
      assert id in n'.core.running && n'.core.running[id] == s;
    } else {
      var d :| 0 <= d < |n.callers| && n.callers[d] != [] && n.callers[d][0] == MarkActive(s);
      assert n'.callers[d] == n.callers[d];
    }
  }

  /** A store that was just inserted has a recovery task, or a caller about to mark it active. */
  lemma CompletionOfStart(n: Node, step: Step, s: Slot)
    requires Enabled(n, step) && step.RunOp? && n.callers[step.caller][0] == Do(Start(s)) && step.opens
    ensures HasCompletion(Next(n, step), s)
  {
    var n' := Next(n, step);
    if n.core.hasRecovery {
      assert n.core.nextId in n'.core.spawned && n'.core.spawned[n.core.nextId] == s;
    } else {
      assert n'.callers[step.caller] != [] && n'.callers[step.caller][0] == MarkActive(s);
    }
  }

  /** Only inserting a store puts it in a state that waits for a completion. */
  lemma WaitingAfterOp(n: Core, op: Op, opens: bool, s: Slot)
    requires s in OpCore(n, op, opens).stores && !(op == Do(Start(s)) && opens)
    ensures var st := OpCore(n, op, opens).stores[s].state;
      || st == Active || st == Draining || (s in n.stores && st == n.stores[s].state && op != MarkActive(s))
  {
  }

  lemma CompletionAfterOp(n: Node, step: Step, s: Slot)
    requires Inv(n) && Enabled(n, step) && step.RunOp? && s in Next(n, step).core.stores
    ensures var st := Next(n, step).core.stores[s].state;
      st != Stopped && (st == Starting || st == Recovering ==> HasCompletion(Next(n, step), s))
  {
    var op := n.callers[step.caller][0];
    if op == Do(Start(s)) && step.opens {
      CompletionOfStart(n, step, s);
    } else {
      WaitingAfterOp(n.core, op, step.opens, s);
      if HasCompletion(n, s) && op != MarkActive(s) {
        CompletionKept(n, step, s);
      }
    }
  }

  lemma CompletionsAfterOp(n: Node, step: Step)
    requires Inv(n) && Enabled(n, step) && step.RunOp?
    ensures CompletionsOk(Next(n, step))
  {
    forall s | s in Next(n, step).core.stores
      ensures var st := Next(n, step).core.stores[s].state;
        st != Stopped && (st == Starting || st == Recovering ==> HasCompletion(Next(n, step), s))
    {
      CompletionAfterOp(n, step, s);
    }
  }

  lemma CompletionsAfterTask(n: Node, step: Step)
    requires Inv(n) && Enabled(n, step) && !step.RunOp?
    ensures CompletionsOk(Next(n, step))
  {
    var n' := Next(n, step);
    forall s | s in n'.core.stores
      ensures n'.core.stores[s].state != Stopped
      ensures n'.core.stores[s].state == Starting || n'.core.stores[s].state == Recovering ==> HasCompletion(n', s)
    {
      if d :| 0 <= d < |n.callers| && n.callers[d] != [] && n.callers[d][0] == MarkActive(s) {
        assert n'.callers[d] == n.callers[d];
      } else if id :| id in n.core.spawned && n.core.spawned[id] == s {
        assert if step == RecoveryBegins(id) then id in n'.core.running && n'.core.running[id] == s
               else id in n'.core.spawned && n'.core.spawned[id] == s;
      } else if id :| id in n.core.running && n.core.running[id] == s {
        assert step == RecoveryEnds(id) || (id in n'.core.running && n'.core.running[id] == s);
      }
    }
  }

  // ---------------------------------------------------------------- runs

  lemma InvNext(n: Node, step: Step)
    requires Inv(n) && Enabled(n, step)
    ensures Inv(Next(n, step))
  {
    CallersAfter(n, step);
    if step.RunOp? {
      TokensAfterOp(n.core, n.callers[step.caller][0], step.opens);
      CompletionsAfterOp(n, step);
    } else {
      TokensAfterTask(n, step);
      CompletionsAfterTask(n, step);
    }
  }

  lemma {:induction false} InvRun(n: Node, steps: seq<Step>)
    requires Inv(n) && ValidRun(n, steps)
    ensures Inv(Exec(n, steps))
    decreases |steps|
  {
    if steps != [] {
      InvNext(n, steps[0]);
      InvRun(Next(n, steps[0]), steps[1..]);
    }
  }

  lemma InvMeansUnstuck(n: Node)
    requires Inv(n)
    ensures forall s :: s in n.core.stores ==> Unstuck(n, s)
    ensures Quiet(n) ==> forall s :: s in n.core.stores ==> n.core.stores[s].state == Active
  {
    forall s | s in n.core.stores ensures Unstuck(n, s) {
      assert TokenOk(n.core, s);
    }
  }

  /** In every state a node can reach, whatever the interleaving of reconciles, shutdowns, recoveries and
      drain timers, each store is active, or someone is still going to mark it active, or a live timer is
      going to remove it; so once nothing is left to happen every remaining store is active. */
  lemma NoStoreIsStuck(hasRecovery: bool, steps: seq<Step>)
    requires ValidRun(Init(hasRecovery), steps)
    ensures forall s :: s in Exec(Init(hasRecovery), steps).core.stores ==>
      Unstuck(Exec(Init(hasRecovery), steps), s)
    ensures Quiet(Exec(Init(hasRecovery), steps)) ==>
      forall s :: s in Exec(Init(hasRecovery), steps).core.stores ==>
        Exec(Init(hasRecovery), steps).core.stores[s].state == Active
  {
    InvRun(Init(hasRecovery), steps);
    InvMeansUnstuck(Exec(Init(hasRecovery), steps));
  }
}
